// The handlers that rewrite the command line before the engine sees it
// (libs/core/src/core/cmdline_processor.cpp).
module CmdLineProcessor {
  import opened Wrappers
  import opened Strings
  import Text = CmdLineText
  import opened CmdLineTokens
  import opened CmdLinePairs
  import opened CmdLineStore

  // The four handlers that only read the arguments are one case: Reader.
  datatype Handler = Steam | Console | TargetFps | ConDebug | Reader

  const HANDLERS: seq<Handler> := [Steam, Console, TargetFps, ConDebug, Reader, Reader, Reader, Reader]

  // The effect of one handler on the text; Console acts on Windows only.
  function Apply(handler: Handler, windows: bool, text: string): string {
    match handler
    case Steam => Text.PushFront(text, "-steam", "")
    case Console => if windows then Text.PushFront(text, "-console", "") else text
    case TargetFps =>
      if Text.Contains(text, "targetfps") then Text.PushBack(Text.RemoveAll(text, "pingboost"), "+sys_ticrate", "0")
      else text
    case ConDebug => Text.RemoveAll(text, "condebug")
    case Reader => text
  }

  function ApplyAll(handlers: seq<Handler>, windows: bool, text: string): string {
    if handlers == [] then text
    else Apply(handlers[|handlers| - 1], windows, ApplyAll(handlers[..|handlers| - 1], windows, text))
  }

  method Handle(handler: Handler, windows: bool, args: CmdLineArgs)
    modifies args
    ensures args.arguments == Apply(handler, windows, old(args.arguments))
  {
    match handler
    case Steam => args.PushFront("-steam", "");
    case Console =>
      if windows {
        args.PushFront("-console", "");
      }
    case TargetFps =>
      var found := args.Contains("targetfps");
      if found {
        args.Remove("pingboost");
        args.PushBack("+sys_ticrate", "0");
      }
    case ConDebug => args.Remove("condebug");
    case Reader =>
  }

  method Process(windows: bool, args: CmdLineArgs)
    modifies args
    ensures args.arguments == ApplyAll(HANDLERS, windows, old(args.arguments))
    ensures forall ps | Good(ps, Looked(ps, windows)) && Render(ps) == old(args.arguments) ::
              args.arguments == Render(Processed(ps, windows))
  {
    ProcessRenders(windows);
    ApplyHandlers(HANDLERS, windows, args);
  }

  method ApplyHandlers(handlers: seq<Handler>, windows: bool, args: CmdLineArgs)
    modifies args
    ensures args.arguments == ApplyAll(handlers, windows, old(args.arguments))
  {
    for i := 0 to |handlers|
      invariant args.arguments == ApplyAll(handlers[..i], windows, old(args.arguments))
    {
      Handle(handlers[i], windows, args);
      assert handlers[..i + 1][..i] == handlers[..i];
    }
    assert handlers[..|handlers|] == handlers;
  }

  // ---- the same on lists of arguments -------------------------------------

  const STEAM := Arg("-steam", None)
  const CONSOLE := Arg("-console", None)
  const TICRATE := Arg("+sys_ticrate", Some("0"))

  const NAMES: seq<string> := ["steam", "console", "targetfps", "pingboost", "sys_ticrate", "condebug"]

  // The names that this run of process looks up.
  function Looked(ps: seq<Arg>, windows: bool): seq<string> {
    ["steam"] + (if windows then ["console"] else []) + ["targetfps"] +
    (if HasKey(ps, "targetfps") then ["pingboost", "sys_ticrate"] else []) + ["condebug"]
  }

  predicate NamedIn(key: string, names: seq<string>) {
    exists i :: 0 <= i < |names| && Named(key, names[i])
  }

  // The arguments with none of the names, in order.
  function KeepAll(ps: seq<Arg>, names: seq<string>): seq<Arg> {
    if ps == [] then []
    else (if NamedIn(ps[0].key, names) then [] else [ps[0]]) + KeepAll(ps[1..], names)
  }

  // The names that process takes out of the list before it puts its own in.
  function Rewritten(ps: seq<Arg>, windows: bool): seq<string> {
    ["steam"] + (if windows then ["console"] else []) +
    (if HasKey(ps, "targetfps") then ["pingboost", "sys_ticrate"] else []) + ["condebug"]
  }

  function Processed(ps: seq<Arg>, windows: bool): seq<Arg> {
    (if windows then [CONSOLE] else []) + [STEAM] + KeepAll(ps, Rewritten(ps, windows)) +
    (if HasKey(ps, "targetfps") then [TICRATE] else [])
  }

  lemma {:induction false} KeepAllOne(ps: seq<Arg>, name: string)
    ensures KeepAll(ps, [name]) == Keep(ps, name)
  {
    if ps != [] {
      KeepAllOne(ps[1..], name);
      assert [name][0] == name;
    }
  }

  lemma {:induction false} KeepAllAppend(ps: seq<Arg>, qs: seq<Arg>, names: seq<string>)
    ensures KeepAll(ps + qs, names) == KeepAll(ps, names) + KeepAll(qs, names)
  {
    if ps == [] {
      assert ps + qs == qs;
    } else {
      assert (ps + qs)[1..] == ps[1..] + qs;
      KeepAllAppend(ps[1..], qs, names);
    }
  }

  lemma NamedInAppend(key: string, names: seq<string>, more: seq<string>)
    ensures NamedIn(key, names + more) <==> NamedIn(key, names) || NamedIn(key, more)
  {
    if i :| 0 <= i < |names| && Named(key, names[i]) {
      assert (names + more)[i] == names[i];
    }
    if i :| 0 <= i < |more| && Named(key, more[i]) {
      assert (names + more)[|names| + i] == more[i];
    }
  }

  // Filtering twice is filtering by both lists of names.
  lemma {:induction false} KeepAllTwice(ps: seq<Arg>, names: seq<string>, more: seq<string>)
    ensures KeepAll(KeepAll(ps, names), more) == KeepAll(ps, names + more)
  {
    if ps != [] {
      KeepAllTwice(ps[1..], names, more);
      KeepAllAppend(if NamedIn(ps[0].key, names) then [] else [ps[0]], KeepAll(ps[1..], names), more);
      NamedInAppend(ps[0].key, names, more);
      assert [ps[0]][1..] == [];
    }
  }

  lemma {:induction false} KeepAllSame(ps: seq<Arg>, names: seq<string>)
    ensures KeepAll(KeepAll(ps, names), names) == KeepAll(ps, names)
  {
    if ps != [] {
      KeepAllSame(ps[1..], names);
      KeepAllAppend(if NamedIn(ps[0].key, names) then [] else [ps[0]], KeepAll(ps[1..], names), names);
      assert [ps[0]][1..] == [];
    }
  }

  lemma {:induction false} KeepAllOther(ps: seq<Arg>, names: seq<string>, other: string)
    requires other !in names
    ensures Lookup(KeepAll(ps, names), other) == Lookup(ps, other)
    ensures HasKey(KeepAll(ps, names), other) <==> HasKey(ps, other)
    ensures Count(KeepAll(ps, names), other) == Count(ps, other)
  {
    if ps != [] {
      var p, kept := ps[0], KeepAll(ps[1..], names);
      KeepAllOther(ps[1..], names, other);
      HasKeyCons(ps, other);
      if NamedIn(p.key, names) {
        var i :| 0 <= i < |names| && Named(p.key, names[i]);
        NamesDiffer(p.key, names[i], other);
        assert KeepAll(ps, names) == kept && !Named(p.key, other);
      } else {
        assert ([p] + kept)[1..] == kept;
        HasKeyCons([p] + kept, other);
      }
    }
  }

  lemma {:induction false} KeepAllFacts(ps: seq<Arg>, names: seq<string>)
    ensures forall i :: 0 <= i < |KeepAll(ps, names)| ==> KeepAll(ps, names)[i] in ps
    ensures forall name :: name in names ==> !HasKey(KeepAll(ps, names), name)
  {
    if ps != [] {
      KeepAllFacts(ps[1..], names);
      forall name | name in names ensures !HasKey(KeepAll(ps, names), name) {
        var k :| 0 <= k < |names| && names[k] == name;
        if !NamedIn(ps[0].key, names) {
          assert ([ps[0]] + KeepAll(ps[1..], names))[1..] == KeepAll(ps[1..], names);
          HasKeyCons(KeepAll(ps, names), name);
          assert !Named(ps[0].key, names[k]);
        }
      }
    }
  }

  // ---- the fixed keys and names -------------------------------------------

  // A key whose only prefix character is its first mentions no name but the
  // prefixes of its own.
  lemma KeyHit(key: string, name: string, p: int)
    requires Text.Hit(key, name, p) && forall i :: 0 < i < |key| ==> key[i] != '+' && key[i] != '-'
    ensures key != "" && name <= key[1..]
  {
    var pat := key[p..p + |name| + 1];
    assert pat[0] == key[p] && pat[1..] == name;
    assert key[1..][..|name|] == pat[1..];
  }

  lemma KeyMentions(key: string, name: string)
    requires forall i :: 0 < i < |key| ==> key[i] != '+' && key[i] != '-'
    ensures Mentions(key, name) ==> key != "" && name <= key[1..]
  {
    if p :| Text.Hit(key, name, p) {
      KeyHit(key, name, p);
    }
  }

  lemma NamesPrefixFree(name: string, other: string)
    requires name in NAMES && other in ["steam", "console", "sys_ticrate"]
    ensures name <= other ==> name == other
  {
    assert name <= other ==> name[0] == other[0] && name[1] == other[1];
  }

  lemma FixedValid()
    ensures forall i :: 0 <= i < |NAMES| ==> IsName(NAMES[i])
    ensures STEAM.Valid() && CONSOLE.Valid() && TICRATE.Valid()
  {
    assert IsName("steam") && IsName("console") && IsName("targetfps");
    assert IsName("pingboost") && IsName("sys_ticrate") && IsName("condebug");
  }

  // A key made of a prefix and one of the names.
  lemma FixedSeparated(key: string, own: string, name: string)
    requires name in NAMES && own in ["steam", "console", "sys_ticrate"] && Named(key, own)
    requires forall i :: 0 < i < |key| ==> key[i] != '+' && key[i] != '-'
    ensures Mentions(key, name) ==> Named(key, name)
  {
    assert key[1..] == own;
    KeyMentions(key, name);
    NamesPrefixFree(name, own);
  }

  lemma FixedArgs(name: string)
    requires name in NAMES
    ensures IsName(name) && STEAM.Valid() && CONSOLE.Valid() && TICRATE.Valid()
    ensures STEAM.Separated(name) && CONSOLE.Separated(name) && TICRATE.Separated(name)
  {
    FixedValid();
    FixedNames("steam");
    FixedNames("console");
    FixedNames("sys_ticrate");
    FixedSeparated("-steam", "steam", name);
    FixedSeparated("-console", "console", name);
    FixedSeparated("+sys_ticrate", "sys_ticrate", name);
    KeyMentions("0", name);
  }

  lemma FixedNames(key: string)
    ensures "-steam"[1..] == "steam" && "-console"[1..] == "console" && "+sys_ticrate"[1..] == "sys_ticrate"
    ensures Named("-steam", key) <==> key == "steam"
    ensures Named("-console", key) <==> key == "console"
    ensures Named("+sys_ticrate", key) <==> key == "sys_ticrate"
  {
    assert Named("-steam", key) ==> key == "-steam"[1..];
    assert Named("-console", key) ==> key == "-console"[1..];
    assert Named("+sys_ticrate", key) ==> key == "+sys_ticrate"[1..];
    assert "-steam"[1..] == "steam" && "-console"[1..] == "console" && "+sys_ticrate"[1..] == "sys_ticrate";
    assert "-steam" == "-" + "steam" && "-console" == "-" + "console" && "+sys_ticrate" == "+" + "sys_ticrate";
  }

  lemma FixedPushed()
    ensures Pushed("-steam", "") == STEAM && Pushed("-console", "") == CONSOLE && Pushed("+sys_ticrate", "0") == TICRATE
  {
    assert Trim("-steam") == "-steam" && Trim("-console") == "-console" && Trim("+sys_ticrate") == "+sys_ticrate";
    assert Trim("") == "" && Trim("0") == "0";
  }

  // ---- process on well-formed text ----------------------------------------

  // Well-formed, and separated for the names that are looked up.
  ghost predicate Good(ps: seq<Arg>, looked: seq<string>) {
    Valid(ps) && forall name :: name in looked ==> SeparatedArgs(ps, name)
  }

  predicate Known(looked: seq<string>) {
    forall name :: name in looked ==> name in NAMES
  }

  lemma LookedKnown(ps: seq<Arg>, windows: bool)
    ensures Known(Looked(ps, windows))
  {
    assert NAMES[0] == "steam" && NAMES[1] == "console" && NAMES[2] == "targetfps";
    assert NAMES[3] == "pingboost" && NAMES[4] == "sys_ticrate" && NAMES[5] == "condebug";
  }

  lemma GoodAppend(ps: seq<Arg>, qs: seq<Arg>, looked: seq<string>)
    requires Good(ps, looked) && Good(qs, looked)
    ensures Good(ps + qs, looked)
  {
    forall name | name in looked ensures SeparatedArgs(ps + qs, name) {
      assert SeparatedArgs(ps, name) && SeparatedArgs(qs, name);
    }
  }

  lemma GoodKeep(ps: seq<Arg>, names: seq<string>, looked: seq<string>)
    requires Good(ps, looked)
    ensures Good(KeepAll(ps, names), looked)
  {
    KeepAllFacts(ps, names);
    forall name | name in looked ensures SeparatedArgs(KeepAll(ps, names), name) {
      assert SeparatedArgs(ps, name);
    }
  }

  lemma GoodFixed(looked: seq<string>)
    requires Known(looked)
    ensures Good([STEAM], looked) && Good([CONSOLE], looked) && Good([TICRATE], looked)
  {
    forall name | name in looked
      ensures SeparatedArgs([STEAM], name) && SeparatedArgs([CONSOLE], name) && SeparatedArgs([TICRATE], name)
    {
      FixedArgs(name);
    }
    FixedArgs("steam");
  }

  // Filtering once more around arguments that stay.
  lemma KeepAround(pre: seq<Arg>, ps: seq<Arg>, names: seq<string>, post: seq<Arg>, name: string)
    requires Keep(pre, name) == pre && Keep(post, name) == post
    ensures Keep(pre + KeepAll(ps, names) + post, name) == pre + KeepAll(ps, names + [name]) + post
  {
    KeepAppend(pre + KeepAll(ps, names), post, name);
    KeepAppend(pre, KeepAll(ps, names), name);
    KeepAllOne(KeepAll(ps, names), name);
    KeepAllTwice(ps, names, [name]);
  }

  lemma KeepFixed(name: string)
    ensures Keep([STEAM], name) == if name == "steam" then [] else [STEAM]
    ensures Keep([CONSOLE], name) == if name == "console" then [] else [CONSOLE]
    ensures Keep([TICRATE], name) == if name == "sys_ticrate" then [] else [TICRATE]
  {
    FixedNames(name);
    SingleArg(STEAM);
    SingleArg(CONSOLE);
    SingleArg(TICRATE);
  }

  // The arguments that Steam and Console put in front.
  function Front(windows: bool): seq<Arg> {
    (if windows then [CONSOLE] else []) + [STEAM]
  }

  function FrontNames(windows: bool): seq<string> {
    ["steam"] + (if windows then ["console"] else [])
  }

  lemma SteamStage(ps: seq<Arg>, looked: seq<string>)
    requires Good(ps, looked) && Known(looked) && "steam" in looked
    ensures Text.PushFront(Render(ps), "-steam", "") == Render([STEAM] + KeepAll(ps, ["steam"]))
    ensures Good([STEAM] + KeepAll(ps, ["steam"]), looked)
  {
    FixedPushed();
    FixedNames("steam");
    FixedArgs("steam");
    GoodFixed(looked);
    GoodKeep(ps, ["steam"], looked);
    GoodAppend([STEAM], KeepAll(ps, ["steam"]), looked);
    KeepAllOne(ps, "steam");
    PushRender(ps, "steam", "-steam", "");
  }

  lemma ConsoleStage(ps: seq<Arg>, looked: seq<string>)
    requires Good([STEAM] + KeepAll(ps, ["steam"]), looked) && Good(ps, looked) && Known(looked) && "console" in looked
    ensures Text.PushFront(Render([STEAM] + KeepAll(ps, ["steam"])), "-console", "") ==
            Render([CONSOLE] + [STEAM] + KeepAll(ps, ["steam", "console"]))
    ensures Good([CONSOLE] + [STEAM] + KeepAll(ps, ["steam", "console"]), looked)
  {
    var qs := [STEAM] + KeepAll(ps, ["steam"]);
    FixedPushed();
    FixedNames("console");
    FixedArgs("console");
    PushRender(qs, "console", "-console", "");
    KeepConsole(ps);
    GoodKeep(ps, ["steam", "console"], looked);
    GoodFixed(looked);
    GoodAppend([CONSOLE], [STEAM], looked);
    GoodAppend([CONSOLE] + [STEAM], KeepAll(ps, ["steam", "console"]), looked);
  }

  lemma KeepConsole(ps: seq<Arg>)
    ensures [CONSOLE] + Keep([STEAM] + KeepAll(ps, ["steam"]), "console") ==
            [CONSOLE] + [STEAM] + KeepAll(ps, ["steam", "console"])
  {
    var kept := KeepAll(ps, ["steam"]);
    KeepFixed("console");
    KeepAppend([STEAM], kept, "console");
    KeepAllOne(kept, "console");
    KeepAllTwice(ps, ["steam"], ["console"]);
    assert ["steam"] + ["console"] == ["steam", "console"];
  }

  lemma FrontStage(ps: seq<Arg>, windows: bool, looked: seq<string>)
    requires Good(ps, looked) && Known(looked) && "steam" in looked && (windows ==> "console" in looked)
    ensures Apply(Console, windows, Apply(Steam, windows, Render(ps))) ==
            Render(Front(windows) + KeepAll(ps, FrontNames(windows)))
    ensures Good(Front(windows) + KeepAll(ps, FrontNames(windows)), looked)
  {
    SteamStage(ps, looked);
    if windows {
      ConsoleStage(ps, looked);
      assert ["steam"] + ["console"] == ["steam", "console"];
    } else {
      assert [] + [STEAM] == [STEAM] && ["steam"] + [] == ["steam"];
    }
  }

  lemma FrontKeys(windows: bool, name: string)
    ensures name !in FrontNames(windows) ==> Keep(Front(windows), name) == Front(windows)
    ensures name !in FrontNames(windows) ==> !HasKey(Front(windows), name)
  {
    KeepFixed(name);
    if windows {
      KeepAppend([CONSOLE], [STEAM], name);
    } else {
      assert [] + [STEAM] == [STEAM];
    }
    if name !in FrontNames(windows) {
      KeepFacts(Front(windows), name);
      assert "steam" in FrontNames(windows);
      assert windows ==> FrontNames(windows)[1] == "console";
    }
  }

  // Removing one more name behind the arguments in front.
  lemma RemoveStage(ps: seq<Arg>, windows: bool, names: seq<string>, post: seq<Arg>, name: string, looked: seq<string>)
    requires Good(Front(windows) + KeepAll(ps, names) + post, looked) && Known(looked)
    requires name in looked && name !in FrontNames(windows) && Keep(post, name) == post
    ensures Text.RemoveAll(Render(Front(windows) + KeepAll(ps, names) + post), name) ==
            Render(Front(windows) + KeepAll(ps, names + [name]) + post)
    ensures Good(Front(windows) + KeepAll(ps, names + [name]) + post, looked)
  {
    var qs := Front(windows) + KeepAll(ps, names) + post;
    FixedArgs(name);
    RemoveRender(qs, name);
    FrontKeys(windows, name);
    KeepAround(Front(windows), ps, names, post, name);
    GoodKeep(qs, [name], looked);
    KeepAllOne(qs, name);
  }

  lemma TargetFound(ps: seq<Arg>, windows: bool, looked: seq<string>)
    requires Good(Front(windows) + KeepAll(ps, FrontNames(windows)), looked) && "targetfps" in looked
    ensures Text.Contains(Render(Front(windows) + KeepAll(ps, FrontNames(windows))), "targetfps") <==>
            HasKey(ps, "targetfps")
  {
    var pre, mid := Front(windows), KeepAll(ps, FrontNames(windows));
    FrontKeys(windows, "targetfps");
    FixedArgs(NAMES[2]);
    LookupRender(pre + mid, "targetfps", "targetfps");
    LookupAppend(pre, mid, "targetfps");
    KeepAllOther(ps, FrontNames(windows), "targetfps");
  }

  lemma TargetStage(ps: seq<Arg>, windows: bool, looked: seq<string>)
    requires Good(Front(windows) + KeepAll(ps, FrontNames(windows)), looked) && Known(looked) && "targetfps" in looked
    requires HasKey(ps, "targetfps") ==> "pingboost" in looked && "sys_ticrate" in looked
    ensures var names := FrontNames(windows) + (if HasKey(ps, "targetfps") then ["pingboost", "sys_ticrate"] else []);
            var post := if HasKey(ps, "targetfps") then [TICRATE] else [];
            Apply(TargetFps, windows, Render(Front(windows) + KeepAll(ps, FrontNames(windows)))) ==
            Render(Front(windows) + KeepAll(ps, names) + post) &&
            Good(Front(windows) + KeepAll(ps, names) + post, looked)
  {
    var names := FrontNames(windows);
    TargetFound(ps, windows, looked);
    NothingBehind(Front(windows) + KeepAll(ps, names));
    if HasKey(ps, "targetfps") {
      RemoveStage(ps, windows, names, [], "pingboost", looked);
      NothingBehind(Front(windows) + KeepAll(ps, names + ["pingboost"]));
      TicrateStage(ps, windows, names + ["pingboost"], looked);
      assert names + ["pingboost"] + ["sys_ticrate"] == names + ["pingboost", "sys_ticrate"];
    } else {
      assert names + [] == names;
    }
  }

  lemma NothingBehind(ps: seq<Arg>)
    ensures ps + [] == ps
  {}

  lemma TicrateStage(ps: seq<Arg>, windows: bool, names: seq<string>, looked: seq<string>)
    requires Good(Front(windows) + KeepAll(ps, names), looked) && Known(looked) && "sys_ticrate" in looked
    ensures var kept := Front(windows) + KeepAll(ps, names + ["sys_ticrate"]);
            var text := Render(Front(windows) + KeepAll(ps, names));
            Text.PushBack(text, "+sys_ticrate", "0") == Render(kept + [TICRATE]) &&
            Good(kept + [TICRATE], looked)
  {
    var rs := Front(windows) + KeepAll(ps, names);
    FixedPushed();
    FixedNames("sys_ticrate");
    FixedArgs("sys_ticrate");
    PushRender(rs, "sys_ticrate", "+sys_ticrate", "0");
    FrontKeys(windows, "sys_ticrate");
    assert rs + [] == rs;
    KeepAround(Front(windows), ps, names, [], "sys_ticrate");
    assert Keep(rs, "sys_ticrate") + [] == Keep(rs, "sys_ticrate");
    GoodKeep(rs, ["sys_ticrate"], looked);
    KeepAllOne(rs, "sys_ticrate");
    GoodFixed(looked);
    GoodAppend(Keep(rs, "sys_ticrate"), [TICRATE], looked);
    var kept := Front(windows) + KeepAll(ps, names + ["sys_ticrate"]);
    assert kept + [] == kept;
  }

  lemma ApplyOrder(windows: bool, text: string)
    ensures ApplyAll(HANDLERS, windows, text) ==
            Apply(ConDebug, windows, Apply(TargetFps, windows, Apply(Console, windows, Apply(Steam, windows, text))))
  {
    var h: seq<Handler> := [Steam, Console, TargetFps, ConDebug];
    assert HANDLERS[..7] == h + [Reader, Reader, Reader];
    assert HANDLERS[..7][..6] == h + [Reader, Reader];
    assert HANDLERS[..7][..6][..5] == h + [Reader];
    assert HANDLERS[..7][..6][..5][..4] == h;
    ApplyReaders(h, windows, text);
    assert h[..3] == [Steam, Console, TargetFps] && h[..3][..2] == [Steam, Console] && h[..3][..2][..1] == [Steam];
    assert ApplyAll([Steam], windows, text) == Apply(Steam, windows, text) by { assert [Steam][..0] == []; }
    assert ApplyAll([Steam, Console], windows, text) == Apply(Console, windows, Apply(Steam, windows, text));
  }

  lemma ApplyReaders(h: seq<Handler>, windows: bool, text: string)
    ensures ApplyAll(h + [Reader], windows, text) == ApplyAll(h, windows, text)
    ensures ApplyAll(h + [Reader, Reader], windows, text) == ApplyAll(h, windows, text)
    ensures ApplyAll(h + [Reader, Reader, Reader], windows, text) == ApplyAll(h, windows, text)
    ensures ApplyAll(h + [Reader, Reader, Reader, Reader], windows, text) == ApplyAll(h, windows, text)
  {
    assert (h + [Reader])[..|h|] == h;
    assert (h + [Reader, Reader])[..|h| + 1] == h + [Reader];
    assert (h + [Reader, Reader, Reader])[..|h| + 2] == h + [Reader, Reader];
    assert (h + [Reader, Reader, Reader, Reader])[..|h| + 3] == h + [Reader, Reader, Reader];
  }

  // process, as one edit of the list of arguments.
  lemma ProcessRender(ps: seq<Arg>, windows: bool)
    requires Good(ps, Looked(ps, windows))
    ensures ApplyAll(HANDLERS, windows, Render(ps)) == Render(Processed(ps, windows))
    ensures Good(Processed(ps, windows), Looked(ps, windows))
  {
    var looked := Looked(ps, windows);
    LookedKnown(ps, windows);
    ApplyOrder(windows, Render(ps));
    FrontStage(ps, windows, looked);
    TargetStage(ps, windows, looked);
    ConDebugStage(ps, windows, looked);
  }

  lemma ConDebugStage(ps: seq<Arg>, windows: bool, looked: seq<string>)
    requires Known(looked) && "condebug" in looked
    requires var names := FrontNames(windows) + (if HasKey(ps, "targetfps") then ["pingboost", "sys_ticrate"] else []);
             var post := if HasKey(ps, "targetfps") then [TICRATE] else [];
             Good(Front(windows) + KeepAll(ps, names) + post, looked)
    ensures var names := FrontNames(windows) + (if HasKey(ps, "targetfps") then ["pingboost", "sys_ticrate"] else []);
            var post := if HasKey(ps, "targetfps") then [TICRATE] else [];
            var text := Render(Front(windows) + KeepAll(ps, names) + post);
            Apply(ConDebug, windows, text) == Render(Processed(ps, windows)) &&
            Good(Processed(ps, windows), looked)
  {
    var names := FrontNames(windows) + (if HasKey(ps, "targetfps") then ["pingboost", "sys_ticrate"] else []);
    var post := if HasKey(ps, "targetfps") then [TICRATE] else [];
    KeepFixed("condebug");
    RemoveStage(ps, windows, names, post, "condebug", looked);
    assert Rewritten(ps, windows) == names + ["condebug"];
  }

  lemma ProcessRenders(windows: bool)
    ensures forall ps | Good(ps, Looked(ps, windows)) ::
              ApplyAll(HANDLERS, windows, Render(ps)) == Render(Processed(ps, windows))
  {
    forall ps | Good(ps, Looked(ps, windows))
      ensures ApplyAll(HANDLERS, windows, Render(ps)) == Render(Processed(ps, windows))
    {
      ProcessRender(ps, windows);
    }
  }

  // ---- the laws of process ------------------------------------------------

  lemma ProcessedHas(ps: seq<Arg>, windows: bool, name: string)
    ensures name !in Rewritten(ps, windows) ==>
              Lookup(Processed(ps, windows), name) == Lookup(ps, name) &&
              Count(Processed(ps, windows), name) == Count(ps, name) &&
              (HasKey(Processed(ps, windows), name) <==> HasKey(ps, name))
  {
    if name !in Rewritten(ps, windows) {
      var pre, mid := Front(windows), KeepAll(ps, Rewritten(ps, windows));
      var post := if HasKey(ps, "targetfps") then [TICRATE] else [];
      assert forall n :: n in FrontNames(windows) ==> n in Rewritten(ps, windows);
      FrontKeys(windows, name);
      KeepAllOther(ps, Rewritten(ps, windows), name);
      LookupAppend(pre, mid, name);
      LookupAppend(pre + mid, post, name);
      LookupAbsent(pre, name);
      LookupAbsent(mid, name);
      SingleArg(TICRATE);
      FixedNames(name);
    }
  }

  // Every argument process does not rewrite stays, in order, with its option.
  lemma ProcessKeepsOthers(ps: seq<Arg>, windows: bool)
    ensures KeepAll(Processed(ps, windows), Rewritten(ps, windows)) == KeepAll(ps, Rewritten(ps, windows))
  {
    var names := Rewritten(ps, windows);
    var pre, mid := Front(windows), KeepAll(ps, names);
    var post := if HasKey(ps, "targetfps") then [TICRATE] else [];
    KeepAllAppend(pre + mid, post, names);
    KeepAllAppend(pre, mid, names);
    KeepAllSame(ps, names);
    FixedGone(ps, windows);
  }

  lemma FixedGone(ps: seq<Arg>, windows: bool)
    ensures KeepAll(Front(windows), Rewritten(ps, windows)) == []
    ensures HasKey(ps, "targetfps") ==> KeepAll([TICRATE], Rewritten(ps, windows)) == []
  {
    var names := Rewritten(ps, windows);
    FixedNames("steam");
    FixedNames("console");
    FixedNames("sys_ticrate");
    assert Named(STEAM.key, names[0]);
    assert windows ==> Named(CONSOLE.key, names[1]);
    var k := if windows then 3 else 2;
    assert HasKey(ps, "targetfps") ==> Named(TICRATE.key, names[k]);
    KeepAllAppend([CONSOLE], [STEAM], names);
    assert [] + [STEAM] == [STEAM];
    assert [STEAM][1..] == [] && [CONSOLE][1..] == [] && [TICRATE][1..] == [];
  }

  lemma ProcessedIdempotent(ps: seq<Arg>, windows: bool)
    ensures Processed(Processed(ps, windows), windows) == Processed(ps, windows)
  {
    assert "targetfps" !in Rewritten(ps, windows);
    ProcessedHas(ps, windows, "targetfps");
    ProcessKeepsOthers(ps, windows);
  }

  lemma ProcessIdempotent(ps: seq<Arg>, windows: bool)
    requires Good(ps, Looked(ps, windows))
    ensures var once := ApplyAll(HANDLERS, windows, Render(ps));
            ApplyAll(HANDLERS, windows, once) == once
  {
    ProcessRender(ps, windows);
    assert "targetfps" !in Rewritten(ps, windows);
    ProcessedHas(ps, windows, "targetfps");
    assert Looked(Processed(ps, windows), windows) == Looked(ps, windows);
    ProcessRender(Processed(ps, windows), windows);
    ProcessedIdempotent(ps, windows);
  }

  // What the program reads from the processed text.
  lemma ProcessLookups(ps: seq<Arg>, windows: bool, name: string, query: string)
    requires Good(ps, Looked(ps, windows)) && IsName(name) && IsQuery(query, name)
    requires SeparatedArgs(Processed(ps, windows), name) && SeparatedArgs(ps, name)
    ensures var text, after := Render(ps), ApplyAll(HANDLERS, windows, Render(ps));
            var found, option := Text.Contains(after, query), Text.GetOption(after, query);
            if name == "steam" || (windows && name == "console") then found && option == None
            else if name == "condebug" then !found
            else if HasKey(ps, "targetfps") && name == "pingboost" then !found
            else if HasKey(ps, "targetfps") && name == "sys_ticrate" then found && option == Some("0")
            else found == Text.Contains(text, query) && option == Text.GetOption(text, query)
  {
    ProcessRender(ps, windows);
    LookupRender(ps, name, query);
    LookupRender(Processed(ps, windows), name, query);
    ProcessedHas(ps, windows, name);
    RewrittenNames(ps, windows, name);
    assert name in FrontNames(windows) <==> name == "steam" || (windows && name == "console");
    if name in Rewritten(ps, windows) {
      ProcessedFixed(ps, windows, name);
    }
  }

  // Where the new arguments stand.
  lemma ProcessOrder(ps: seq<Arg>, windows: bool)
    requires Good(ps, Looked(ps, windows))
    ensures var words := Split(ApplyAll(HANDLERS, windows, Render(ps)));
            (if windows then ["-console", "-steam"] else ["-steam"]) <= words &&
            (HasKey(ps, "targetfps") ==> |words| >= 2 && words[|words| - 2..] == ["+sys_ticrate", "0"])
  {
    var pre, mid := Front(windows), KeepAll(ps, Rewritten(ps, windows));
    var post := if HasKey(ps, "targetfps") then [TICRATE] else [];
    ProcessRender(ps, windows);
    TokensShape(Processed(ps, windows));
    SplitJoin(Tokens(Processed(ps, windows)));
    TokensAppend(pre + mid, post);
    TokensAppend(pre, mid);
    FixedTokens(windows);
  }

  lemma FixedTokens(windows: bool)
    ensures Tokens(Front(windows)) == if windows then ["-console", "-steam"] else ["-steam"]
    ensures Tokens([TICRATE]) == ["+sys_ticrate", "0"]
  {
    assert [STEAM][1..] == [] && [TICRATE][1..] == [] && [CONSOLE][1..] == [];
    assert STEAM.Tokens() == ["-steam"] && CONSOLE.Tokens() == ["-console"];
    assert TICRATE.Tokens() == ["+sys_ticrate", "0"];
    TokensAppend([CONSOLE], [STEAM]);
    assert [] + [STEAM] == [STEAM];
  }

  lemma FrontLookup(windows: bool, name: string)
    ensures HasKey(Front(windows), name) <==> name in FrontNames(windows)
    ensures Lookup(Front(windows), name) == None
  {
    FixedNames(name);
    SingleArg(STEAM);
    SingleArg(CONSOLE);
    LookupAppend([CONSOLE], [STEAM], name);
    assert [] + [STEAM] == [STEAM];
    assert name in FrontNames(windows) <==> name == "steam" || (windows && name == "console");
  }

  lemma RewrittenNames(ps: seq<Arg>, windows: bool, name: string)
    ensures name in Rewritten(ps, windows) <==>
            name in FrontNames(windows) || name == "condebug" ||
            (HasKey(ps, "targetfps") && (name == "pingboost" || name == "sys_ticrate"))
  {
    var tail := if HasKey(ps, "targetfps") then ["pingboost", "sys_ticrate"] else [];
    assert Rewritten(ps, windows) == FrontNames(windows) + tail + ["condebug"];
    assert name in tail <==> HasKey(ps, "targetfps") && (name == "pingboost" || name == "sys_ticrate");
  }

  lemma ProcessedFixed(ps: seq<Arg>, windows: bool, name: string)
    requires name in Rewritten(ps, windows)
    ensures HasKey(Processed(ps, windows), name) <==> name in FrontNames(windows) || name == "sys_ticrate"
    ensures Lookup(Processed(ps, windows), name) == if name == "sys_ticrate" then Some("0") else None
  {
    var pre, mid := Front(windows), KeepAll(ps, Rewritten(ps, windows));
    var post := if HasKey(ps, "targetfps") then [TICRATE] else [];
    RewrittenNames(ps, windows, name);
    KeepAllFacts(ps, Rewritten(ps, windows));
    LookupAbsent(mid, name);
    FrontLookup(windows, name);
    FixedNames(name);
    SingleArg(TICRATE);
    assert !HasKey(mid, name);
    LookupAppend(pre, mid, name);
    LookupAppend(pre + mid, post, name);
  }
}
