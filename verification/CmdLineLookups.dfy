// What get_argument_option reads, exactly, on every canonical text.
module CmdLineLookups {
  import opened Wrappers
  import opened Strings
  import opened CmdLineText
  import opened CmdLineTokens
  import opened CmdLinePairs
  import opened CmdLineMentions

  // The index of the last token that mentions the name, or -1.
  function LastMention(toks: seq<string>, name: string): (i: int)
    ensures -1 <= i < |toks|
  {
    if toks == [] then -1
    else
      var j := LastMention(toks[1..], name);
      if j != -1 then j + 1 else if FindName(toks[0], name) != -1 then 0 else -1
  }

  lemma {:induction false} LastMentionLast(toks: seq<string>, name: string)
    requires IsName(name)
    ensures var i := LastMention(toks, name);
            (i != -1 ==> Mentions(toks[i], name)) && forall j :: i < j < |toks| ==> !Mentions(toks[j], name)
  {
    if toks != [] {
      LastMentionLast(toks[1..], name);
      MentionsFound(toks[0], name);
      assert forall j :: 0 < j < |toks| ==> toks[j] == toks[1..][j - 1];
    }
  }

  // What is read at token i, which mentions the name: what is left of the token
  // behind the mention, unless the token ends there. Asked with a prefix, the
  // read starts one character further on.
  function ReadAt(toks: seq<string>, i: nat, name: string, arg: string): Option<string>
    requires i < |toks|
  {
    var e := FindName(toks[i], name) + |arg| + 1;
    if 0 <= e < |toks[i]| then InnerOption(toks[i][e..]) else OptionOf(toks, i)
  }

  // The option that is read, for every query on every canonical text.
  function Read(toks: seq<string>, name: string, arg: string): Option<string> {
    var i := LastMention(toks, name);
    if i == -1 then None else ReadAt(toks, i, name, arg)
  }

  // A scan that starts inside token i.
  lemma ScanPart(toks: seq<string>, i: nat, e: nat)
    requires AllTokens(toks) && i < |toks| && e < |toks[i]|
    ensures ScanFrom(Join(toks), |Before(toks, i)| + e) == InnerOption(toks[i][e..])
  {
    var pre, t, post := Before(toks, i), toks[i], After(toks, i);
    JoinFocus(toks, i);
    assert t == t[..e] + t[e..];
    Assoc(pre, t[..e], t[e..]);
    Assoc(pre + t[..e], t[e..], post);
    ScanRest(pre + t[..e], t[e..], post);
  }

  lemma ScanMention(toks: seq<string>, i: nat, name: string, arg: string, s: nat)
    requires AllTokens(toks) && i < |toks| && IsQuery(arg, name)
    requires FindName(toks[i], name) != -1 && FindName(toks[i], name) + |name| + 1 <= |toks[i]|
    requires s == |Before(toks, i)| + FindName(toks[i], name) + |arg| + 1
    ensures ScanFrom(Join(toks), s) == ReadAt(toks, i, name, arg)
  {
    var e := FindName(toks[i], name) + |arg| + 1;
    if e < |toks[i]| {
      ScanPart(toks, i, e);
    } else {
      ScanNext(toks, i, s);
    }
  }

  lemma GetOptionAtMention(toks: seq<string>, i: nat, name: string, arg: string)
    requires AllTokens(toks) && IsName(name) && IsQuery(arg, name) && i < |toks| && Mentions(toks[i], name)
    requires FindPos(Join(toks), name) == |Before(toks, i)| + FindName(toks[i], name)
    ensures GetOption(Join(toks), arg) == ReadAt(toks, i, name, arg)
  {
    var pos := |Before(toks, i)| + FindName(toks[i], name);
    MentionsFind(toks[i], name);
    ScanMention(toks, i, name, arg, pos + |arg| + 1);
    GetOptionAt(Join(toks), name, arg, pos);
  }

  lemma GetOptionExactly(toks: seq<string>, name: string, arg: string)
    requires AllTokens(toks) && IsName(name) && IsQuery(arg, name)
    ensures GetOption(Join(toks), arg) == Read(toks, name, arg)
  {
    var i := LastMention(toks, name);
    LastMentionLast(toks, name);
    if i == -1 {
      ContainsExactly(toks, name);
      GetOptionFrom(Join(toks), name, arg);
    } else {
      FindLastMention(toks, i, toks[i], toks[i + 1..], name);
      GetOptionAtMention(toks, i, name, arg);
    }
  }

  // ---- when that is right -------------------------------------------------

  // Where the last mention is the name itself, the read is the lookup.
  lemma ReadNamed(toks: seq<string>, name: string, arg: string)
    requires IsName(name) && IsQuery(arg, name)
    requires LastMention(toks, name) == -1 || Named(toks[LastMention(toks, name)], name)
    ensures Read(toks, name, arg) == LookupTokens(toks, name)
  {
    var i, j := LastMention(toks, name), LastNamed(toks, name);
    LastMentionLast(toks, name);
    LastNamedLast(toks, name);
    UnmentionedUnnamed(toks, name);
    assert i == j;
    if i != -1 {
      FindToken(toks[i], name);
    }
  }

  // On every list of arguments, the option is right exactly when nothing
  // mentions the name, or the last token that does is the name itself, or what
  // is read in the midst of another token happens to be right.
  lemma LookupExactly(ps: seq<Arg>, name: string, arg: string)
    requires Valid(ps) && IsName(name) && IsQuery(arg, name)
    ensures var toks := Tokens(ps);
            var i := LastMention(toks, name);
            GetOption(Render(ps), arg) == Lookup(ps, name) <==>
            i == -1 || Named(toks[i], name) || ReadAt(toks, i, name, arg) == Lookup(ps, name)
  {
    var toks := Tokens(ps);
    var i := LastMention(toks, name);
    TokensShape(ps);
    GetOptionExactly(toks, name, arg);
    LookupPairs(ps, name);
    if i == -1 || Named(toks[i], name) {
      ReadNamed(toks, name, arg);
    }
  }

  // A longer name is found for the shorter one, with its rest for the option.
  lemma LongerFound(a: seq<string>, key: string, b: seq<string>, name: string, arg: string)
    requires IsLonger(a, key, b, name) && IsQuery(arg, name)
    ensures GetOption(Join(a + [key] + b), arg) ==
            if |arg| + 1 < |key| then InnerOption(key[|arg| + 1..]) else OptionOf(a + [key] + b, |a|)
  {
    LongerLast(a, key, b, name);
    GetOptionExactly(a + [key] + b, name, arg);
  }

  lemma LongerLast(a: seq<string>, key: string, b: seq<string>, name: string)
    requires IsLonger(a, key, b, name)
    ensures var toks := a + [key] + b;
            AllTokens(toks) && LastMention(toks, name) == |a| && toks[|a|] == key
  {
    var toks := a + [key] + b;
    assert toks[|a|] == key && forall j :: |a| < j < |toks| ==> toks[j] == b[j - |a| - 1];
    LastMentionLast(toks, name);
  }

  // So +map is found in +mapcycle, and removing it glues two other options.
  lemma MapInMapcycle()
    ensures var text := Join(["-game", "cstrike"] + ["+mapcycle"] + ["list.txt"]);
            GetOption(text, "map") == Some("cycle") && GetOption(text, "+map") == Some("ycle") &&
            RemoveAll(text, "map") == "-game cstrikelist.txt"
  {
    MapLonger();
    assert "+mapcycle"[5..] == "ycle" && "+map" == "+" + "map";
    LongerFound(["-game", "cstrike"], "+mapcycle", ["list.txt"], "map", "map");
    LongerFound(["-game", "cstrike"], "+mapcycle", ["list.txt"], "map", "+map");
    LongerGlues(["-game", "cstrike"], "+mapcycle", ["list.txt"], "map");
    MapGlued();
  }
}
