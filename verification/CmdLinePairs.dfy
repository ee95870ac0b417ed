// The meaning of a command line: a list of arguments, each a +name or -name
// with at most one option. The string edits refine edits of that list.
module CmdLinePairs {
  import opened Wrappers
  import opened Strings
  import opened CmdLineText
  import opened CmdLineTokens

  datatype Arg = Arg(key: string, option: Option<string>) {
    predicate Valid() {
      IsToken(key) && IsArg(key) && (option.Some? ==> IsToken(option.value) && !IsArg(option.value))
    }

    // Only the key may mention the name, and only by being +name or -name.
    ghost predicate Separated(name: string) {
      (Mentions(key, name) ==> Named(key, name)) &&
      (option.Some? ==> !Mentions(option.value, name))
    }

    function Tokens(): seq<string> {
      [key] + (if option.Some? then [option.value] else [])
    }
  }

  ghost predicate Valid(ps: seq<Arg>) {
    forall i :: 0 <= i < |ps| ==> ps[i].Valid()
  }

  ghost predicate SeparatedArgs(ps: seq<Arg>, name: string) {
    forall i :: 0 <= i < |ps| ==> ps[i].Separated(name)
  }

  function Tokens(ps: seq<Arg>): seq<string> {
    if ps == [] then [] else ps[0].Tokens() + Tokens(ps[1..])
  }

  // Canonical, well-formed text.
  function Render(ps: seq<Arg>): string {
    Join(Tokens(ps))
  }

  // The arguments that do not have the name, in order.
  function Keep(ps: seq<Arg>, name: string): seq<Arg> {
    if ps == [] then []
    else if Named(ps[0].key, name) then Keep(ps[1..], name)
    else [ps[0]] + Keep(ps[1..], name)
  }

  predicate HasKey(ps: seq<Arg>, name: string) {
    exists i :: 0 <= i < |ps| && Named(ps[i].key, name)
  }

  function Count(ps: seq<Arg>, name: string): nat {
    if ps == [] then 0 else (if Named(ps[0].key, name) then 1 else 0) + Count(ps[1..], name)
  }

  // The option of the last argument with the name.
  function Lookup(ps: seq<Arg>, name: string): Option<string> {
    if ps == [] then None
    else if HasKey(ps[1..], name) || !Named(ps[0].key, name) then Lookup(ps[1..], name)
    else ps[0].option
  }

  // ---- tokens of a list of arguments --------------------------------------

  lemma {:induction false} TokensShape(ps: seq<Arg>)
    requires Valid(ps)
    ensures AllTokens(Tokens(ps))
    ensures Tokens(ps) == [] || IsArg(Tokens(ps)[0])
  {
    if ps != [] {
      TokensShape(ps[1..]);
    }
  }

  lemma {:induction false} TokensAppend(ps: seq<Arg>, qs: seq<Arg>)
    ensures Tokens(ps + qs) == Tokens(ps) + Tokens(qs)
  {
    if ps == [] {
      assert ps + qs == qs;
    } else {
      assert (ps + qs)[1..] == ps[1..] + qs;
      TokensAppend(ps[1..], qs);
    }
  }

  lemma {:induction false} TokenOf(ps: seq<Arg>, k: nat) returns (i: nat)
    requires k < |Tokens(ps)|
    ensures i < |ps| && Tokens(ps)[k] in ps[i].Tokens()
  {
    if k < |ps[0].Tokens()| {
      i := 0;
    } else {
      i := TokenOf(ps[1..], k - |ps[0].Tokens()|);
      i := i + 1;
    }
  }

  lemma {:induction false} TokenIn(ps: seq<Arg>, i: nat, t: string) returns (k: nat)
    requires i < |ps| && t in ps[i].Tokens()
    ensures k < |Tokens(ps)| && Tokens(ps)[k] == t
  {
    if i == 0 {
      k := if t == ps[0].key then 0 else 1;
    } else {
      k := TokenIn(ps[1..], i - 1, t);
      k := k + |ps[0].Tokens()|;
    }
  }

  lemma SeparatedTokens(ps: seq<Arg>, name: string)
    requires Valid(ps)
    ensures SeparatedArgs(ps, name) <==> Separated(Tokens(ps), name)
  {
    if SeparatedArgs(ps, name) {
      forall k | 0 <= k < |Tokens(ps)| && Mentions(Tokens(ps)[k], name) ensures Named(Tokens(ps)[k], name) {
        var i := TokenOf(ps, k);
        assert ps[i].Separated(name);
      }
    }
    if Separated(Tokens(ps), name) {
      forall i | 0 <= i < |ps| ensures ps[i].Separated(name) {
        forall t | t in ps[i].Tokens() && Mentions(t, name) ensures Named(t, name) {
          var k := TokenIn(ps, i, t);
        }
        assert ps[i].key in ps[i].Tokens();
        assert ps[i].option.Some? ==> ps[i].option.value in ps[i].Tokens();
      }
    }
  }

  // ---- Keep ---------------------------------------------------------------

  lemma {:induction false} KeepFacts(ps: seq<Arg>, name: string)
    ensures forall i :: 0 <= i < |Keep(ps, name)| ==> Keep(ps, name)[i] in ps
    ensures !HasKey(Keep(ps, name), name)
    ensures !HasKey(ps, name) ==> Keep(ps, name) == ps
  {
    if ps != [] {
      KeepFacts(ps[1..], name);
      HasKeyCons(ps, name);
      if !Named(ps[0].key, name) {
        assert Keep(ps, name) == [ps[0]] + Keep(ps[1..], name) && Keep(ps, name)[1..] == Keep(ps[1..], name);
        HasKeyCons(Keep(ps, name), name);
      }
    }
  }

  lemma {:induction false} KeepAppend(ps: seq<Arg>, qs: seq<Arg>, name: string)
    ensures Keep(ps + qs, name) == Keep(ps, name) + Keep(qs, name)
  {
    if ps == [] {
      assert ps + qs == qs;
    } else {
      assert (ps + qs)[1..] == ps[1..] + qs;
      KeepAppend(ps[1..], qs, name);
    }
  }

  lemma KeepValid(ps: seq<Arg>, name: string)
    requires Valid(ps)
    ensures Valid(Keep(ps, name))
  {
    KeepFacts(ps, name);
  }

  lemma KeepSeparated(ps: seq<Arg>, name: string, other: string)
    requires SeparatedArgs(ps, other)
    ensures SeparatedArgs(Keep(ps, name), other)
  {
    KeepFacts(ps, name);
  }

  // ---- remove -------------------------------------------------------------

  lemma RemainingArg(p: Arg, rest: seq<string>, name: string)
    requires p.Valid() && (Remaining(rest, name) == [] || IsArg(Remaining(rest, name)[0]))
    ensures Remaining(p.Tokens() + rest, name) ==
            if Named(p.key, name) then Remaining(rest, name) else p.Tokens() + Remaining(rest, name)
  {
    if p.option.Some? {
      var more := [p.option.value] + rest;
      assert more[1..] == rest;
      assert !Named(p.option.value, name);
      assert p.Tokens() + rest == [p.key] + more && ([p.key] + more)[1..] == more;
    } else {
      assert ([p.key] + rest)[1..] == rest;
    }
  }

  lemma {:induction false} RemainingTokens(ps: seq<Arg>, name: string)
    requires Valid(ps)
    ensures Remaining(Tokens(ps), name) == Tokens(Keep(ps, name))
  {
    if ps != [] {
      RemainingTokens(ps[1..], name);
      KeepValid(ps[1..], name);
      TokensShape(Keep(ps[1..], name));
      RemainingArg(ps[0], Tokens(ps[1..]), name);
    }
  }

  // remove deletes exactly the arguments with the name, each with its option.
  lemma RemoveRender(ps: seq<Arg>, name: string)
    requires Valid(ps) && IsName(name) && SeparatedArgs(ps, name)
    ensures RemoveAll(Render(ps), name) == Render(Keep(ps, name))
    ensures Valid(Keep(ps, name)) && SeparatedArgs(Keep(ps, name), name)
  {
    TokensShape(ps);
    SeparatedTokens(ps, name);
    RemoveJoin(Tokens(ps), name);
    RemainingTokens(ps, name);
    KeepValid(ps, name);
    KeepSeparated(ps, name, name);
  }

  lemma RemoveRenders(name: string)
    requires IsName(name)
    ensures forall ps | Valid(ps) && SeparatedArgs(ps, name) :: RemoveAll(Render(ps), name) == Render(Keep(ps, name))
  {
    forall ps | Valid(ps) && SeparatedArgs(ps, name) ensures RemoveAll(Render(ps), name) == Render(Keep(ps, name)) {
      RemoveRender(ps, name);
    }
  }

  // ---- lookup -------------------------------------------------------------

  function LookupTokens(toks: seq<string>, name: string): Option<string> {
    var i := LastNamed(toks, name);
    if i == -1 then None else OptionOf(toks, i)
  }

  lemma LookupTokensCons(toks: seq<string>, name: string)
    requires toks != []
    ensures LookupTokens(toks, name) ==
            if LastNamed(toks[1..], name) != -1 then LookupTokens(toks[1..], name)
            else if Named(toks[0], name) then OptionOf(toks, 0) else None
  {}

  lemma {:induction false} LookupPairs(ps: seq<Arg>, name: string)
    requires Valid(ps)
    ensures LookupTokens(Tokens(ps), name) == Lookup(ps, name)
    ensures LastNamed(Tokens(ps), name) != -1 <==> HasKey(ps, name)
  {
    if ps != [] {
      var p, rest := ps[0], Tokens(ps[1..]);
      assert p.Valid();
      LookupPairs(ps[1..], name);
      TokensShape(ps[1..]);
      HasKeyCons(ps, name);
      LookupTokensCons(Tokens(ps), name);
      if p.option.Some? {
        var more := [p.option.value] + rest;
        assert Tokens(ps)[1..] == more && more[1..] == rest;
        LookupTokensCons(more, name);
      } else {
        assert Tokens(ps)[1..] == rest;
      }
    }
  }

  lemma HasKeyCons(ps: seq<Arg>, name: string)
    requires ps != []
    ensures HasKey(ps, name) <==> Named(ps[0].key, name) || HasKey(ps[1..], name)
  {
    if HasKey(ps[1..], name) {
      var i :| 0 <= i < |ps[1..]| && Named(ps[1..][i].key, name);
      assert Named(ps[i + 1].key, name);
    }
    if i :| 0 < i < |ps| && Named(ps[i].key, name) {
      assert Named(ps[1..][i - 1].key, name);
    }
  }

  // The queries contains and get_argument_option, with or without a prefix.
  lemma LookupRender(ps: seq<Arg>, name: string, arg: string)
    requires Valid(ps) && IsName(name) && SeparatedArgs(ps, name)
    requires IsQuery(arg, name)
    ensures GetOption(Render(ps), arg) == Lookup(ps, name)
    ensures Contains(Render(ps), arg) <==> HasKey(ps, name)
  {
    TokensShape(ps);
    SeparatedTokens(ps, name);
    GetOptionJoin(Tokens(ps), name, arg);
    LookupPairs(ps, name);
    FindJoin(Tokens(ps), name);
    assert StripPrefix(arg) == name == StripPrefix(name);
  }

  lemma {:induction false} LookupAppend(ps: seq<Arg>, qs: seq<Arg>, name: string)
    ensures HasKey(ps + qs, name) <==> HasKey(ps, name) || HasKey(qs, name)
    ensures Lookup(ps + qs, name) == if HasKey(qs, name) then Lookup(qs, name) else Lookup(ps, name)
    ensures Count(ps + qs, name) == Count(ps, name) + Count(qs, name)
  {
    if ps == [] {
      assert ps + qs == qs;
      LookupAbsent(qs, name);
    } else {
      assert (ps + qs)[1..] == ps[1..] + qs;
      LookupAppend(ps[1..], qs, name);
      HasKeyCons(ps, name);
      HasKeyCons(ps + qs, name);
    }
  }

  lemma {:induction false} LookupAbsent(ps: seq<Arg>, name: string)
    ensures !HasKey(ps, name) ==> Lookup(ps, name) == None
    ensures HasKey(ps, name) <==> Count(ps, name) > 0
  {
    if ps != [] {
      LookupAbsent(ps[1..], name);
      HasKeyCons(ps, name);
    }
  }

  lemma {:induction false} LookupKeep(ps: seq<Arg>, name: string, other: string)
    requires name != other
    ensures Lookup(Keep(ps, name), other) == Lookup(ps, other)
    ensures HasKey(Keep(ps, name), other) <==> HasKey(ps, other)
    ensures Count(Keep(ps, name), other) == Count(ps, other)
  {
    if ps != [] {
      LookupKeep(ps[1..], name, other);
      HasKeyCons(ps, other);
      NamesDiffer(ps[0].key, name, other);
      if !Named(ps[0].key, name) {
        assert Keep(ps, name)[1..] == Keep(ps[1..], name);
        HasKeyCons(Keep(ps, name), other);
      }
    }
  }

  lemma NamesDiffer(key: string, name: string, other: string)
    requires name != other
    ensures !(Named(key, name) && Named(key, other))
  {
    assert Named(key, name) ==> key[1..] == name;
    assert Named(key, other) ==> key[1..] == other;
  }

  // ---- push_front and push_back -------------------------------------------

  // The argument that push_front and push_back store.
  function Pushed(arg: string, option: string): Arg {
    Arg(Trim(arg), if Trim(option) == "" then None else Some(Trim(option)))
  }

  lemma PushRender(ps: seq<Arg>, name: string, arg: string, option: string)
    requires Valid(ps) && IsName(name) && SeparatedArgs(ps, name)
    requires Named(Trim(arg), name) && Pushed(arg, option).Valid()
    ensures PushFront(Render(ps), arg, option) == Render([Pushed(arg, option)] + Keep(ps, name))
    ensures PushBack(Render(ps), arg, option) == Render(Keep(ps, name) + [Pushed(arg, option)])
    ensures Valid([Pushed(arg, option)] + Keep(ps, name)) && Valid(Keep(ps, name) + [Pushed(arg, option)])
  {
    var p, kept := Pushed(arg, option), Keep(ps, name);
    RemoveRender(ps, name);
    assert StripPrefix(p.key) == name;
    assert [p][0] == p && [p][1..] == [];
    assert Tokens([p]) == p.Tokens();
    TokensAppend([p], kept);
    TokensAppend(kept, [p]);
    TokensShape([p] + kept);
    TokensShape(kept + [p]);
    assert Join(p.Tokens()) == if p.option.Some? then p.key + " " + p.option.value else p.key;
    TrimPushed(p.Tokens(), Tokens(kept));
    if p.option.Some? {
      Assoc(" " + p.key, " ", p.option.value);
      Assoc(" ", p.key, " " + p.option.value);
      Assoc(p.key, " ", p.option.value);
    }
  }

  // The blank that both edits add is trimmed when there is nothing beside it.
  lemma TrimPushed(a: seq<string>, b: seq<string>)
    requires AllTokens(a + b) && AllTokens(b + a) && a != []
    ensures Trim(Join(a) + " " + Join(b)) == Join(a + b)
    ensures Trim(Join(b) + (" " + Join(a))) == Join(b + a)
  {
    if b == [] {
      assert a + b == a == b + a;
      assert Join(a) + " " + "" == Join(a) + " " && "" + (" " + Join(a)) == " " + Join(a);
      TrimJoin(a);
    } else {
      JoinConcat(a, b);
      JoinConcat(b, a);
      Assoc(Join(b), " ", Join(a));
      TrimJoin(a + b);
      TrimJoin(b + a);
    }
  }

  // The update laws, for both edits at once: the name occurs once and looks up
  // to the new option; every other argument stays, in order.
  ghost predicate Updated(ps: seq<Arg>, ps': seq<Arg>, name: string, option: Option<string>) {
    Count(ps', name) == 1 && Lookup(ps', name) == option &&
    Keep(ps', name) == Keep(ps, name) &&
    forall other :: other != name ==>
      Lookup(ps', other) == Lookup(ps, other) && Count(ps', other) == Count(ps, other)
  }

  lemma UpdateLaws(ps: seq<Arg>, name: string, arg: Arg)
    requires Named(arg.key, name)
    ensures Updated(ps, [arg] + Keep(ps, name), name, arg.option)
    ensures Updated(ps, Keep(ps, name) + [arg], name, arg.option)
  {
    var kept := Keep(ps, name);
    KeepFacts(ps, name);
    KeepFacts(kept, name);
    SingleArg(arg);
    KeepAppend([arg], kept, name);
    KeepAppend(kept, [arg], name);
    LookupAppend([arg], kept, name);
    LookupAppend(kept, [arg], name);
    LookupAbsent(kept, name);
    forall other | other != name
      ensures Lookup([arg] + kept, other) == Lookup(ps, other) == Lookup(kept + [arg], other)
      ensures Count([arg] + kept, other) == Count(ps, other) == Count(kept + [arg], other)
    {
      UpdateOthers(ps, name, arg, other);
    }
  }

  lemma SingleArg(arg: Arg)
    ensures forall name :: Keep([arg], name) == if Named(arg.key, name) then [] else [arg]
    ensures forall name :: Count([arg], name) == if Named(arg.key, name) then 1 else 0
    ensures forall name :: Lookup([arg], name) == if Named(arg.key, name) then arg.option else None
    ensures forall name :: HasKey([arg], name) <==> Named(arg.key, name)
  {
    assert [arg][0] == arg && [arg][1..] == [];
  }

  lemma UpdateOthers(ps: seq<Arg>, name: string, arg: Arg, other: string)
    requires Named(arg.key, name) && other != name
    ensures Lookup([arg] + Keep(ps, name), other) == Lookup(ps, other) == Lookup(Keep(ps, name) + [arg], other)
    ensures Count([arg] + Keep(ps, name), other) == Count(ps, other) == Count(Keep(ps, name) + [arg], other)
  {
    SingleArg(arg);
    NamesDiffer(arg.key, name, other);
    LookupAppend([arg], Keep(ps, name), other);
    LookupAppend(Keep(ps, name), [arg], other);
    LookupAbsent(Keep(ps, name), other);
    LookupKeep(ps, name, other);
  }

  // ---- options that mention the name --------------------------------------

  // The search finds the last mention, wherever it is inside its token.
  lemma {:induction false} FindMention(toks: seq<string>, i: nat, name: string)
    requires AllTokens(toks) && IsName(name) && i < |toks| && Mentions(toks[i], name)
    requires forall j :: i < j < |toks| ==> !Mentions(toks[j], name)
    ensures FindPos(Join(toks), name) == Offset(toks, i) + FindPos(toks[i], name)
  {
    FindCons(toks, name);
    MentionsFound(toks[i], name);
    if i > 0 {
      FindMention(toks[1..], i - 1, name);
    } else {
      ContainsExactly(toks[1..], name);
    }
  }

  // A scan that starts inside a token does not return the whole of it.
  lemma ScanWithin(pre: string, t: string, post: string, s: nat)
    requires IsToken(t) && (post == "" || post[0] == ' ') && |pre| < s < |pre| + |t|
    ensures ScanFrom(pre + t + post, s) != Some(t)
  {
    var text := pre + t + post;
    assert forall k :: |pre| <= k < |pre| + |t| ==> text[k] == t[k - |pre|];
    TakeTokenIs(text, s, |pre| + |t|);
  }

  lemma ScanInside(toks: seq<string>, i: nat, s: nat)
    requires AllTokens(toks) && i < |toks| && OptionOf(toks, i) == None
    requires |Before(toks, i)| < s <= |Before(toks, i)| + |toks[i]|
    ensures ScanFrom(Join(toks), s) != Some(toks[i])
  {
    if s == |Before(toks, i)| + |toks[i]| {
      ScanNext(toks, i, s);
    } else {
      JoinFocus(toks, i);
      ScanWithin(Before(toks, i), toks[i], After(toks, i), s);
    }
  }

  lemma MentionAt(toks: seq<string>, i: nat, name: string) returns (q: nat)
    requires AllTokens(toks) && IsName(name) && i < |toks| && Mentions(toks[i], name)
    requires forall j :: i < j < |toks| ==> !Mentions(toks[j], name)
    ensures q + |name| + 1 <= |toks[i]|
    ensures FindPos(Join(toks), name) == |Before(toks, i)| + q
  {
    FindMention(toks, i, name);
    OffsetBefore(toks, i);
    MentionsFound(toks[i], name);
    FindLast(toks[i], name);
    q := FindPos(toks[i], name);
  }

  lemma PushedMention(toks: seq<string>, i: nat, name: string)
    requires AllTokens(toks) && IsName(name) && i < |toks| && Mentions(toks[i], name)
    requires OptionOf(toks, i) == None
    requires forall j :: i < j < |toks| ==> !Mentions(toks[j], name)
    ensures GetOption(Join(toks), name) != Some(toks[i])
  {
    var q := MentionAt(toks, i, name);
    LookupMention(toks, i, name, q);
  }

  lemma LookupMention(toks: seq<string>, i: nat, name: string, q: nat)
    requires AllTokens(toks) && IsName(name) && i < |toks| && q + |name| + 1 <= |toks[i]|
    requires OptionOf(toks, i) == None
    requires FindPos(Join(toks), name) == |Before(toks, i)| + q
    ensures GetOption(Join(toks), name) != Some(toks[i])
  {
    ScanInside(toks, i, |Before(toks, i)| + q + |name| + 1);
    NotFound(Join(toks), name, |Before(toks, i)| + q, toks[i]);
  }

  lemma NotFound(text: string, name: string, pos: nat, t: string)
    requires IsName(name) && FindPos(text, name) == pos && ScanFrom(text, pos + |name| + 1) != Some(t)
    ensures GetOption(text, name) != Some(t)
  {
    GetOptionFrom(text, name, name);
  }

  // An option that mentions the name is not found behind the new argument.
  lemma MentionLost(before: seq<Arg>, p: Arg, after: seq<Arg>, name: string)
    requires Valid(before) && Valid(after) && p.Valid() && IsName(name)
    requires p.option.Some? && Mentions(p.option.value, name)
    requires forall k :: 0 <= k < |Tokens(after)| ==> !Mentions(Tokens(after)[k], name)
    ensures GetOption(Render(before + [p] + after), name) != Some(p.option.value)
  {
    TokensAround(before, p, after);
    OptionLast(Tokens(before) + p.Tokens(), Tokens(after), p, |Tokens(before)|);
    PushedMention(Tokens(before) + p.Tokens() + Tokens(after), |Tokens(before)| + 1, name);
  }

  lemma TokensAround(before: seq<Arg>, p: Arg, after: seq<Arg>)
    requires Valid(before) && Valid(after) && p.Valid()
    ensures Tokens(before + [p] + after) == Tokens(before) + p.Tokens() + Tokens(after)
    ensures AllTokens(Tokens(before) + p.Tokens() + Tokens(after))
    ensures Tokens(after) == [] || IsArg(Tokens(after)[0])
  {
    TokensShape(before);
    TokensShape(after);
    assert [p][0] == p && [p][1..] == [] && Tokens([p]) == p.Tokens();
    TokensAppend(before, [p]);
    TokensAppend(before + [p], after);
  }

  // The option of p has none itself.
  lemma OptionLast(a: seq<string>, b: seq<string>, p: Arg, i: nat)
    requires p.option.Some? && |a| == i + 2 && a[i + 1] == p.option.value
    requires b == [] || IsArg(b[0])
    ensures (a + b)[i + 1] == p.option.value && OptionOf(a + b, i + 1) == None
  {}

  lemma OptionFound(ps: seq<Arg>, name: string, option: Option<string>)
    requires Valid(ps) && IsName(name) && SeparatedArgs(ps, name) && Lookup(ps, name) == option
    ensures GetOption(Render(ps), name) == option
  {
    LookupRender(ps, name, name);
  }

  // The option of an update: none, or one plain token.
  predicate IsOption(option: string) {
    Trim(option) == "" || (IsToken(Trim(option)) && !IsArg(Trim(option)))
  }

  lemma PushedValid(name: string, arg: string, option: string)
    requires IsName(name) && Named(Trim(arg), name) && IsOption(option)
    ensures Pushed(arg, option).Valid()
  {
    var key := Trim(arg);
    assert forall i :: 0 < i < |key| ==> key[i] == name[i - 1];
  }

  // After an update with an option, the name looks up to that option exactly
  // when the option does not itself mention the name.
  lemma UpdateExactly(ps: seq<Arg>, name: string, arg: string, option: string)
    requires Valid(ps) && IsName(name) && SeparatedArgs(ps, name)
    requires Named(Trim(arg), name) && IsOption(option) && Trim(option) != ""
    ensures GetOption(PushFront(Render(ps), arg, option), name) == Some(Trim(option)) <==> !Mentions(Trim(option), name)
    ensures GetOption(PushBack(Render(ps), arg, option), name) == Some(Trim(option)) <==> !Mentions(Trim(option), name)
  {
    PushedValid(name, arg, option);
    PushRender(ps, name, arg, option);
    RenderExactly(ps, name, Pushed(arg, option));
  }

  lemma RenderExactly(ps: seq<Arg>, name: string, p: Arg)
    requires Valid(ps) && IsName(name) && SeparatedArgs(ps, name)
    requires Named(p.key, name) && p.Valid() && p.option.Some?
    ensures GetOption(Render([p] + Keep(ps, name)), name) == p.option <==> !Mentions(p.option.value, name)
    ensures GetOption(Render(Keep(ps, name) + [p]), name) == p.option <==> !Mentions(p.option.value, name)
  {
    var kept := Keep(ps, name);
    KeepValid(ps, name);
    KeepSeparated(ps, name, name);
    if Mentions(p.option.value, name) {
      KeptUnmentioned(ps, name);
      assert [] + [p] + kept == [p] + kept && kept + [p] + [] == kept + [p];
      MentionLost([], p, kept, name);
      MentionLost(kept, p, [], name);
    } else {
      UpdateLaws(ps, name, p);
      OptionFound([p] + kept, name, p.option);
      OptionFound(kept + [p], name, p.option);
    }
  }

  lemma KeptUnmentioned(ps: seq<Arg>, name: string)
    requires Valid(ps) && SeparatedArgs(ps, name)
    ensures forall k :: 0 <= k < |Tokens(Keep(ps, name))| ==> !Mentions(Tokens(Keep(ps, name))[k], name)
  {
    KeepFacts(ps, name);
    KeepSeparated(ps, name, name);
    var kept := Keep(ps, name);
    forall k | 0 <= k < |Tokens(kept)| ensures !Mentions(Tokens(kept)[k], name) {
      var i := TokenOf(kept, k);
      assert kept[i].Separated(name) && !Named(kept[i].key, name);
    }
  }

  // The update laws on the stored text: every query, with or without a prefix,
  // for the new name or any other.
  lemma UpdateText(ps: seq<Arg>, name: string, arg: string, option: string, other: string, query: string)
    requires Valid(ps) && IsName(name) && SeparatedArgs(ps, name)
    requires Named(Trim(arg), name) && IsOption(option)
    requires IsName(other) && SeparatedArgs(ps, other) && IsQuery(query, other)
    requires (other != name ==> !Mentions(Trim(arg), other)) && !Mentions(Trim(option), other)
    ensures var expected := if other != name then GetOption(Render(ps), query)
                            else if Trim(option) == "" then None else Some(Trim(option));
            GetOption(PushFront(Render(ps), arg, option), query) == expected &&
            GetOption(PushBack(Render(ps), arg, option), query) == expected
  {
    var p := Pushed(arg, option);
    var front, back := [p] + Keep(ps, name), Keep(ps, name) + [p];
    PushedValid(name, arg, option);
    PushRender(ps, name, arg, option);
    UpdateLaws(ps, name, p);
    KeepSeparated(ps, name, other);
    LookupRender(front, other, query);
    LookupRender(back, other, query);
    LookupRender(ps, other, query);
  }
}
