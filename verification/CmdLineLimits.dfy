// Where remove does what is meant, exactly: on text that is not well-formed,
// and on text with other arguments that mention the name.
module CmdLineLimits {
  import opened Wrappers
  import opened Strings
  import opened CmdLineText
  import opened CmdLineTokens
  import opened CmdLinePairs

  // ---- text that is not well-formed ---------------------------------------

  // What is meant: each token with the name goes, with the plain token that
  // follows it.
  function Cut(toks: seq<string>, name: string): seq<string>
    decreases |toks|
  {
    if toks == [] then []
    else if !Named(toks[0], name) then [toks[0]] + Cut(toks[1..], name)
    else Cut(toks[if OptionOf(toks, 0).Some? then 2 else 1..], name)
  }

  // Behind token i the cut leaves nothing, or an argument first.
  predicate ArgAfter(toks: seq<string>, i: nat, name: string)
    requires i < |toks|
  {
    var rest := Cut(toks[i + 1..], name);
    rest == [] || IsArg(rest[0])
  }

  // No plain token is left behind a token with the name that has no option.
  predicate NoOrphan(toks: seq<string>, name: string) {
    forall i :: 0 <= i < |toks| && Named(toks[i], name) && OptionOf(toks, i) == None ==> ArgAfter(toks, i, name)
  }

  lemma NoOrphanCons(toks: seq<string>, name: string)
    requires toks != []
    ensures NoOrphan(toks, name) <==>
            (Named(toks[0], name) && OptionOf(toks, 0) == None ==> ArgAfter(toks, 0, name)) && NoOrphan(toks[1..], name)
  {
    var rest := toks[1..];
    forall i | 0 <= i < |rest|
      ensures rest[i] == toks[i + 1] && OptionOf(rest, i) == OptionOf(toks, i + 1)
      ensures ArgAfter(rest, i, name) <==> ArgAfter(toks, i + 1, name)
    {
      assert rest[i + 1..] == toks[i + 2..];
    }
    if NoOrphan(toks, name) {
      forall i | 0 <= i < |rest| && Named(rest[i], name) && OptionOf(rest, i) == None ensures ArgAfter(rest, i, name) {
        assert ArgAfter(toks, i + 1, name);
      }
    }
    if NoOrphan(rest, name) {
      forall i | 0 < i < |toks| && Named(toks[i], name) && OptionOf(toks, i) == None ensures ArgAfter(toks, i, name) {
        assert ArgAfter(rest, i - 1, name);
      }
    }
  }

  // Deleting from the right is deleting from the left exactly then.
  lemma {:induction false} RemainingExactly(toks: seq<string>, name: string)
    ensures Remaining(toks, name) == Cut(toks, name) <==> NoOrphan(toks, name)
    ensures |Remaining(toks, name)| <= |Cut(toks, name)|
    decreases |toks|
  {
    if toks != [] {
      NoOrphanCons(toks, name);
      RemainingExactly(toks[1..], name);
      if !Named(toks[0], name) {
        assert ([toks[0]] + Remaining(toks[1..], name))[1..] == Remaining(toks[1..], name);
        assert ([toks[0]] + Cut(toks[1..], name))[1..] == Cut(toks[1..], name);
      } else if OptionOf(toks, 0).Some? {
        assert toks[1..][1..] == toks[2..];
        NoOrphanCons(toks[1..], name);
        RemainingExactly(toks[2..], name);
        assert !Named(toks[1], name);
      }
    }
  }

  lemma {:induction false} CutIn(toks: seq<string>, name: string)
    requires AllTokens(toks)
    ensures AllTokens(Cut(toks, name))
    decreases |toks|
  {
    if toks != [] {
      CutIn(toks[1..], name);
      CutIn(toks[if OptionOf(toks, 0).Some? then 2 else 1..], name);
    }
  }

  // On all separated canonical text remove deletes what is meant exactly when
  // no plain token is orphaned.
  lemma RemoveCutsExactly(toks: seq<string>, name: string)
    requires AllTokens(toks) && IsName(name) && Separated(toks, name)
    ensures RemoveAll(Join(toks), name) == Join(Cut(toks, name)) <==> NoOrphan(toks, name)
  {
    RemoveJoin(toks, name);
    RemainingExactly(toks, name);
    RemainingIn(toks, name);
    CutIn(toks, name);
    SplitJoin(Remaining(toks, name));
    SplitJoin(Cut(toks, name));
  }

  // On the tokens of a list of arguments what is meant is the filter.
  lemma {:induction false} CutTokens(ps: seq<Arg>, name: string)
    requires Valid(ps)
    ensures Cut(Tokens(ps), name) == Tokens(Keep(ps, name))
    ensures NoOrphan(Tokens(ps), name)
  {
    RemainingTokens(ps, name);
    if ps != [] {
      CutTokens(ps[1..], name);
      TokensShape(ps[1..]);
      CutArg(ps[0], Tokens(ps[1..]), name);
    }
    RemainingExactly(Tokens(ps), name);
  }

  lemma CutArg(p: Arg, rest: seq<string>, name: string)
    requires p.Valid() && (rest == [] || IsArg(rest[0]))
    ensures Cut(p.Tokens() + rest, name) == (if Named(p.key, name) then [] else p.Tokens()) + Cut(rest, name)
  {
    if p.option.Some? {
      CutPlain(p.key, p.option.value, rest, name);
    } else {
      assert ([p.key] + rest)[1..] == rest;
      assert p.Tokens() + rest == [p.key] + rest;
    }
  }

  lemma CutPlain(key: string, x: string, rest: seq<string>, name: string)
    requires !IsArg(x) && x != ""
    ensures Cut([key, x] + rest, name) == (if Named(key, name) then [] else [key, x]) + Cut(rest, name)
  {
    var toks, more := [key, x] + rest, [x] + rest;
    assert toks[1..] == more && more[1..] == rest && toks[2..] == rest;
    assert !Named(x, name);
    assert Cut(more, name) == [x] + Cut(rest, name);
    assert [key] + ([x] + Cut(rest, name)) == [key, x] + Cut(rest, name);
  }

  // So an unrelated plain token can be lost: of two arguments with the name,
  // the second takes x and then the first takes y.
  lemma RemoveTakesNeighbour(k: string, name: string, x: string, y: string)
    requires IsName(name) && Named(k, name) && AllTokens([x, y]) && !IsArg(x) && !IsArg(y)
    requires !Mentions(x, name) && !Mentions(y, name)
    ensures RemoveAll(Join([k, k, x, y]), name) == ""
    ensures RemoveAll(Join([k, x, y]), name) == y
  {
    assert !IsSpace(k[0]) && forall i :: 0 < i < |k| ==> k[i] == name[i - 1];
    assert [x, y][1..] == [y] && [y][1..] == [];
    assert [k, x, y][1..] == [x, y] && [k, k, x, y][1..] == [k, x, y];
    RemainingUnnamed([x, y], name);
    assert Remaining([k, x, y], name) == [y];
    assert Remaining([k, k, x, y], name) == [];
    RemoveJoin([k, x, y], name);
    RemoveJoin([k, k, x, y], name);
  }

  // ---- arguments that mention the name ------------------------------------

  // An argument that is not the name but mentions it, in key or option.
  ghost predicate Intrudes(p: Arg, name: string) {
    !Named(p.key, name) && (Mentions(p.key, name) || (p.option.Some? && Mentions(p.option.value, name)))
  }

  // Wherever remove is right, no argument that is to stay mentions the name.
  lemma RightExcludes(ps: seq<Arg>, name: string)
    requires Valid(ps) && IsName(name) && RemoveAll(Render(ps), name) == Render(Keep(ps, name))
    ensures forall i :: 0 <= i < |ps| ==> !Intrudes(ps[i], name)
  {
    if i :| 0 <= i < |ps| && Intrudes(ps[i], name) {
      KeepIndex(ps, i, name);
      var j :| 0 <= j < |Keep(ps, name)| && Keep(ps, name)[j] == ps[i];
      var t := if Mentions(ps[i].key, name) then ps[i].key else ps[i].option.value;
      var k := TokenIn(Keep(ps, name), j, t);
      KeepValid(ps, name);
      TokensShape(Keep(ps, name));
      ContainsExactly(Tokens(Keep(ps, name)), name);
    }
  }

  // While no option that is to go mentions the name, that is all it takes.
  lemma RemoveExactly(ps: seq<Arg>, name: string)
    requires Valid(ps) && IsName(name)
    requires forall i :: 0 <= i < |ps| && Named(ps[i].key, name) && ps[i].option.Some? ==>
      !Mentions(ps[i].option.value, name)
    ensures RemoveAll(Render(ps), name) == Render(Keep(ps, name)) <==>
            forall i :: 0 <= i < |ps| ==> !Intrudes(ps[i], name)
  {
    if RemoveAll(Render(ps), name) == Render(Keep(ps, name)) {
      RightExcludes(ps, name);
    } else {
      assert (forall i :: 0 <= i < |ps| ==> !Intrudes(ps[i], name)) ==> SeparatedArgs(ps, name);
      if SeparatedArgs(ps, name) {
        RemoveRender(ps, name);
      }
    }
  }

  lemma {:induction false} KeepIndex(ps: seq<Arg>, i: nat, name: string)
    requires i < |ps| && !Named(ps[i].key, name)
    ensures exists j :: 0 <= j < |Keep(ps, name)| && Keep(ps, name)[j] == ps[i]
  {
    if i == 0 {
      assert Keep(ps, name)[0] == ps[0];
    } else {
      KeepIndex(ps[1..], i - 1, name);
      var j :| 0 <= j < |Keep(ps[1..], name)| && Keep(ps[1..], name)[j] == ps[i];
      var j' := if Named(ps[0].key, name) then j else j + 1;
      assert Keep(ps, name)[j'] == ps[i];
    }
  }
}
