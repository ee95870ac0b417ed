// A deleted argument whose own option mentions the name: remove finds the
// mention inside the option first, and edits the text there.
module CmdLineMentions {
  import opened Wrappers
  import opened Strings
  import opened CmdLineText
  import opened CmdLineTokens
  import opened CmdLinePairs

  // A name without a prefix character anywhere in it.
  predicate IsPlainName(name: string) {
    IsName(name) && forall i :: 0 <= i < |name| ==> name[i] != '+' && name[i] != '-'
  }

  // x mentions the name at one position only.
  ghost predicate MentionsOnce(x: string, name: string) {
    Mentions(x, name) && forall p :: Hit(x, name, p) ==> p == FindName(x, name)
  }

  // ---- removing what is behind --------------------------------------------

  // Arguments with the name that come later are removed first.
  lemma {:induction false} RemoveBehind(p: seq<string>, q: seq<string>, name: string)
    requires AllTokens(p) && AllTokens(q) && IsName(name) && Separated(q, name)
    ensures RemoveAll(Join(p + q), name) == RemoveAll(Join(p + Remaining(q, name)), name)
    decreases |q|
  {
    var i := LastNamed(q, name);
    LastNamedLast(q, name);
    if i == -1 {
      RemainingUnnamed(q, name);
    } else {
      RemoveBehindOnce(p, q, i, name);
      WithoutRemaining(q, name);
      RemoveBehind(p, Without(q, i), name);
    }
  }

  lemma RemoveBehindOnce(p: seq<string>, q: seq<string>, i: nat, name: string)
    requires AllTokens(p) && AllTokens(q) && IsName(name) && Separated(q, name)
    requires i < |q| && Named(q[i], name) && forall j :: i < j < |q| ==> !Named(q[j], name)
    ensures RemoveAll(Join(p + q), name) == RemoveAll(Join(p + Without(q, i)), name)
  {
    var toks, k := p + q, |p| + i;
    FindBehind(p, q, i, name);
    RemoveOnceAt(toks, k, name);
    WithoutBehind(p, q, i);
    RemoveStep(Join(toks), name);
  }

  lemma FindBehind(p: seq<string>, q: seq<string>, i: nat, name: string)
    requires AllTokens(p) && AllTokens(q) && IsName(name) && Separated(q, name)
    requires i < |q| && Named(q[i], name) && forall j :: i < j < |q| ==> !Named(q[j], name)
    ensures FindPos(Join(p + q), name) == |Before(p + q, |p| + i)|
  {
    var toks, k := p + q, |p| + i;
    assert toks[k] == q[i];
    NamedHit(q[i], name);
    forall j | k < j < |toks| ensures !Mentions(toks[j], name) {
      assert toks[j] == q[j - |p|];
    }
    FindMention(toks, k, name);
    OffsetBefore(toks, k);
    FindToken(q[i], name);
  }

  lemma WithoutBehind(p: seq<string>, q: seq<string>, i: nat)
    requires i < |q|
    ensures Without(p + q, |p| + i) == p + Without(q, i)
  {
    var toks, k := p + q, |p| + i;
    assert OptionOf(toks, k) == OptionOf(q, i);
    var n := if OptionOf(q, i).Some? then i + 2 else i + 1;
    assert toks[..k] == p + q[..i] && toks[|p| + n..] == q[n..];
  }

  lemma RemoveStep(text: string, name: string)
    requires name != "" && Contains(text, name)
    ensures RemoveAll(text, name) == RemoveAll(RemoveOnce(text, name), name)
  {}

  // ---- one round inside a token -------------------------------------------

  // What the option scan reads from inside a token, where v is left of it.
  lemma ScanRest(pre: string, v: string, post: string)
    requires IsToken(v) && (post == "" || post[0] == ' ')
    ensures ScanFrom(pre + (v + post), |pre|) == if IsArg(v) then None else Some(v)
  {
    var text := pre + (v + post);
    assert text[|pre|..|pre| + |v|] == v;
    assert forall k :: 0 <= k < |v| ==> text[|pre| + k] == v[k];
    TakeTokenIs(text, |pre|, |pre| + |v|);
  }

  // What is behind the token: nothing, or a blank and an argument.
  predicate IsTail(w: string) {
    w == "" || (|w| > 1 && w[0] == ' ' && IsArg(w[1..]))
  }

  lemma TailIs(b: seq<string>)
    requires AllTokens(b) && (b == [] || IsArg(b[0]))
    ensures IsTail(Tail(b)) && (b != [] ==> Tail(b) != "" && Tail(b)[1..] == Join(b))
  {
    if b != [] {
      JoinTail(b);
      assert Tail(b)[1..] == Join(b) && Join(b)[0] == b[0][0];
    }
  }

  lemma ScanEnd(pre: string, w: string)
    requires IsTail(w)
    ensures ScanFrom(pre + w, |pre|) == None
  {
    var text := pre + w;
    if w != "" {
      assert text[|pre|] == ' ' && text[|pre| + 1] == w[1];
      assert SkipBlanks(text, |pre|) == SkipBlanks(text, |pre| + 1) == |pre| + 1;
    }
  }

  // The option that a mention inside a token appears to have.
  function InnerOption(v: string): Option<string> {
    if v == "" || IsArg(v) then None else Some(v)
  }

  lemma ScanInner(pre: string, v: string, w: string)
    requires (v != "" ==> IsToken(v)) && IsTail(w)
    ensures ScanFrom(pre + (v + w), |pre|) == InnerOption(v)
  {
    if v == "" {
      assert v + w == w;
      ScanEnd(pre, w);
    } else {
      ScanRest(pre, v, w);
    }
  }

  // The character before the mention goes with it; and so does the rest of the
  // token with the blank behind it, if that is taken for an option.
  function AfterInner(pre: string, a: string, v: string, w: string): string {
    if InnerOption(v).Some? then pre + a + (if w == "" then "" else w[1..]) else pre + (a + v) + w
  }

  lemma EraseMid(x: string, y: string, z: string)
    ensures Erase(x + y + z, |x|, |y|) == x + z
  {
    assert (x + y + z)[..|x|] == x && (x + y + z)[|x| + |y|..] == z;
  }

  lemma EraseOne(x: string, y: string, z: string)
    ensures Erase(x + y + z, |x|, |y| + 1) == x + if z == "" then "" else z[1..]
  {
    assert (x + y + z)[..|x|] == x;
    assert z != "" ==> (x + y + z)[|x| + |y| + 1..] == z[1..];
  }

  lemma Regroup(pre: string, a: string, m: string, v: string, t: string)
    ensures pre + (a + m + v) + t == (pre + a) + m + (v + t) == (pre + a) + (m + v) + t
    ensures pre + a + (v + t) == pre + (a + v) + t
  {
    Assoc(pre, a, v);
    Assoc(pre + a, v, t);
    Assoc(pre + a + m, v, t);
    Assoc(pre + a, m, v);
    Assoc(a, m, v);
    Assoc(pre, a, m + v);
  }

  lemma EraseInner(pre: string, a: string, m: string, v: string, w: string, count: nat)
    requires count == |m| + if InnerOption(v).Some? then |v| + 1 else 0
    ensures Erase(pre + (a + m + v) + w, |pre + a|, count) == AfterInner(pre, a, v, w)
  {
    if InnerOption(v).Some? {
      EraseTaken(pre, a, m, v, w);
    } else {
      EraseMention(pre, a, m, v, w);
    }
  }

  lemma EraseTaken(pre: string, a: string, m: string, v: string, w: string)
    ensures Erase(pre + (a + m + v) + w, |pre + a|, |m| + |v| + 1) == pre + a + if w == "" then "" else w[1..]
  {
    Regroup(pre, a, m, v, w);
    EraseOne(pre + a, m + v, w);
  }

  lemma EraseMention(pre: string, a: string, m: string, v: string, w: string)
    ensures Erase(pre + (a + m + v) + w, |pre + a|, |m|) == pre + (a + v) + w
  {
    Regroup(pre, a, m, v, w);
    EraseMid(pre + a, m, v + w);
  }

  lemma InnerScan(pre: string, a: string, m: string, v: string, w: string, s: nat)
    requires (v != "" ==> IsToken(v)) && IsTail(w) && s == |pre + a| + |m|
    ensures ScanFrom(pre + (a + m + v) + w, s) == InnerOption(v)
  {
    Regroup(pre, a, m, v, w);
    ScanInner(pre + a + m, v, w);
  }

  lemma RoundAt(text: string, name: string, pos: nat, start: nat, option: Option<string>, after: string)
    requires name != "" && FindPos(text, name) == pos && ScanFrom(text, pos + |name| + 1) == option
    requires start == (if pos > 0 then pos - 1 else 0) && start <= |text|
    requires Erase(text, start, RemoveCount(name, option)) == after
    ensures RemoveAll(text, name) == RemoveAll(after, name)
  {
    OnceAt(text, name, pos, start, option, after);
    RemoveStep(text, name);
  }

  // ---- removing before a gap ----------------------------------------------

  // Text in which there is one blank too many before what is behind.
  function Gapped(toks: seq<string>, w: string): string {
    if toks == [] then w else Join(toks) + " " + w
  }

  lemma NoHitTail(b: seq<string>, name: string)
    requires AllTokens(b) && IsName(name) && forall i :: 0 <= i < |b| ==> !Mentions(b[i], name)
    ensures FindPos(Tail(b), name) == -1
  {
    FindLast(Tail(b), name);
    if b != [] {
      ContainsExactly(b, name);
      FindSplit("", Join(b), name);
      FindLast("", name);
      assert "" + " " + Join(b) == Tail(b);
    }
  }

  lemma GapScan(toks: seq<string>, w: string, i: nat, s: nat)
    requires AllTokens(toks) && IsTail(w) && i < |toks| && s == |Before(toks, i) + toks[i]|
    ensures ScanFrom(Join(toks) + " " + w, s) == OptionOf(toks, i)
  {
    if i + 1 < |toks| {
      JoinAround(toks, i);
      ScanOver(Before(toks, i) + toks[i], toks[i + 1], After(toks, i + 1), w);
    } else {
      JoinFocus(toks, i);
      assert Join(toks) == Before(toks, i) + toks[i];
      ScanGap(Join(toks), w);
    }
  }

  lemma ScanOver(pre: string, t: string, post: string, more: string)
    requires IsToken(t) && (post == "" || post[0] == ' ')
    ensures ScanFrom(pre + " " + t + post + " " + more, |pre|) == if IsArg(t) then None else Some(t)
  {
    Assoc(pre + " " + t + post, " ", more);
    Assoc(pre + " " + t, post, " " + more);
    ScanToken(pre, t, post + (" " + more), |pre|);
  }

  lemma ScanGap(pre: string, w: string)
    requires IsTail(w)
    ensures ScanFrom(pre + " " + w, |pre|) == None
  {
    var text := pre + " " + w;
    ScanEnd(pre + " ", w);
    assert text[|pre|] == ' ' && SkipBlanks(text, |pre|) == SkipBlanks(text, |pre| + 1);
  }

  lemma EraseLonger(s: string, more: string, e: nat, count: nat)
    requires e <= |s| && e + count <= |s|
    ensures Erase(s + more, e, count) == Erase(s, e, count) + more
  {
    assert (s + more)[..e] == s[..e] && (s + more)[e + count..] == s[e + count..] + more;
    Assoc(s[..e], s[e + count..], more);
  }

  lemma CountFits(toks: seq<string>, i: nat, name: string)
    requires AllTokens(toks) && i < |toks| && Named(toks[i], name)
    ensures var count := RemoveCount(name, OptionOf(toks, i));
            if Without(toks, i) == [] then ErasePos(toks, i) == 0 && count == |Join(toks)| + 1
            else ErasePos(toks, i) + count <= |Join(toks)|
  {
    if OptionOf(toks, i).Some? {
      JoinPair(toks, i);
      LengthAround(toks, i, i + 2);
    } else {
      assert toks[i..i + 1] == [toks[i]];
      LengthAround(toks, i, i + 1);
    }
  }

  lemma LengthAround(toks: seq<string>, i: nat, k: nat)
    requires i < k <= |toks|
    ensures |Join(toks)| == |Before(toks, i)| + |Join(toks[i..k])| + |Tail(toks[k..])|
    ensures toks[..i] + toks[k..] == [] ==> |Before(toks, i)| == |Tail(toks[k..])| == 0
  {
    assert toks[..k] == toks[..i] + toks[i..k] && toks == toks[..k] + toks[k..];
    JoinThen(toks[..k], toks[k..]);
    if i > 0 {
      JoinThen(toks[..i], toks[i..k]);
    }
  }

  lemma GapErase(toks: seq<string>, w: string, i: nat, name: string)
    requires AllTokens(toks) && i < |toks| && Named(toks[i], name)
    ensures ErasePos(toks, i) <= |Join(toks)|
    ensures Erase(Join(toks) + " " + w, ErasePos(toks, i), RemoveCount(name, OptionOf(toks, i))) ==
            Gapped(Without(toks, i), w)
  {
    var e, count := ErasePos(toks, i), RemoveCount(name, OptionOf(toks, i));
    CountFits(toks, i, name);
    EraseNamed(toks, i, name);
    Assoc(Join(toks), " ", w);
    if Without(toks, i) == [] {
      EraseAll(Join(toks), w);
    } else {
      EraseLonger(Join(toks), " " + w, e, count);
      Assoc(Join(Without(toks, i)), " ", w);
    }
  }

  lemma EraseAll(s: string, w: string)
    ensures Erase(s + " " + w, 0, |s| + 1) == w
  {
    assert (s + " " + w)[|s| + 1..] == w;
  }

  lemma GapFind(toks: seq<string>, w: string, name: string)
    requires AllTokens(toks) && IsName(name) && Separated(toks, name) && FindPos(w, name) == -1
    ensures FindPos(Join(toks) + " " + w, name) ==
            var i := LastNamed(toks, name); if i == -1 then -1 else |Before(toks, i)|
  {
    FindSplit(Join(toks), w, name);
    FindJoin(toks, name);
  }

  lemma GapRound(toks: seq<string>, w: string, name: string)
    requires AllTokens(toks) && IsName(name) && Separated(toks, name) && LastNamed(toks, name) != -1
    requires IsTail(w) && FindPos(w, name) == -1
    ensures RemoveAll(Join(toks) + " " + w, name) == RemoveAll(Gapped(Without(toks, LastNamed(toks, name)), w), name)
  {
    GapFind(toks, w, name);
    GapOnce(toks, w, LastNamed(toks, name), name, |Before(toks, LastNamed(toks, name))|);
  }

  lemma GapScanNamed(toks: seq<string>, w: string, i: nat, name: string, pos: nat)
    requires AllTokens(toks) && i < |toks| && Named(toks[i], name) && IsTail(w) && pos == |Before(toks, i)|
    ensures ScanFrom(Join(toks) + " " + w, pos + |name| + 1) == OptionOf(toks, i)
    ensures ErasePos(toks, i) == if pos > 0 then pos - 1 else 0
  {
    GapScan(toks, w, i, pos + |name| + 1);
  }

  lemma GapOnce(toks: seq<string>, w: string, i: nat, name: string, pos: nat)
    requires AllTokens(toks) && name != "" && i < |toks| && Named(toks[i], name) && IsTail(w)
    requires pos == |Before(toks, i)| && FindPos(Join(toks) + " " + w, name) == pos
    ensures RemoveAll(Join(toks) + " " + w, name) == RemoveAll(Gapped(Without(toks, i), w), name)
  {
    var text := Join(toks) + " " + w;
    GapScanNamed(toks, w, i, name, pos);
    GapErase(toks, w, i, name);
    RoundAt(text, name, pos, ErasePos(toks, i), OptionOf(toks, i), Gapped(Without(toks, i), w));
  }

  // The gap stays.
  lemma {:induction false} RemoveGapped(toks: seq<string>, w: string, name: string)
    requires AllTokens(toks) && IsName(name) && Separated(toks, name) && IsTail(w) && FindPos(w, name) == -1
    ensures RemoveAll(Gapped(toks, w), name) == Gapped(Remaining(toks, name), w)
    decreases |toks|
  {
    LastNamedLast(toks, name);
    if toks != [] {
      if LastNamed(toks, name) == -1 {
        GapFind(toks, w, name);
        RemainingUnnamed(toks, name);
      } else {
        GapRound(toks, w, name);
        WithoutRemaining(toks, name);
        RemoveGapped(Without(toks, LastNamed(toks, name)), w, name);
      }
    }
  }

  lemma GappedExactly(toks: seq<string>, b: seq<string>)
    ensures Gapped(toks, Tail(b)) == Join(toks + b) <==> toks == [] && b == []
  {
    if toks == [] {
      assert toks + b == b;
    } else {
      JoinThen(toks, b);
    }
  }

  // ---- what becomes of the option -----------------------------------------

  // The option x = a c m v mentions the name in m, a single character c before
  // it goes along.
  function Left(x: string, q: nat): string
    requires 0 < q <= |x|
  {
    x[..q - 1]
  }

  function Right(x: string, name: string, q: nat): string
    requires q + |name| + 1 <= |x|
  {
    x[q + |name| + 1..]
  }

  lemma OptionParts(x: string, name: string, q: nat)
    requires IsToken(x) && !IsArg(x) && name != "" && Hit(x, name, q)
    ensures 0 < q && q + |name| + 1 <= |x|
    ensures x == Left(x, q) + x[q - 1..q + |name| + 1] + Right(x, name, q)
    ensures Left(x, q) != "" ==> IsToken(Left(x, q)) && !IsArg(Left(x, q))
    ensures Right(x, name, q) != "" ==> IsToken(Right(x, name, q))
  {
    assert x[q..q + |name| + 1][0] == x[q];
  }

  lemma PartOccurs(x: string, i: nat, j: nat, pat: string, p: int)
    requires i <= j <= |x|
    ensures OccursAt(x[i..j], pat, p) ==> OccursAt(x, pat, p + i)
  {
    if OccursAt(x[i..j], pat, p) {
      forall t | 0 <= t < |pat| ensures x[p + i..p + i + |pat|][t] == pat[t] {
        assert x[i..j][p..p + |pat|][t] == x[i..j][p + t] == x[p + i + t];
      }
    }
  }

  lemma PartHit(x: string, i: nat, j: nat, name: string, p: int)
    requires i <= j <= |x| && Hit(x[i..j], name, p)
    ensures Hit(x, name, p + i)
  {
    PartOccurs(x, i, j, "+" + name, p);
    PartOccurs(x, i, j, "-" + name, p);
  }

  lemma PartsUnmentioned(x: string, name: string, q: nat)
    requires 0 < q && q + |name| + 1 <= |x| && forall p :: Hit(x, name, p) ==> p == q
    ensures !Mentions(Left(x, q), name) && !Mentions(Right(x, name, q), name)
  {
    assert x[..q - 1] == x[0..q - 1] && x[q + |name| + 1..] == x[q + |name| + 1..|x|];
    if p :| Hit(Left(x, q), name, p) {
      PartHit(x, 0, q - 1, name, p);
    }
    if p :| Hit(Right(x, name, q), name, p) {
      PartHit(x, q + |name| + 1, |x|, name, p);
    }
  }

  // No hit lies across a prefix character.
  lemma GluedUnmentioned(a: string, b: string, name: string)
    requires IsPlainName(name) && (b == "" || IsArg(b)) && !Mentions(a, name) && !Mentions(b, name)
    ensures !Mentions(a + b, name)
  {
    forall p ensures Hit(a + b, name, p) ==> Hit(a, name, p) || Hit(b, name, p - |a|) {
      GluedOccurs(a, b, '+', name, p);
      GluedOccurs(a, b, '-', name, p);
    }
  }

  lemma GluedOccurs(a: string, b: string, c: char, name: string, p: int)
    requires IsPlainName(name) && (b == "" || IsArg(b))
    ensures OccursAt(a + b, [c] + name, p) ==> OccursAt(a, [c] + name, p) || OccursAt(b, [c] + name, p - |a|)
  {
    var s, n := a + b, |name| + 1;
    if OccursAt(s, [c] + name, p) {
      if p + n <= |a| {
        assert a[p..p + n] == s[p..p + n];
      } else if |a| <= p {
        assert b[p - |a|..p - |a| + n] == s[p..p + n];
      } else {
        GluedAcross(a, b, c, name, p);
      }
    }
  }

  lemma GluedAcross(a: string, b: string, c: char, name: string, p: nat)
    requires IsPlainName(name) && IsArg(b) && p < |a| < p + |name| + 1 <= |a + b|
    ensures !OccursAt(a + b, [c] + name, p)
  {
    assert (a + b)[p..p + |name| + 1][|a| - p] == b[0];
    assert ([c] + name)[|a| - p] == name[|a| - p - 1];
  }

  // ---- the text after the round -------------------------------------------

  lemma JoinWord(k: seq<string>, w: string, b: seq<string>)
    requires k != []
    ensures Join(k + [w] + b) == Join(k) + " " + w + Tail(b)
  {
    JoinThen(k + [w], b);
    JoinConcat(k, [w]);
  }

  // After the round: the option without the mention, nothing at all, or what is
  // left of it glued to the next argument.
  lemma AfterInnerJoin(k: seq<string>, a: string, v: string, b: seq<string>)
    requires k != []
    ensures var t := AfterInner(Join(k) + " ", a, v, Tail(b));
            if InnerOption(v).Some? && b != [] then
              t == (if a == "" then Join(k + b) else Join(k + [a + b[0]] + b[1..]))
            else var w := if InnerOption(v).Some? then a else a + v;
              t == (if w == "" then Gapped(k, Tail(b)) else Join(k + [w] + b))
  {
    if InnerOption(v).Some? && b != [] {
      assert Tail(b)[1..] == Join(b);
      JoinTail(b);
      if a == "" {
        JoinConcat(k, b);
        assert Join(k) + " " + "" == Join(k) + " ";
      } else {
        JoinWord(k, a + b[0], b[1..]);
        Assoc(Join(k) + " ", a, b[0]);
        Assoc(Join(k) + " " + a, b[0], Tail(b[1..]));
      }
    } else {
      var w := if InnerOption(v).Some? then a else a + v;
      JoinWord(k, w, b);
      assert w == "" ==> Join(k) + " " + w == Join(k) + " ";
    }
  }

  lemma JoinTail(b: seq<string>)
    requires b != []
    ensures Join(b) == b[0] + Tail(b[1..])
  {
    assert [b[0]] + b[1..] == b;
    JoinThen([b[0]], b[1..]);
  }

  // ---- the exact condition ------------------------------------------------

  // The arguments before and after a deleted one whose option mentions its own
  // name once, before and after being those that stay.
  ghost predicate Survives(x: string, name: string, before: seq<Arg>, after: seq<Arg>)
    requires IsToken(x) && !IsArg(x) && name != "" && Mentions(x, name)
  {
    FindLast(x, name);
    MentionsFind(x, name);
    var q := FindName(x, name);
    OptionParts(x, name, q);
    PartsSurvive(Left(x, q), Right(x, name, q), before, after)
  }

  // a is left of the option before the mention, less one character; v behind.
  predicate PartsSurvive(a: string, v: string, before: seq<Arg>, after: seq<Arg>) {
    if InnerOption(v).Some? && after != [] then a == ""
    else if IsArg(v) then a != ""
    else a != "" || (before == [] && after == [])
  }

  lemma MentionsFind(x: string, name: string)
    requires Mentions(x, name)
    ensures FindName(x, name) != -1 && Hit(x, name, FindName(x, name))
  {
    FindLast(x, name);
  }

  lemma KeepMiddle(pre: seq<Arg>, p: Arg, post: seq<Arg>, name: string)
    requires Named(p.key, name)
    ensures Keep(pre + [p] + post, name) == Keep(pre, name) + Keep(post, name)
  {
    KeepAppend(pre + [p], post, name);
    KeepAppend(pre, [p], name);
    SingleArg(p);
    assert Keep(pre, name) + [] == Keep(pre, name);
  }

  // The list with another argument in the place of the one that goes.
  lemma RemoveMiddle(pre: seq<Arg>, p: Arg, post: seq<Arg>, name: string)
    requires Valid(pre) && Valid(post) && p.Valid() && IsName(name) && Named(p.key, name)
    requires SeparatedArgs(pre, name) && SeparatedArgs(post, name) && p.Separated(name)
    ensures RemoveAll(Join(Tokens(pre) + p.Tokens() + Tokens(post)), name) == Render(Keep(pre, name) + Keep(post, name))
  {
    TokensAround(pre, p, post);
    RemoveRender(pre + [p] + post, name);
    KeepMiddle(pre, p, post, name);
  }

  // An option that turned into an argument stays.
  lemma ArgStays(pre: seq<Arg>, key: string, w: string, after: seq<Arg>, name: string)
    requires Valid(pre) && Valid(after) && IsName(name) && Named(key, name) && Arg(key, None).Valid()
    requires SeparatedArgs(pre, name) && SeparatedArgs(after, name) && Keep(after, name) == after
    requires IsToken(w) && IsArg(w) && !Mentions(w, name)
    ensures RemoveAll(Join(Tokens(pre) + [key, w] + Tokens(after)), name) != Render(Keep(pre, name) + after)
  {
    var post := [Arg(w, None)] + after;
    NewArgument(w, after, name);
    ArgText(pre, key, post, name);
    NextWord(Tokens(pre), key, w, Tokens(after));
    KeepValid(pre, name);
    MoreTokens(Keep(pre, name), Arg(w, None), after);
  }

  lemma NextWord(a: seq<string>, key: string, w: string, b: seq<string>)
    ensures a + [key] + ([w] + b) == a + [key, w] + b
  {}

  lemma ArgText(pre: seq<Arg>, key: string, post: seq<Arg>, name: string)
    requires Valid(pre) && Valid(post) && IsName(name) && Named(key, name) && Arg(key, None).Valid()
    requires SeparatedArgs(pre, name) && SeparatedArgs(post, name)
    ensures RemoveAll(Join(Tokens(pre) + [key] + Tokens(post)), name) == Render(Keep(pre, name) + Keep(post, name))
  {
    var p := Arg(key, None);
    assert p.Tokens() == [key];
    RemoveMiddle(pre, p, post, name);
  }

  lemma NewArgument(w: string, after: seq<Arg>, name: string)
    requires Valid(after) && SeparatedArgs(after, name) && Keep(after, name) == after
    requires IsToken(w) && IsArg(w) && !Mentions(w, name)
    ensures var post := [Arg(w, None)] + after;
            Valid(post) && SeparatedArgs(post, name) && Keep(post, name) == post && Tokens(post) == [w] + Tokens(after)
  {
    var p, post := Arg(w, None), [Arg(w, None)] + after;
    assert !Named(w, name) by {
      if Named(w, name) {
        NamedHit(w, name);
      }
    }
    assert post[0] == p && post[1..] == after && p.Tokens() == [w];
    assert forall i :: 0 < i < |post| ==> post[i] == after[i - 1];
  }

  lemma MoreTokens(ps: seq<Arg>, p: Arg, qs: seq<Arg>)
    requires Valid(ps) && Valid(qs) && p.Valid()
    ensures Render(ps + ([p] + qs)) != Render(ps + qs)
  {
    assert ps + ([p] + qs) == ps + [p] + qs;
    TokensAround(ps, p, qs);
    TokensAppend(ps, qs);
    TokensShape(ps + qs);
    SplitJoin(Tokens(ps + qs));
    SplitJoin(Tokens(ps) + p.Tokens() + Tokens(qs));
  }

  lemma {:induction false} RemainingBound(pre: seq<Arg>, s: seq<string>, name: string)
    requires Valid(pre)
    ensures |Remaining(Tokens(pre) + s, name)| <= |Tokens(Keep(pre, name))| + |Remaining(s, name)|
  {
    if pre == [] {
      assert Tokens(pre) + s == s;
    } else {
      var rest := Tokens(pre[1..]) + s;
      RemainingBound(pre[1..], s, name);
      assert Tokens(pre) + s == pre[0].Tokens() + rest;
      RemainingStep(pre[0], rest, name);
    }
  }

  lemma RemainingStep(p: Arg, rest: seq<string>, name: string)
    requires p.Valid()
    ensures |Remaining(p.Tokens() + rest, name)| <=
            (if Named(p.key, name) then 0 else |p.Tokens()|) + |Remaining(rest, name)|
  {
    if p.option.Some? {
      var more := [p.option.value] + rest;
      assert !Named(p.option.value, name) && more[1..] == rest;
      assert p.Tokens() + rest == [p.key] + more && ([p.key] + more)[1..] == more;
    } else {
      assert ([p.key] + rest)[1..] == rest;
    }
  }

  // An argument glued to the rest of the option goes with it.
  lemma GluedLost(pre: seq<Arg>, key: string, g: string, after: seq<Arg>, name: string)
    requires Valid(pre) && Valid(after) && after != [] && IsName(name) && Named(key, name) && Arg(key, None).Valid()
    requires SeparatedArgs(pre, name) && SeparatedArgs(after, name) && Keep(after, name) == after
    requires IsToken(g) && !IsArg(g) && !Mentions(g, name)
    ensures RemoveAll(Join(Tokens(pre) + [key, g] + Tokens(after)[1..]), name) != Render(Keep(pre, name) + after)
  {
    var b := Tokens(after)[1..];
    var s := [key, g] + b;
    var toks := Tokens(pre) + s;
    assert toks == Tokens(pre) + [key, g] + b;
    GluedTokens(pre, key, g, after, name);
    RemoveJoin(toks, name);
    RemainingBound(pre, s, name);
    GluedRemaining(key, g, after, name);
    TokensAppend(Keep(pre, name), after);
    KeepValid(pre, name);
    TokensShape(Keep(pre, name) + after);
    SplitJoin(Tokens(Keep(pre, name) + after));
    assert |Remaining(toks, name)| < |Tokens(Keep(pre, name) + after)|;
    RemainingIn(toks, name);
    SplitJoin(Remaining(toks, name));
  }

  lemma UnmentionedUnnamed(toks: seq<string>, name: string)
    ensures forall i :: 0 <= i < |toks| && Named(toks[i], name) ==> Mentions(toks[i], name)
  {
    forall i | 0 <= i < |toks| && Named(toks[i], name) ensures Mentions(toks[i], name) {
      NamedHit(toks[i], name);
    }
  }

  lemma GluedTokens(pre: seq<Arg>, key: string, g: string, after: seq<Arg>, name: string)
    requires Valid(pre) && Valid(after) && after != [] && Named(key, name) && IsToken(key) && IsToken(g)
    requires SeparatedArgs(pre, name) && SeparatedArgs(after, name) && !Mentions(g, name)
    ensures var toks := Tokens(pre) + ([key, g] + Tokens(after)[1..]); AllTokens(toks) && Separated(toks, name)
  {
    TokensShape(pre);
    TokensShape(after);
    SeparatedTokens(pre, name);
    SeparatedTokens(after, name);
  }

  lemma KeyTakes(key: string, g: string, b: seq<string>, name: string)
    requires Named(key, name) && g != "" && !IsArg(g) && Remaining(b, name) == b
    ensures Remaining([key, g] + b, name) == b
  {
    assert ([key, g] + b)[1..] == [g] + b && ([g] + b)[1..] == b;
    assert Remaining([g] + b, name) == [g] + b;
  }

  lemma GluedRemaining(key: string, g: string, after: seq<Arg>, name: string)
    requires Valid(after) && after != [] && Named(key, name) && SeparatedArgs(after, name) && Keep(after, name) == after
    requires IsToken(g) && !IsArg(g)
    ensures Remaining([key, g] + Tokens(after)[1..], name) == Tokens(after)[1..]
  {
    var b := Tokens(after)[1..];
    KeptUnmentioned(after, name);
    UnmentionedUnnamed(Tokens(after), name);
    RemainingUnnamed(b, name);
    KeyTakes(key, g, b, name);
  }

  lemma BeforeOption(k: seq<string>, x: string, b: seq<string>)
    requires k != []
    ensures var toks := k + [x] + b;
            toks[|k|] == x && Before(toks, |k|) == Join(k) + " " && Join(toks) == Before(toks, |k|) + x + Tail(b)
  {
    assert (k + [x] + b)[..|k|] == k;
    JoinWord(k, x, b);
  }

  // The mention is the last one, so it is found first.
  lemma FindInner(k: seq<string>, x: string, b: seq<string>, name: string)
    requires AllTokens(k + [x] + b) && k != [] && IsName(name)
    requires Mentions(x, name) && forall i :: 0 <= i < |b| ==> !Mentions(b[i], name)
    ensures FindPos(Join(k) + " " + x + Tail(b), name) == |Join(k) + " "| + FindName(x, name)
  {
    BeforeOption(k, x, b);
    FindLastMention(k + [x] + b, |k|, x, b, name);
  }

  lemma FindLastMention(toks: seq<string>, i: nat, x: string, b: seq<string>, name: string)
    requires AllTokens(toks) && IsName(name) && i < |toks| && toks[i] == x && toks[i + 1..] == b
    requires Mentions(x, name) && forall j :: 0 <= j < |b| ==> !Mentions(b[j], name)
    ensures FindPos(Join(toks), name) == |Before(toks, i)| + FindName(x, name)
  {
    assert forall j :: i < j < |toks| ==> toks[j] == b[j - i - 1];
    FindMention(toks, i, name);
    OffsetBefore(toks, i);
  }

  lemma RemoveInner(k: seq<string>, x: string, w: string, name: string, q: nat)
    requires k != [] && IsToken(x) && !IsArg(x) && IsTail(w) && IsName(name)
    requires Hit(x, name, q) && FindPos(Join(k) + " " + x + w, name) == |Join(k) + " "| + q
    ensures 0 < q && q + |name| + 1 <= |x|
    ensures RemoveAll(Join(k) + " " + x + w, name) ==
            RemoveAll(AfterInner(Join(k) + " ", Left(x, q), Right(x, name, q), w), name)
  {
    OptionParts(x, name, q);
    var pre, a, m, v := Join(k) + " ", Left(x, q), x[q - 1..q + |name| + 1], Right(x, name, q);
    var pos, option := |pre| + q, InnerOption(v);
    InnerScan(pre, a, m, v, w, pos + |name| + 1);
    EraseInner(pre, a, m, v, w, RemoveCount(name, option));
    RoundAt(pre + x + w, name, pos, |pre + a|, option, AfterInner(pre, a, v, w));
  }

  lemma RemoveLater(pre: seq<Arg>, p: Arg, post: seq<Arg>, name: string)
    requires Valid(pre) && Valid(post) && p.Valid() && IsName(name) && SeparatedArgs(post, name)
    ensures RemoveAll(Render(pre + [p] + post), name) ==
            RemoveAll(Join(Tokens(pre) + p.Tokens() + Tokens(Keep(post, name))), name)
  {
    TokensAround(pre, p, post);
    TokensShape(pre);
    TokensShape(post);
    SeparatedTokens(post, name);
    RemoveBehind(Tokens(pre) + p.Tokens(), Tokens(post), name);
    RemainingTokens(post, name);
  }

  // Arguments that stay, and none of which mentions the name.
  ghost predicate Stay(after: seq<Arg>, name: string) {
    Valid(after) && SeparatedArgs(after, name) && Keep(after, name) == after && AllTokens(Tokens(after)) &&
    (if after == [] then Tokens(after) == [] else Tokens(after) != [] && IsArg(Tokens(after)[0])) &&
    forall i :: 0 <= i < |Tokens(after)| ==> !Mentions(Tokens(after)[i], name)
  }

  lemma KeptStay(post: seq<Arg>, name: string)
    requires Valid(post) && SeparatedArgs(post, name)
    ensures Stay(Keep(post, name), name)
  {
    KeepFacts(post, name);
    KeepFacts(Keep(post, name), name);
    KeepValid(post, name);
    KeepSeparated(post, name, name);
    KeptUnmentioned(post, name);
    TokensShape(Keep(post, name));
  }

  lemma KeyTokens(pre: seq<Arg>, key: string, name: string)
    requires Valid(pre) && SeparatedArgs(pre, name) && Named(key, name) && Arg(key, None).Valid()
    ensures var k := Tokens(pre) + [key];
            AllTokens(k) && Separated(k, name) && Remaining(k, name) == Tokens(Keep(pre, name))
  {
    var p, ps := Arg(key, None), pre + [Arg(key, None)];
    TokensAppend(pre, [p]);
    assert [p][0] == p && [p][1..] == [] && Tokens([p]) == [key];
    KeepAppend(pre, [p], name);
    SingleArg(p);
    assert Keep(pre, name) + [] == Keep(pre, name);
    TokensShape(ps);
    SeparatedTokens(ps, name);
    RemainingTokens(ps, name);
  }

  // Nothing of the option is left, and one blank too many.
  lemma GapRight(pre: seq<Arg>, key: string, after: seq<Arg>, name: string)
    requires Valid(pre) && SeparatedArgs(pre, name) && Stay(after, name)
    requires IsName(name) && Named(key, name) && Arg(key, None).Valid()
    ensures RemoveAll(Gapped(Tokens(pre) + [key], Tail(Tokens(after))), name) == Render(Keep(pre, name) + after) <==>
            Keep(pre, name) == [] && after == []
  {
    KeyTokens(pre, key, name);
    TailIs(Tokens(after));
    NoHitTail(Tokens(after), name);
    RemoveGapped(Tokens(pre) + [key], Tail(Tokens(after)), name);
    GappedExactly(Tokens(Keep(pre, name)), Tokens(after));
    TokensAppend(Keep(pre, name), after);
  }

  // What is left of the option, on both sides of the mention.
  ghost predicate Pieces(a: string, v: string, name: string) {
    (a != "" ==> IsToken(a) && !IsArg(a)) && (v != "" ==> IsToken(v)) && !Mentions(a, name) && !Mentions(v, name)
  }

  lemma AfterRound(pre: seq<Arg>, key: string, after: seq<Arg>, name: string, a: string, v: string)
    requires Valid(pre) && SeparatedArgs(pre, name) && Stay(after, name)
    requires IsPlainName(name) && Named(key, name) && Arg(key, None).Valid() && Pieces(a, v, name)
    ensures (RemoveAll(AfterInner(Join(Tokens(pre) + [key]) + " ", a, v, Tail(Tokens(after))), name) ==
             Render(Keep(pre, name) + after)) <==> PartsSurvive(a, v, Keep(pre, name), after)
  {
    AfterInnerJoin(Tokens(pre) + [key], a, v, Tokens(after));
    if InnerOption(v).Some? && after != [] {
      GluedRight(pre, key, after, name, a, v);
    } else {
      var v' := if InnerOption(v).Some? then "" else v;
      assert a + "" == a;
      if a + v' == "" {
        GapRight(pre, key, after, name);
      } else {
        WordRight(pre, key, after, name, a, v');
      }
    }
  }

  // The blank before the next argument is gone.
  lemma GluedRight(pre: seq<Arg>, key: string, after: seq<Arg>, name: string, a: string, v: string)
    requires Valid(pre) && SeparatedArgs(pre, name) && Stay(after, name) && after != []
    requires IsPlainName(name) && Named(key, name) && Arg(key, None).Valid() && Pieces(a, v, name)
    ensures var k, b := Tokens(pre) + [key], Tokens(after);
            var text := if a == "" then Join(k + b) else Join(k + [a + b[0]] + b[1..]);
            RemoveAll(text, name) == Render(Keep(pre, name) + after) <==> a == ""
  {
    var k, b := Tokens(pre) + [key], Tokens(after);
    if a == "" {
      KeyGoes(pre, key, after, name);
    } else {
      FirstGlued(a, b[0], name);
      GluedLost(pre, key, a + b[0], after, name);
      TwoWords(Tokens(pre), key, a + b[0], b[1..]);
    }
  }

  lemma TwoWords(a: seq<string>, key: string, w: string, b: seq<string>)
    ensures a + [key] + [w] + b == a + [key, w] + b
  {}

  lemma FirstGlued(a: string, b: string, name: string)
    requires IsPlainName(name) && IsToken(a) && !IsArg(a) && IsToken(b) && IsArg(b)
    requires !Mentions(a, name) && !Mentions(b, name)
    ensures IsToken(a + b) && !IsArg(a + b) && !Mentions(a + b, name)
  {
    GluedUnmentioned(a, b, name);
  }

  lemma KeyGoes(pre: seq<Arg>, key: string, after: seq<Arg>, name: string)
    requires Valid(pre) && SeparatedArgs(pre, name) && Stay(after, name)
    requires IsName(name) && Named(key, name) && Arg(key, None).Valid()
    ensures RemoveAll(Join(Tokens(pre) + [key] + Tokens(after)), name) == Render(Keep(pre, name) + after)
  {
    ArgText(pre, key, after, name);
  }

  lemma MiddleRight(pre: seq<Arg>, p: Arg, after: seq<Arg>, name: string)
    requires Valid(pre) && SeparatedArgs(pre, name) && Stay(after, name) && p.Valid() && p.Separated(name)
    requires IsName(name) && Named(p.key, name)
    ensures RemoveAll(Join(Tokens(pre) + p.Tokens() + Tokens(after)), name) == Render(Keep(pre, name) + after)
  {
    RemoveMiddle(pre, p, after, name);
  }

  // What is left of the option is one token.
  lemma WordRight(pre: seq<Arg>, key: string, after: seq<Arg>, name: string, a: string, v: string)
    requires Valid(pre) && SeparatedArgs(pre, name) && Stay(after, name)
    requires IsPlainName(name) && Named(key, name) && Arg(key, None).Valid() && Pieces(a, v, name)
    requires (v != "" ==> IsArg(v)) && a + v != ""
    ensures RemoveAll(Join(Tokens(pre) + [key] + [a + v] + Tokens(after)), name) == Render(Keep(pre, name) + after) <==>
            a != ""
  {
    var w := a + v;
    GluedUnmentioned(a, v, name);
    TwoWords(Tokens(pre), key, w, Tokens(after));
    if a == "" {
      assert w == v;
      ArgStays(pre, key, w, after, name);
    } else {
      WordGoes(pre, key, w, after, name);
    }
  }

  lemma WordGoes(pre: seq<Arg>, key: string, w: string, after: seq<Arg>, name: string)
    requires Valid(pre) && SeparatedArgs(pre, name) && Stay(after, name)
    requires IsName(name) && Named(key, name) && Arg(key, None).Valid()
    requires IsToken(w) && !IsArg(w) && !Mentions(w, name)
    ensures RemoveAll(Join(Tokens(pre) + [key, w] + Tokens(after)), name) == Render(Keep(pre, name) + after)
  {
    var p := Arg(key, Some(w));
    assert p.Tokens() == [key, w];
    MiddleRight(pre, p, after, name);
  }

  lemma RemoveToRound(pre: seq<Arg>, key: string, x: string, after: seq<Arg>, name: string, q: nat)
    requires Valid(pre) && Stay(after, name) && IsToken(key) && IsToken(x) && !IsArg(x) && IsName(name)
    requires Mentions(x, name) && q == FindName(x, name) && Hit(x, name, q)
    ensures 0 < q && q + |name| + 1 <= |x|
    ensures RemoveAll(Join(Tokens(pre) + [key, x] + Tokens(after)), name) ==
            var before := Join(Tokens(pre) + [key]) + " ";
            RemoveAll(AfterInner(before, Left(x, q), Right(x, name, q), Tail(Tokens(after))), name)
  {
    var k, b := Tokens(pre) + [key], Tokens(after);
    TokensShape(pre);
    assert Tokens(pre) + [key, x] + b == k + [x] + b;
    FindInner(k, x, b, name);
    BeforeOption(k, x, b);
    TailIs(b);
    RemoveInner(k, x, Tail(b), name, q);
  }

  lemma OptionPieces(x: string, name: string, q: nat)
    requires IsToken(x) && !IsArg(x) && name != "" && Hit(x, name, q) && forall p :: Hit(x, name, p) ==> p == q
    ensures 0 < q && q + |name| + 1 <= |x| && Pieces(Left(x, q), Right(x, name, q), name)
  {
    OptionParts(x, name, q);
    PartsUnmentioned(x, name, q);
  }

  // Of a deleted argument that mentions its own name once, in its option,
  // nothing stays and nothing else goes exactly when the option survives.
  lemma RemoveMentionExactly(pre: seq<Arg>, p: Arg, post: seq<Arg>, name: string)
    requires Valid(pre) && Valid(post) && p.Valid() && IsPlainName(name)
    requires SeparatedArgs(pre, name) && SeparatedArgs(post, name)
    requires Named(p.key, name) && p.option.Some? && MentionsOnce(p.option.value, name)
    ensures RemoveAll(Render(pre + [p] + post), name) == Render(Keep(pre + [p] + post, name)) <==>
            Survives(p.option.value, name, Keep(pre, name), Keep(post, name))
  {
    var x, after := p.option.value, Keep(post, name);
    var q := FindName(x, name);
    MentionsFind(x, name);
    OptionPieces(x, name, q);
    KeepMiddle(pre, p, post, name);
    RemoveLater(pre, p, post, name);
    KeptStay(post, name);
    assert p.Tokens() == [p.key, x];
    MentionRight(pre, p.key, x, after, name, q);
  }

  lemma MentionRight(pre: seq<Arg>, key: string, x: string, after: seq<Arg>, name: string, q: nat)
    requires Valid(pre) && SeparatedArgs(pre, name) && Stay(after, name)
    requires IsPlainName(name) && Named(key, name) && Arg(key, Some(x)).Valid()
    requires Mentions(x, name) && q == FindName(x, name) && Hit(x, name, q) && 0 < q && q + |name| + 1 <= |x|
    requires Pieces(Left(x, q), Right(x, name, q), name)
    ensures RemoveAll(Join(Tokens(pre) + [key, x] + Tokens(after)), name) == Render(Keep(pre, name) + after) <==>
            PartsSurvive(Left(x, q), Right(x, name, q), Keep(pre, name), after)
  {
    RemoveToRound(pre, key, x, after, name, q);
    AfterRound(pre, key, after, name, Left(x, q), Right(x, name, q));
  }

  // ---- what goes wrong ----------------------------------------------------

  // The argument behind is glued to the option and lost; its option stays.
  lemma OptionTakesNext(key: string, x: string, next: string, y: string, name: string)
    requires IsPlainName(name) && Arg(key, Some(x)).Valid() && Arg(next, Some(y)).Valid()
    requires Named(key, name) && !Mentions(next, name) && !Mentions(y, name) && MentionsOnce(x, name)
    requires var q := FindName(x, name); 1 < q && q + |name| + 1 < |x| && !IsArg(x[q + |name| + 1..])
    ensures RemoveAll(Join([key, x, next, y]), name) == y
  {
    var q, after := FindName(x, name), [Arg(next, Some(y))];
    MentionsFind(x, name);
    OptionPieces(x, name, q);
    NextStays(next, y, name);
    RemoveToRound([], key, x, after, name, q);
    assert Tokens([]) + [key, x] + [next, y] == [key, x, next, y] && Tokens([]) + [key] == [key];
    NextTaken(key, Left(x, q), Right(x, name, q), next, y, name);
  }

  lemma NextStays(next: string, y: string, name: string)
    requires Arg(next, Some(y)).Valid() && !Mentions(next, name) && !Mentions(y, name)
    ensures Stay([Arg(next, Some(y))], name) && Tokens([Arg(next, Some(y))]) == [next, y]
  {
    var p, after := Arg(next, Some(y)), [Arg(next, Some(y))];
    assert after[1..] == [] && p.Tokens() == [next, y];
    UnmentionedUnnamed([next], name);
    assert !Named([next][0], name);
    SingleArg(p);
  }

  lemma NextTaken(key: string, a: string, v: string, next: string, y: string, name: string)
    requires IsPlainName(name) && Named(key, name) && IsToken(key) && Arg(next, Some(y)).Valid()
    requires !Mentions(next, name) && !Mentions(y, name) && Pieces(a, v, name) && a != "" && InnerOption(v).Some?
    ensures RemoveAll(AfterInner(Join([key]) + " ", a, v, Tail([next, y])), name) == y
  {
    var b := [next, y];
    AfterInnerJoin([key], a, v, b);
    FirstGlued(a, next, name);
    assert [key] + [a + next] + b[1..] == [key, a + next] + [y];
    TakenNext(key, a + next, y, name);
  }

  lemma TakenNext(key: string, g: string, y: string, name: string)
    requires IsName(name) && Named(key, name) && IsToken(key) && IsToken(g) && !IsArg(g) && IsToken(y)
    requires !Mentions(g, name) && !Mentions(y, name)
    ensures RemoveAll(Join([key, g] + [y]), name) == y
  {
    UnmentionedUnnamed([y], name);
    RemainingUnnamed([y], name);
    UnmentionedUnnamed([g], name);
    KeyTakes(key, g, [y], name);
    RemoveJoin([key, g] + [y], name);
  }

  lemma HitChar(text: string, name: string, p: int)
    requires Hit(text, name, p)
    ensures 0 <= p < |text| && (text[p] == '+' || text[p] == '-') && p + |name| < |text| &&
            text[p + 1..p + 1 + |name|] == name && (name != "" ==> text[p + 1] == name[0])
  {
    var s := text[p..p + |name| + 1];
    assert s[0] == text[p] && s[1..] == text[p + 1..p + 1 + |name|];
  }

  lemma FoundAt(x: string, name: string, q: nat)
    requires name != "" && Hit(x, name, q)
    requires forall p :: 0 <= p < |x| - 1 && p != q && (x[p] == '+' || x[p] == '-') ==> x[p + 1] != name[0]
    ensures MentionsOnce(x, name) && FindName(x, name) == q
  {
    FindLast(x, name);
    forall p | Hit(x, name, p) ensures p == q {
      HitChar(x, name, p);
    }
  }

  lemma NotMentioned(x: string, name: string)
    requires name != "" && forall p :: 0 <= p < |x| - 1 && (x[p] == '+' || x[p] == '-') ==> x[p + 1] != name[0]
    ensures !Mentions(x, name)
  {
    forall p ensures !Hit(x, name, p) {
      if Hit(x, name, p) {
        HitChar(x, name, p);
      }
    }
  }

  // So removing exec destroys the map argument, although nothing that stays
  // mentions exec: without its hypothesis the law of remove is false.
  lemma ExecTakesMap()
    ensures var ps := [Arg("+exec", Some("my-exec.cfg")), Arg("+map", Some("x"))];
            Valid(ps) && SeparatedArgs(ps[1..], "exec") && Keep(ps, "exec") == ps[1..] &&
            RemoveAll(Render(ps), "exec") == "x" != Render(ps[1..])
  {
    ExecNames();
    ExecFound();
    NextStays("+map", "x", "exec");
    ListOfTwo(Arg("+exec", Some("my-exec.cfg")), Arg("+map", Some("x")), "exec");
    OptionTakesNext("+exec", "my-exec.cfg", "+map", "x", "exec");
  }

  lemma ExecNames()
    ensures Named("+exec", "exec") && IsPlainName("exec") && !Mentions("+map", "exec") && !Mentions("x", "exec")
    ensures Arg("+exec", Some("my-exec.cfg")).Valid() && Arg("+map", Some("x")).Valid()
  {
    assert "+exec" == "+" + "exec";
    NotMentioned("+map", "exec");
    NotMentioned("x", "exec");
  }

  lemma ExecFound()
    ensures MentionsOnce("my-exec.cfg", "exec") && FindName("my-exec.cfg", "exec") == 2
    ensures "my-exec.cfg"[7..] == ".cfg" && !IsArg(".cfg")
  {
    assert "my-exec.cfg"[2..7] == "-" + "exec";
    FoundAt("my-exec.cfg", "exec", 2);
  }

  lemma ListOfTwo(p1: Arg, p2: Arg, name: string)
    requires Named(p1.key, name) && Keep([p2], name) == [p2] && p1.option.Some? && p2.option.Some?
    ensures [p1, p2][1..] == [p2] && Keep([p1, p2], name) == [p2]
    ensures Render([p1, p2]) == Join([p1.key, p1.option.value, p2.key, p2.option.value])
    ensures |Render([p2])| == |p2.key| + 1 + |p2.option.value|
  {
    assert [p1, p2][1..] == [p2] && [p2][1..] == [];
    assert Tokens([p2]) == [p2.key] + [p2.option.value];
    assert Tokens([p1, p2]) == [p1.key, p1.option.value, p2.key, p2.option.value];
    JoinConcat([p2.key], [p2.option.value]);
  }

  // A longer name is found for the shorter one.
  ghost predicate IsLonger(a: seq<string>, key: string, b: seq<string>, name: string) {
    AllTokens(a) && AllTokens(b) && b != [] && IsToken(key) && IsName(name) && MentionsOnce(key, name) &&
    FindName(key, name) == 0 && |name| + 1 < |key| && !IsArg(key[|name| + 1..]) &&
    forall i :: 0 <= i < |b| ==> !Mentions(b[i], name)
  }

  lemma LongerAt(a: seq<string>, key: string, b: seq<string>, name: string)
    requires IsLonger(a, key, b, name)
    ensures FindPos(Join(a + [key] + b), name) == LongerPos(a)
  {
    var toks := a + [key] + b;
    assert toks[|a|] == key && toks[|a| + 1..] == b && toks[..|a|] == a;
    FindLastMention(toks, |a|, key, b, name);
  }

  function LongerPos(a: seq<string>): nat {
    if a == [] then 0 else |Join(a)| + 1
  }

  // Removing the shorter name glues what is before it to what is behind.
  lemma LongerGlues(a: seq<string>, key: string, b: seq<string>, name: string)
    requires IsLonger(a, key, b, name)
    ensures RemoveAll(Join(a + [key] + b), name) == RemoveAll(Glued(a, b), name)
  {
    LongerAt(a, key, b, name);
    LongerScan(a, key, b, |name| + 1, LongerPos(a) + |name| + 1);
    var option := Some(key[|name| + 1..]);
    LongerErase(a, key, b, RemoveCount(name, option));
    RoundAt(Join(a + [key] + b), name, LongerPos(a), GlueStart(a), option, Glued(a, b));
  }

  function Glued(a: seq<string>, b: seq<string>): string {
    if a == [] then (if Join(b) == "" then "" else Join(b)[1..]) else Join(a) + Join(b)
  }

  function GlueStart(a: seq<string>): nat {
    if a == [] then 0 else |Join(a)|
  }

  lemma LongerScan(a: seq<string>, key: string, b: seq<string>, n: nat, s: nat)
    requires n < |key| && IsToken(key) && !IsArg(key[n..]) && s == LongerPos(a) + n
    ensures ScanFrom(Join(a + [key] + b), s) == Some(key[n..])
  {
    var toks := a + [key] + b;
    var pre := Before(toks, |a|);
    assert toks[|a|] == key && toks[|a| + 1..] == b && toks[..|a|] == a;
    JoinFocus(toks, |a|);
    assert key == key[..n] + key[n..] && After(toks, |a|) == Tail(b);
    Assoc(pre, key[..n], key[n..]);
    Assoc(pre + key[..n], key[n..], Tail(b));
    ScanRest(pre + key[..n], key[n..], Tail(b));
  }

  lemma LongerErase(a: seq<string>, key: string, b: seq<string>, count: nat)
    requires b != [] && count == |key| + 2
    ensures GlueStart(a) == if LongerPos(a) > 0 then LongerPos(a) - 1 else 0
    ensures GlueStart(a) <= |Join(a + [key] + b)|
    ensures Erase(Join(a + [key] + b), GlueStart(a), count) == Glued(a, b)
  {
    assert (a + [key] + b)[..|a|] == a;
    if a == [] {
      assert a + [key] + b == [key] + b && Join([key]) == key;
      JoinConcat([key], b);
      EraseOne("", key + " ", Join(b));
      assert "" + (key + " ") + Join(b) == key + " " + Join(b);
    } else {
      JoinWord(a, key, b);
      BlankAround(Join(a), key, Join(b));
      EraseMid(Join(a), " " + key + " ", Join(b));
    }
  }

  lemma BlankAround(a: string, k: string, b: string)
    ensures a + " " + k + (" " + b) == a + (" " + k + " ") + b
  {}

  lemma MapLonger()
    ensures IsLonger(["-game", "cstrike"], "+mapcycle", ["list.txt"], "map") && "+mapcycle"[4..] == "cycle"
  {
    assert "+mapcycle"[0..4] == "+" + "map" && "+mapcycle"[4..] == "cycle";
    FoundAt("+mapcycle", "map", 0);
    NotMentioned("list.txt", "map");
  }

  lemma MapGlued()
    ensures RemoveAll(Glued(["-game", "cstrike"], ["list.txt"]), "map") == "-game cstrikelist.txt"
  {
    var text := "-game cstrikelist.txt";
    JoinConcat(["-game"], ["cstrike"]);
    assert ["-game"] + ["cstrike"] == ["-game", "cstrike"];
    assert "-game" + " " + "cstrike" + "list.txt" == text;
    NotMentioned(text, "map");
    FindLast(text, "map");
  }

  // Two errors can cancel: taken alone, neither option survives, but together
  // the result is right. So no condition on the single arguments is exact.
  lemma ErrorsCancel()
    ensures var p, p', d := Arg("-a", Some("y-a-d")), Arg("-a", Some("xy-ab")), Arg("-d", None);
            IsToken("y-a-d") && Mentions("y-a-d", "a") && IsToken("xy-ab") && Mentions("xy-ab", "a") &&
            !Survives("y-a-d", "a", [], [d]) && !Survives("xy-ab", "a", [], [d]) &&
            Keep([p, p', d], "a") == [d] && RemoveAll(Join(["-a", "y-a-d", "-a", "xy-ab", "-d"]), "a") == "-d"
  {
    CancelFound();
    CancelKeep();
    CancelFirst();
    CancelSecond();
  }

  lemma CancelFound()
    ensures IsName("a") && IsToken("y-a-d") && IsToken("xy-ab") && !IsArg("y-a-d") && !IsArg("xy-ab")
    ensures FindName("y-a-d", "a") == 1 && Mentions("y-a-d", "a") && Right("y-a-d", "a", 1) == "-d"
    ensures FindName("xy-ab", "a") == 2 && Mentions("xy-ab", "a") && Right("xy-ab", "a", 2) == "b"
    ensures Hit("y-a-d", "a", 1) && Hit("xy-ab", "a", 2) && Left("y-a-d", 1) == "" && Left("xy-ab", 2) == "x"
  {
    assert "y-a-d"[1..3] == "-" + "a" && "xy-ab"[2..4] == "-" + "a";
    FoundAt("y-a-d", "a", 1);
    FoundAt("xy-ab", "a", 2);
  }

  lemma CancelKeep()
    ensures Keep([Arg("-a", Some("y-a-d")), Arg("-a", Some("xy-ab")), Arg("-d", None)], "a") == [Arg("-d", None)]
    ensures Named("-a", "a") && IsToken("-a") && IsToken("-d") && !Mentions("-d", "a") && Stay([Arg("-d", None)], "a")
    ensures Tokens([Arg("-d", None)]) == ["-d"]
  {
    var p, p', d := Arg("-a", Some("y-a-d")), Arg("-a", Some("xy-ab")), Arg("-d", None);
    assert "-a" == "-" + "a" && "-d"[1] == 'd' && !Named("-d", "a");
    assert [p, p', d][1..] == [p', d] && [p', d][1..] == [d] && [d][1..] == [];
    NotMentioned("-d", "a");
    assert d.Tokens() == ["-d"];
  }

  // The later option eats into the argument behind, and both go.
  lemma CancelFirst()
    ensures RemoveAll(Join(["-a", "y-a-d", "-a", "xy-ab", "-d"]), "a") == RemoveAll(Join(["-a", "y-a-d"]), "a")
  {
    CancelFound();
    CancelKeep();
    LaterGlued("-a", "y-a-d", "-a", "xy-ab", "-d", "a", 2);
    assert "x" + "-d" == "x-d";
    CancelTaken();
  }

  lemma LaterGlued(k: string, y: string, key: string, x: string, next: string, name: string, q: nat)
    requires Arg(k, Some(y)).Valid() && IsToken(key) && IsToken(x) && !IsArg(x) && IsName(name)
    requires Stay([Arg(next, None)], name) && Tokens([Arg(next, None)]) == [next]
    requires Mentions(x, name) && q == FindName(x, name) && Hit(x, name, q) && 1 < q && q + |name| + 1 <= |x|
    requires InnerOption(Right(x, name, q)).Some?
    ensures RemoveAll(Join([k, y, key, x, next]), name) == RemoveAll(Join([k, y] + [key, Left(x, q) + next]), name)
  {
    OneArg(k, y);
    GlueRound([Arg(k, Some(y))], key, x, next, name, q);
    FiveWords(k, y, key, x, next, Left(x, q) + next);
  }

  lemma OneArg(k: string, y: string)
    ensures Tokens([Arg(k, Some(y))]) == [k, y]
  {
    var p := Arg(k, Some(y));
    assert [p][1..] == [] && p.Tokens() == [k, y];
  }

  lemma FiveWords(a: string, b: string, c: string, d: string, e: string, w: string)
    ensures [a, b] + [c, d] + [e] == [a, b, c, d, e]
    ensures [a, b] + [c] + [w] == [a, b] + [c, w]
  {}

  lemma GlueRound(pre: seq<Arg>, key: string, x: string, next: string, name: string, q: nat)
    requires Valid(pre) && IsToken(key) && IsToken(x) && !IsArg(x) && IsName(name)
    requires Stay([Arg(next, None)], name) && Tokens([Arg(next, None)]) == [next]
    requires Mentions(x, name) && q == FindName(x, name) && Hit(x, name, q) && 1 < q && q + |name| + 1 <= |x|
    requires InnerOption(Right(x, name, q)).Some?
    ensures RemoveAll(Join(Tokens(pre) + [key, x] + [next]), name) ==
            RemoveAll(Join(Tokens(pre) + [key] + [Left(x, q) + next]), name)
  {
    var k, w := Tokens(pre) + [key], Left(x, q) + next;
    RemoveToRound(pre, key, x, [Arg(next, None)], name, q);
    AfterInnerJoin(k, Left(x, q), Right(x, name, q), [next]);
    assert [next][1..] == [] && k + [w] + [] == k + [w];
  }

  lemma CancelTaken()
    ensures RemoveAll(Join(["-a", "y-a-d"] + ["-a", "x-d"]), "a") == RemoveAll(Join(["-a", "y-a-d"]), "a")
  {
    var p, q := ["-a", "y-a-d"], ["-a", "x-d"];
    CancelFound();
    CancelKeep();
    NotMentioned("x-d", "a");
    KeyTakes("-a", "x-d", [], "a");
    assert q + [] == q && p + [] == p;
    RemoveBehind(p, q, "a");
  }

  // The earlier one turns into an argument, and stays.
  lemma CancelSecond()
    ensures RemoveAll(Join(["-a", "y-a-d"]), "a") == "-d"
  {
    CancelFound();
    CancelKeep();
    TurnRound("-a", "y-a-d", "a", 1);
    TurnStays("-a", "-d", "a");
  }

  lemma TurnRound(key: string, x: string, name: string, q: nat)
    requires IsToken(key) && IsToken(x) && !IsArg(x) && IsName(name)
    requires Mentions(x, name) && q == FindName(x, name) && Hit(x, name, q) && q == 1 && q + |name| + 1 < |x|
    requires IsArg(Right(x, name, q))
    ensures RemoveAll(Join([key, x]), name) == RemoveAll(Join([key, Right(x, name, q)]), name)
  {
    var v := Right(x, name, q);
    RemoveToRound([], key, x, [], name, q);
    assert Tokens([]) + [key, x] + Tokens([]) == [key, x] && Tokens([]) + [key] == [key];
    AfterInnerJoin([key], "", v, []);
    assert "" + v == v && [key] + [v] + [] == [key, v] && x[..0] == "";
  }

  lemma TurnStays(key: string, v: string, name: string)
    requires IsName(name) && Named(key, name) && IsToken(key) && IsToken(v) && IsArg(v) && !Mentions(v, name)
    ensures RemoveAll(Join([key, v]), name) == v
  {
    UnmentionedUnnamed([v], name);
    RemainingUnnamed([v], name);
    assert [key, v][1..] == [v] && !Named([v][0], name);
    RemoveJoin([key, v], name);
  }
}
