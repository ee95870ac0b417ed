// The command line kept as one flat string: the string edits of
// libs/core/src/core/cmdline_args.cpp as functions on text.
module CmdLineText {
  import opened Wrappers
  import opened Strings

  predicate IsPrefixChar(c: char) {
    c == '-' || c == '+' || c == '@'
  }

  // remove_argument_prefix; front() of an empty string is undefined.
  function StripPrefix(arg: string): string
    requires arg != ""
  {
    if IsPrefixChar(arg[0]) then arg[1..] else arg
  }

  predicate IsValidArgument(arg: string) {
    |arg| > 1 && IsPrefixChar(arg[0])
  }

  // "+name" or "-name" starts at position p of text.
  predicate Hit(text: string, name: string, p: int) {
    OccursAt(text, "+" + name, p) || OccursAt(text, "-" + name, p)
  }

  // The last hit of the name, or -1.
  function FindName(text: string, name: string): (r: int)
    ensures -1 <= r <= |text|
  {
    var pos1 := RFind(text, "+" + name);
    var pos2 := RFind(text, "-" + name);
    if pos1 == -1 then pos2
    else if pos2 == -1 then pos1
    else if pos1 < pos2 then pos2 else pos1
  }

  lemma FindLast(text: string, name: string)
    ensures var r := FindName(text, name);
            (r == -1 || Hit(text, name, r)) && forall p :: Hit(text, name, p) ==> p <= r
  {
    RFindLast(text, "+" + name);
    RFindLast(text, "-" + name);
  }

  // find_argument_pos: the prefix of the argument, if any, is stripped.
  function FindPos(text: string, arg: string): (r: int)
    requires arg != ""
    ensures -1 <= r <= |text|
  {
    FindName(text, StripPrefix(arg))
  }

  function SkipBlanks(text: string, i: nat): (r: nat)
    ensures i <= r && (i <= |text| ==> r <= |text|)
    ensures r < |text| ==> text[r] != ' '
    decreases |text| - i
  {
    if i < |text| && text[i] == ' ' then SkipBlanks(text, i + 1) else i
  }

  // The characters from i up to the next blank.
  function TakeToken(text: string, i: nat): string
    decreases |text| - i
  {
    if i < |text| && text[i] != ' ' then [text[i]] + TakeToken(text, i + 1) else ""
  }

  lemma TakeTokenStep(text: string, i: nat, j: nat)
    requires i <= j < |text| && text[j] != ' '
    ensures text[i..j] + TakeToken(text, j) == text[i..j + 1] + TakeToken(text, j + 1)
  {
    assert text[i..j + 1] == text[i..j] + [text[j]];
    Assoc(text[i..j], [text[j]], TakeToken(text, j + 1));
  }

  // get_argument_option at a known position; the length of arg is taken as given.
  function OptionAt(text: string, arg: string, pos: nat): Option<string> {
    ScanFrom(text, pos + |arg| + 1)
  }

  function ScanFrom(text: string, i: nat): Option<string> {
    var start := SkipBlanks(text, i);
    if start < |text| && text[start] != '+' && text[start] != '-' then
      Some(TakeToken(text, start))
    else None
  }

  function GetOption(text: string, arg: string): Option<string>
    requires arg != ""
  {
    var pos := FindPos(text, arg);
    if pos == -1 then None else OptionAt(text, arg, pos)
  }

  predicate Contains(text: string, arg: string)
    requires arg != ""
  {
    FindPos(text, arg) != -1
  }

  // std::string::erase: the count is cut off at the end of the text.
  function Erase(text: string, pos: nat, count: nat): string
    requires pos <= |text|
  {
    text[..pos] + text[if pos + count <= |text| then pos + count else |text|..]
  }

  // One round of the loop of remove.
  function RemoveOnce(text: string, name: string): (r: string)
    requires name != "" && Contains(text, name)
    ensures |r| < |text|
  {
    var pos := FindPos(text, name);
    var option := OptionAt(text, name, pos);
    FindLast(text, StripPrefix(name));
    Erase(text, if pos > 0 then pos - 1 else pos, RemoveCount(name, option))
  }

  function RemoveCount(name: string, option: Option<string>): nat {
    1 + |name| + 1 + (if option.Some? then |option.value| + 1 else 0)
  }

  // The loop of remove, for a name already stripped once.
  function RemoveAll(text: string, name: string): (r: string)
    requires name != ""
    ensures !Contains(r, name)
    decreases |text|
  {
    if Contains(text, name) then RemoveAll(RemoveOnce(text, name), name) else text
  }

  function PushFront(text: string, arg: string, option: string): string {
    var a, o := Trim(arg), Trim(option);
    if !IsValidArgument(a) then text
    else
      Trim((if o == "" then a + " " else a + " " + o + " ") + RemoveAll(text, StripPrefix(a)))
  }

  function PushBack(text: string, arg: string, option: string): string {
    var a, o := Trim(arg), Trim(option);
    if !IsValidArgument(a) then text
    else
      Trim(RemoveAll(text, StripPrefix(a)) + (if o == "" then " " + a else " " + a + " " + o))
  }
}

// What the string edits do to canonical text, token by token.
module CmdLineTokens {
  import opened Wrappers
  import opened Strings
  import opened CmdLineText

  predicate IsName(name: string) {
    IsToken(name) && !IsPrefixChar(name[0])
  }

  // A token that starts an argument, as the option scan sees it.
  predicate IsArg(t: string) {
    t != "" && (t[0] == '+' || t[0] == '-')
  }

  predicate Named(t: string, name: string) {
    t == "+" + name || t == "-" + name
  }

  ghost predicate Mentions(t: string, name: string) {
    exists p :: Hit(t, name, p)
  }

  // Lookup is by substring: it is sound when whatever mentions the name is it.
  ghost predicate Separated(toks: seq<string>, name: string) {
    forall i :: 0 <= i < |toks| && Mentions(toks[i], name) ==> Named(toks[i], name)
  }

  lemma NamedHit(t: string, name: string)
    requires Named(t, name)
    ensures Hit(t, name, 0) && Mentions(t, name)
  {
    assert t[0..|t|] == t;
    assert Hit(t, name, 0);
  }

  // ---- where the hits are -------------------------------------------------

  // A hit in "t rest" is a hit in t or a hit in the rest.
  lemma HitSplit(t: string, rest: string, name: string, p: int)
    requires IsName(name)
    ensures Hit(t + " " + rest, name, p) <==> Hit(t, name, p) || Hit(rest, name, p - |t| - 1)
  {
    OccursSplit(t, rest, "+" + name, p);
    OccursSplit(t, rest, "-" + name, p);
  }

  lemma OccursSplit(t: string, rest: string, pat: string, p: int)
    requires IsToken(pat)
    ensures OccursAt(t + " " + rest, pat, p) <==> OccursAt(t, pat, p) || OccursAt(rest, pat, p - |t| - 1)
  {
    var s := t + " " + rest;
    if 0 <= p && p + |pat| <= |t| {
      assert s[p..p + |pat|] == t[p..p + |pat|];
    } else if p > |t| && p + |pat| <= |s| {
      assert s[p..p + |pat|] == rest[p - |t| - 1..p - |t| - 1 + |pat|];
    } else if 0 <= p && p + |pat| <= |s| {
      assert s[p..p + |pat|][|t| - p] == ' ' != pat[|t| - p];
    }
  }

  // So the last hit is the last one in the rest, or else the last one in t.
  lemma FindSplit(t: string, rest: string, name: string)
    requires IsName(name)
    ensures FindPos(t + " " + rest, name) ==
            if FindPos(rest, name) != -1 then |t| + 1 + FindPos(rest, name) else FindPos(t, name)
  {
    var s := t + " " + rest;
    var q, r := FindPos(rest, name), FindPos(s, name);
    FindLast(t, name);
    FindLast(rest, name);
    FindLast(s, name);
    HitSplit(t, rest, name, r);
    HitSplit(t, rest, name, |t| + 1 + q);
    HitSplit(t, rest, name, FindPos(t, name));
  }

  lemma FindCons(toks: seq<string>, name: string)
    requires AllTokens(toks) && IsName(name) && toks != []
    ensures FindPos(Join(toks), name) ==
            var q := FindPos(Join(toks[1..]), name);
            if q != -1 then |toks[0]| + 1 + q else FindPos(toks[0], name)
  {
    if |toks| == 1 {
      assert toks[1..] == [];
    } else {
      FindSplit(toks[0], Join(toks[1..]), name);
    }
  }

  lemma MentionsFound(t: string, name: string)
    requires name != "" && !IsPrefixChar(name[0])
    ensures Mentions(t, name) <==> FindPos(t, name) != -1
  {
    FindLast(t, name);
    if FindPos(t, name) != -1 {
      assert Hit(t, name, FindPos(t, name));
    }
  }

  // contains(), on every canonical text: some token mentions the name.
  lemma {:induction false} ContainsExactly(toks: seq<string>, name: string)
    requires AllTokens(toks) && IsName(name)
    ensures Contains(Join(toks), name) <==> exists i :: 0 <= i < |toks| && Mentions(toks[i], name)
  {
    if toks != [] {
      ContainsExactly(toks[1..], name);
      FindCons(toks, name);
      MentionsFound(toks[0], name);
      assert Mentions(toks[0], name) ||
             forall i :: 0 <= i < |toks| && Mentions(toks[i], name) ==> toks[i] == toks[1..][i - 1];
      assert forall i :: 0 <= i < |toks[1..]| ==> toks[1..][i] == toks[i + 1];
    }
  }

  // The index of the last token that is +name or -name, or -1.
  function LastNamed(toks: seq<string>, name: string): (i: int)
    ensures -1 <= i < |toks|
    ensures i == -1 || Named(toks[i], name)
  {
    if toks == [] then -1
    else
      var j := LastNamed(toks[1..], name);
      if j != -1 then j + 1 else if Named(toks[0], name) then 0 else -1
  }

  lemma {:induction false} LastNamedLast(toks: seq<string>, name: string)
    ensures forall j :: LastNamed(toks, name) < j < |toks| ==> !Named(toks[j], name)
  {
    if toks != [] {
      LastNamedLast(toks[1..], name);
      assert forall j :: 0 < j < |toks| ==> toks[j] == toks[1..][j - 1];
    }
  }

  // The offset of token i in canonical text.
  function Offset(toks: seq<string>, i: nat): nat
    requires i <= |toks|
  {
    if i == 0 then 0 else |toks[0]| + 1 + Offset(toks[1..], i - 1)
  }

  lemma {:induction false} OffsetBefore(toks: seq<string>, i: nat)
    requires i <= |toks|
    ensures Offset(toks, i) == |Before(toks, i)|
  {
    if i > 0 {
      OffsetBefore(toks[1..], i - 1);
      assert toks[..i][1..] == toks[1..][..i - 1];
    }
  }

  lemma {:induction false} FindOffset(toks: seq<string>, name: string)
    requires AllTokens(toks) && IsName(name) && Separated(toks, name)
    ensures FindPos(Join(toks), name) ==
            if LastNamed(toks, name) == -1 then -1 else Offset(toks, LastNamed(toks, name))
  {
    if toks != [] {
      FindOffset(toks[1..], name);
      FindCons(toks, name);
      FindToken(toks[0], name);
    }
  }

  // find_argument_pos is the offset of the last token with that name.
  lemma FindJoin(toks: seq<string>, name: string)
    requires AllTokens(toks) && IsName(name) && Separated(toks, name)
    ensures FindPos(Join(toks), name) ==
            var i := LastNamed(toks, name); if i == -1 then -1 else |Before(toks, i)|
  {
    FindOffset(toks, name);
    if LastNamed(toks, name) != -1 {
      OffsetBefore(toks, LastNamed(toks, name));
    }
  }

  lemma FindToken(t: string, name: string)
    requires name != "" && !IsPrefixChar(name[0])
    requires Mentions(t, name) ==> Named(t, name)
    ensures FindPos(t, name) == if Named(t, name) then 0 else -1
  {
    MentionsFound(t, name);
    FindLast(t, name);
    if Named(t, name) {
      NamedHit(t, name);
    }
  }

  // ---- the option that follows a token ------------------------------------

  function OptionOf(toks: seq<string>, i: nat): Option<string>
    requires i < |toks|
  {
    if i + 1 < |toks| && !IsArg(toks[i + 1]) then Some(toks[i + 1]) else None
  }

  lemma {:induction false} TakeTokenIs(text: string, i: nat, j: nat)
    requires i <= j <= |text|
    requires forall k :: i <= k < j ==> text[k] != ' '
    requires j == |text| || text[j] == ' '
    ensures TakeToken(text, i) == text[i..j]
    decreases j - i
  {
    if i < j {
      TakeTokenIs(text, i + 1, j);
      assert text[i..j] == [text[i]] + text[i + 1..j];
    }
  }

  lemma ScanAt(text: string, e: nat, n: nat, i: nat)
    requires 0 < e && 0 < n && e + n <= |text| && e - 1 <= i <= e
    requires text[e - 1] == ' ' && IsToken(text[e..e + n])
    requires e + n == |text| || text[e + n] == ' '
    ensures ScanFrom(text, i) == if IsArg(text[e..e + n]) then None else Some(text[e..e + n])
  {
    assert forall k :: e <= k < e + n ==> text[k] == text[e..e + n][k - e];
    assert SkipBlanks(text, e - 1) == SkipBlanks(text, e) == e;
    TakeTokenIs(text, e, e + n);
  }

  // The scan from the blank before a token, or from the token.
  lemma ScanToken(pre: string, next: string, rest: string, i: nat)
    requires IsToken(next) && (rest == "" || rest[0] == ' ')
    requires |pre| <= i <= |pre| + 1
    ensures ScanFrom(pre + " " + next + rest, i) == if IsArg(next) then None else Some(next)
  {
    var text := pre + " " + next + rest;
    assert text[|pre| + 1..|pre| + 1 + |next|] == next;
    ScanAt(text, |pre| + 1, |next|, i);
  }

  lemma JoinAround(toks: seq<string>, i: nat)
    requires i + 1 < |toks|
    ensures Join(toks) == Before(toks, i) + toks[i] + " " + toks[i + 1] + After(toks, i + 1)
  {
    JoinFocus(toks, i);
    JoinSuffix(toks, i + 1);
    Assoc(Before(toks, i) + toks[i], " ", toks[i + 1] + After(toks, i + 1));
    Assoc(Before(toks, i) + toks[i] + " ", toks[i + 1], After(toks, i + 1));
  }

  // From the end of a token, or one past it, the scan reads the next token.
  lemma ScanNext(toks: seq<string>, i: nat, s: nat)
    requires AllTokens(toks) && i < |toks|
    requires var e := |Before(toks, i)| + |toks[i]|; e <= s <= e + 1
    ensures ScanFrom(Join(toks), s) == OptionOf(toks, i)
  {
    if i + 1 < |toks| {
      JoinAround(toks, i);
      ScanToken(Before(toks, i) + toks[i], toks[i + 1], After(toks, i + 1), s);
    } else {
      JoinFocus(toks, i);
    }
  }

  predicate IsQuery(arg: string, name: string) {
    arg == name || arg == "+" + name || arg == "-" + name || arg == "@" + name
  }

  lemma GetOptionFrom(text: string, name: string, arg: string)
    requires IsName(name) && IsQuery(arg, name)
    ensures FindPos(text, arg) == FindPos(text, name)
    ensures GetOption(text, arg) ==
            var pos := FindPos(text, name); if pos == -1 then None else ScanFrom(text, pos + |arg| + 1)
  {
    assert StripPrefix(arg) == name == StripPrefix(name);
  }

  lemma ScanNamed(toks: seq<string>, i: nat, name: string, n: nat)
    requires AllTokens(toks) && i < |toks| && Named(toks[i], name) && |name| <= n <= |name| + 1
    ensures ScanFrom(Join(toks), |Before(toks, i)| + n + 1) == OptionOf(toks, i)
  {
    ScanNext(toks, i, |Before(toks, i)| + n + 1);
  }

  lemma GetOptionAt(text: string, name: string, arg: string, pos: nat)
    requires IsName(name) && IsQuery(arg, name) && FindPos(text, name) == pos
    ensures GetOption(text, arg) == ScanFrom(text, pos + |arg| + 1)
  {
    GetOptionFrom(text, name, arg);
  }

  // get_argument_option, asked with or without a prefix.
  lemma GetOptionJoin(toks: seq<string>, name: string, arg: string)
    requires AllTokens(toks) && IsName(name) && Separated(toks, name) && IsQuery(arg, name)
    ensures GetOption(Join(toks), arg) ==
            var i := LastNamed(toks, name); if i == -1 then None else OptionOf(toks, i)
  {
    var i := LastNamed(toks, name);
    FindJoin(toks, name);
    if i == -1 {
      GetOptionFrom(Join(toks), name, arg);
    } else {
      GetOptionNamed(toks, i, name, arg);
    }
  }

  lemma GetOptionNamed(toks: seq<string>, i: nat, name: string, arg: string)
    requires AllTokens(toks) && IsName(name) && i < |toks| && Named(toks[i], name) && IsQuery(arg, name)
    requires FindPos(Join(toks), name) == |Before(toks, i)|
    ensures GetOption(Join(toks), arg) == OptionOf(toks, i)
  {
    ScanNamed(toks, i, name, |arg|);
    OptionFrom(Join(toks), name, arg, |Before(toks, i)|, OptionOf(toks, i));
  }

  // A read, put together from its parts.
  lemma OptionFrom(text: string, name: string, arg: string, pos: nat, option: Option<string>)
    requires IsName(name) && IsQuery(arg, name) && FindPos(text, name) == pos
    requires ScanFrom(text, pos + |arg| + 1) == option
    ensures GetOption(text, arg) == option
  {
    GetOptionAt(text, name, arg, pos);
  }

  // ---- remove -------------------------------------------------------------

  // What remove leaves of the tokens, read from the right: each token with the
  // name goes, with the plain token that then follows it.
  function Remaining(toks: seq<string>, name: string): seq<string> {
    if toks == [] then []
    else
      var r := Remaining(toks[1..], name);
      if !Named(toks[0], name) then [toks[0]] + r
      else if r != [] && !IsArg(r[0]) then r[1..]
      else r
  }

  lemma {:induction false} RemainingIn(toks: seq<string>, name: string)
    requires AllTokens(toks)
    ensures AllTokens(Remaining(toks, name))
  {
    if toks != [] {
      RemainingIn(toks[1..], name);
    }
  }

  lemma {:induction false} RemainingUnnamed(toks: seq<string>, name: string)
    requires forall i :: 0 <= i < |toks| ==> !Named(toks[i], name)
    ensures Remaining(toks, name) == toks
  {
    if toks != [] {
      RemainingUnnamed(toks[1..], name);
    }
  }

  lemma {:induction false} RemainingPrefix(a: seq<string>, b: seq<string>, c: seq<string>, name: string)
    requires Remaining(b, name) == Remaining(c, name)
    ensures Remaining(a + b, name) == Remaining(a + c, name)
  {
    if a == [] {
      assert a + b == b && a + c == c;
    } else {
      RemainingPrefix(a[1..], b, c, name);
      assert (a + b)[1..] == a[1..] + b && (a + c)[1..] == a[1..] + c;
    }
  }

  // The tokens without token i and its option.
  function Without(toks: seq<string>, i: nat): (r: seq<string>)
    requires i < |toks|
    ensures |r| < |toks|
  {
    toks[..i] + toks[if OptionOf(toks, i).Some? then i + 2 else i + 1..]
  }

  lemma WithoutRemaining(toks: seq<string>, name: string)
    requires LastNamed(toks, name) != -1
    ensures Remaining(Without(toks, LastNamed(toks, name)), name) == Remaining(toks, name)
  {
    var i := LastNamed(toks, name);
    var tail := toks[i + 1..];
    var kept := toks[if OptionOf(toks, i).Some? then i + 2 else i + 1..];
    LastNamedLast(toks, name);
    RemainingUnnamed(tail, name);
    RemainingUnnamed(kept, name);
    assert toks[i..][1..] == tail;
    assert Remaining(toks[i..], name) == kept;
    RemainingPrefix(toks[..i], toks[i..], kept, name);
    assert toks == toks[..i] + toks[i..];
  }

  // The start of token i, or the blank before it.
  function ErasePos(toks: seq<string>, i: nat): nat
    requires i <= |toks|
  {
    if |Before(toks, i)| > 0 then |Before(toks, i)| - 1 else 0
  }

  // Cutting tokens i..k out of canonical text, with one blank beside them.
  lemma EraseTokens(toks: seq<string>, i: nat, k: nat, count: nat)
    requires i < k <= |toks| && count == |Join(toks[i..k])| + 1
    ensures ErasePos(toks, i) <= |Join(toks)|
    ensures Erase(Join(toks), ErasePos(toks, i), count) == Join(toks[..i] + toks[k..])
  {
    assert toks == toks[..i] + toks[i..k] + toks[k..];
    EraseParts(toks[..i], toks[i..k], toks[k..], count);
  }

  lemma EraseParts(a: seq<string>, m: seq<string>, b: seq<string>, count: nat)
    requires m != [] && count == |Join(m)| + 1
    ensures |Join(a)| <= |Join(a + m + b)|
    ensures Erase(Join(a + m + b), |Join(a)|, count) == Join(a + b)
  {
    assert a + m + b == a + (m + b);
    if a == [] {
      assert a + (m + b) == m + b && a + b == b;
      JoinThen(m, b);
      EraseFront(Join(m), Tail(b));
    } else {
      EraseInside(a, m, b, count);
    }
  }

  lemma EraseInside(a: seq<string>, m: seq<string>, b: seq<string>, count: nat)
    requires a != [] && m != [] && count == |Join(m)| + 1
    ensures |Join(a)| <= |Join(a + (m + b))|
    ensures Erase(Join(a + (m + b)), |Join(a)|, count) == Join(a + b)
  {
    JoinConcat(a, m + b);
    JoinThen(m, b);
    JoinThen(a, b);
    EraseMiddle(Join(a), Join(m), Tail(b));
  }

  // What follows other tokens in canonical text.
  function Tail(b: seq<string>): string {
    if b == [] then "" else " " + Join(b)
  }

  lemma JoinThen(a: seq<string>, b: seq<string>)
    requires a != []
    ensures Join(a + b) == Join(a) + Tail(b)
  {
    if b == [] {
      assert a + b == a;
    } else {
      JoinConcat(a, b);
      Assoc(Join(a), " ", Join(b));
    }
  }

  lemma EraseFront(y: string, z: string)
    ensures Erase(y + z, 0, |y| + 1) == if z == "" then "" else z[1..]
  {
    assert z != "" ==> (y + z)[|y| + 1..] == z[1..];
  }

  lemma EraseMiddle(x: string, y: string, z: string)
    ensures Erase(x + " " + y + z, |x|, |y| + 1) == x + z
    ensures x + " " + (y + z) == x + " " + y + z
  {
    var text := x + " " + y + z;
    assert text[..|x|] == x;
    assert text[|x| + |y| + 1..] == z;
  }

  lemma EraseNamed(toks: seq<string>, i: nat, name: string)
    requires i < |toks| && Named(toks[i], name)
    ensures ErasePos(toks, i) <= |Join(toks)|
    ensures Erase(Join(toks), ErasePos(toks, i), RemoveCount(name, OptionOf(toks, i))) == Join(Without(toks, i))
  {
    var option := OptionOf(toks, i);
    if option.Some? {
      JoinPair(toks, i);
      EraseTokens(toks, i, i + 2, RemoveCount(name, option));
    } else {
      assert toks[i..i + 1] == [toks[i]];
      EraseTokens(toks, i, i + 1, RemoveCount(name, option));
    }
  }

  lemma RemoveOnceAt(toks: seq<string>, i: nat, name: string)
    requires AllTokens(toks) && name != "" && i < |toks| && Named(toks[i], name)
    requires FindPos(Join(toks), name) == |Before(toks, i)|
    ensures RemoveOnce(Join(toks), name) == Join(Without(toks, i))
  {
    OnceAtToken(toks, i, name, |Before(toks, i)|);
  }

  lemma OnceAtToken(toks: seq<string>, i: nat, name: string, pos: nat)
    requires AllTokens(toks) && name != "" && i < |toks| && Named(toks[i], name)
    requires pos == |Before(toks, i)| && FindPos(Join(toks), name) == pos
    ensures RemoveOnce(Join(toks), name) == Join(Without(toks, i))
  {
    ScanAtToken(toks, i, name, pos);
    EraseNamed(toks, i, name);
    OnceAt(Join(toks), name, pos, ErasePos(toks, i), OptionOf(toks, i), Join(Without(toks, i)));
  }

  lemma ScanAtToken(toks: seq<string>, i: nat, name: string, pos: nat)
    requires AllTokens(toks) && i < |toks| && Named(toks[i], name) && pos == |Before(toks, i)|
    ensures ScanFrom(Join(toks), pos + |name| + 1) == OptionOf(toks, i)
    ensures ErasePos(toks, i) == if pos > 0 then pos - 1 else 0
  {
    ScanNamed(toks, i, name, |name|);
  }

  // A round, put together from its parts.
  lemma OnceAt(text: string, name: string, pos: nat, start: nat, option: Option<string>, after: string)
    requires name != "" && FindPos(text, name) == pos && ScanFrom(text, pos + |name| + 1) == option
    requires start == (if pos > 0 then pos - 1 else 0) && start <= |text|
    requires Erase(text, start, RemoveCount(name, option)) == after
    ensures Contains(text, name) && RemoveOnce(text, name) == after
  {
    RemoveOnceFrom(text, name, pos, option);
  }

  lemma RemoveOnceFrom(text: string, name: string, pos: nat, option: Option<string>)
    requires name != "" && FindPos(text, name) == pos && ScanFrom(text, pos + |name| + 1) == option
    ensures RemoveOnce(text, name) == Erase(text, if pos > 0 then pos - 1 else pos, RemoveCount(name, option))
  {}

  // One round of the loop takes out the last token with the name and its option.
  lemma RemoveOnceJoin(toks: seq<string>, name: string)
    requires AllTokens(toks) && IsName(name) && Separated(toks, name)
    requires LastNamed(toks, name) != -1
    ensures Contains(Join(toks), name)
    ensures RemoveOnce(Join(toks), name) == Join(Without(toks, LastNamed(toks, name)))
  {
    FindJoin(toks, name);
    RemoveOnceAt(toks, LastNamed(toks, name), name);
  }

  lemma JoinPair(toks: seq<string>, i: nat)
    requires i + 1 < |toks|
    ensures Join(toks[i..i + 2]) == toks[i] + " " + toks[i + 1]
  {
    assert toks[i..i + 2] == [toks[i]] + [toks[i + 1]];
    JoinConcat([toks[i]], [toks[i + 1]]);
  }

  // remove, on every canonical text that is separated for the name.
  lemma {:induction false} RemoveJoin(toks: seq<string>, name: string)
    requires AllTokens(toks) && IsName(name) && Separated(toks, name)
    ensures RemoveAll(Join(toks), name) == Join(Remaining(toks, name))
    decreases |toks|
  {
    FindJoin(toks, name);
    if LastNamed(toks, name) == -1 {
      LastNamedLast(toks, name);
      RemainingUnnamed(toks, name);
    } else {
      RemoveOnceJoin(toks, name);
      WithoutRemaining(toks, name);
      RemoveJoin(Without(toks, LastNamed(toks, name)), name);
    }
  }

  // ---- push_front and push_back on any text -------------------------------

  // What is not an argument changes nothing.
  lemma PushIgnores(text: string, arg: string, option: string)
    requires var a := Trim(arg); |a| <= 1 || (a[0] != '+' && a[0] != '-' && a[0] != '@')
    ensures PushFront(text, arg, option) == text == PushBack(text, arg, option)
  {}

  // An argument and its option go in front of, or behind, the words that
  // remove leaves of any text.
  lemma PushWords(text: string, arg: string, option: string)
    requires var a := Trim(arg); |a| > 1 && (a[0] == '+' || a[0] == '-' || a[0] == '@')
    ensures var left := Split(RemoveAll(text, Trim(arg)[1..]));
            Split(PushFront(text, arg, option)) == Split(arg) + Split(option) + left &&
            Split(PushBack(text, arg, option)) == left + Split(arg) + Split(option)
  {
    var a, o, left := Trim(arg), Trim(option), RemoveAll(text, Trim(arg)[1..]);
    SplitTrim(arg);
    SplitTrim(option);
    if o == "" {
      SplitTrim(a + " " + left);
      SplitTrim(left + (" " + a));
      TwoTexts(a, left);
      TwoTexts(left, a);
      Assoc(left, " ", a);
    } else {
      SplitTrim(a + " " + o + " " + left);
      SplitTrim(left + (" " + a + " " + o));
      ThreeTexts(a, o, left);
      ThreeTexts(left, a, o);
      Assoc(left, " ", a);
      Assoc(left, " " + a, " ");
      Assoc(left, " " + a + " ", o);
    }
  }

  lemma TwoTexts(a: string, b: string)
    ensures Split(a + " " + b) == Split(a) + Split(b)
  {
    Assoc(a, " ", b);
    SplitBlank(a, ' ', b);
  }

  lemma ThreeTexts(a: string, b: string, c: string)
    ensures Split(a + " " + b + " " + c) == Split(a) + Split(b) + Split(c)
  {
    TwoTexts(a + " " + b, c);
    TwoTexts(a, b);
  }
}
