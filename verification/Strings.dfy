// Options and the few string primitives the other modules share.

module Wrappers {
  datatype Option<+T> = None | Some(value: T) {
    function GetOr(default: T): T {
      match this
      case Some(v) => v
      case None => default
    }
  }
}

// The string library the program calls (trim, split, rfind) over one fixed
// set of white-space characters.
module Strings {

  predicate IsSpace(c: char) {
    c == ' ' || c == '\t' || c == '\n' || c == '\r' || c == '\U{B}' || c == '\U{C}'
  }

  // A token: not empty, and without white space.
  predicate IsToken(t: string) {
    t != "" && forall i :: 0 <= i < |t| ==> !IsSpace(t[i])
  }

  predicate AllTokens(toks: seq<string>) {
    forall i :: 0 <= i < |toks| ==> IsToken(toks[i])
  }

  // ---- trim ---------------------------------------------------------------

  function TrimLeft(s: string): string {
    if s != "" && IsSpace(s[0]) then TrimLeft(s[1..]) else s
  }

  function TrimRight(s: string): string {
    if s != "" && IsSpace(s[|s| - 1]) then TrimRight(s[..|s| - 1]) else s
  }

  function Trim(s: string): string {
    TrimRight(TrimLeft(s))
  }

  // No white space at either end.
  predicate IsTrimmed(s: string) {
    s == "" || (!IsSpace(s[0]) && !IsSpace(s[|s| - 1]))
  }

  lemma {:induction false} TrimLeftSpaces(w: string, s: string)
    requires IsEmptyOrSpace(w) && (s == "" || !IsSpace(s[0]))
    ensures TrimLeft(w + s) == s
  {
    if w == "" {
      assert w + s == s;
    } else {
      assert (w + s)[0] == w[0] && (w + s)[1..] == w[1..] + s;
      TrimLeftSpaces(w[1..], s);
    }
  }

  lemma {:induction false} TrimRightSpaces(s: string, w: string)
    requires IsEmptyOrSpace(w) && (s == "" || !IsSpace(s[|s| - 1]))
    ensures TrimRight(s + w) == s
  {
    if w == "" {
      assert s + w == s;
    } else {
      var t := s + w;
      assert t[|t| - 1] == w[|w| - 1] && t[..|t| - 1] == s + w[..|w| - 1];
      TrimRightSpaces(s, w[..|w| - 1]);
    }
  }

  lemma TrimSpaces(l: string, s: string, t: string)
    requires IsEmptyOrSpace(l) && IsEmptyOrSpace(t) && IsTrimmed(s)
    ensures Trim(l + s + t) == s
  {
    if s == "" {
      assert l + s + t == (l + t) + "";
      TrimLeftSpaces(l + t, "");
    } else {
      Assoc(l, s, t);
      TrimLeftSpaces(l, s + t);
      TrimRightSpaces(s, t);
    }
  }

  // What trimming takes away.
  lemma TrimParts(s: string) returns (l: string, t: string)
    ensures s == l + Trim(s) + t && IsEmptyOrSpace(l) && IsEmptyOrSpace(t) && IsTrimmed(Trim(s))
    ensures Trim(s) != "" ==> (l != "" <==> IsSpace(s[0])) && (t != "" <==> IsSpace(s[|s| - 1]))
  {
    l := TrimLeftParts(s);
    t := TrimRightParts(TrimLeft(s));
    Assoc(l, Trim(s), t);
  }

  lemma {:induction false} TrimLeftParts(s: string) returns (l: string)
    ensures s == l + TrimLeft(s) && IsEmptyOrSpace(l)
    ensures TrimLeft(s) == "" || !IsSpace(TrimLeft(s)[0])
  {
    if s != "" && IsSpace(s[0]) {
      l := TrimLeftParts(s[1..]);
      l := [s[0]] + l;
    } else {
      l := "";
    }
  }

  lemma {:induction false} TrimRightParts(s: string) returns (t: string)
    requires s == "" || !IsSpace(s[0])
    ensures s == TrimRight(s) + t && IsEmptyOrSpace(t) && IsTrimmed(TrimRight(s))
  {
    if s != "" && IsSpace(s[|s| - 1]) {
      t := TrimRightParts(s[..|s| - 1]);
      t := t + [s[|s| - 1]];
    } else {
      t := "";
    }
  }

  // ---- rfind --------------------------------------------------------------

  predicate OccursAt(text: string, pat: string, p: int) {
    0 <= p && p + |pat| <= |text| && text[p..p + |pat|] == pat
  }

  // The last occurrence of pat that starts at i or before, or -1.
  function RFindFrom(text: string, pat: string, i: int): (r: int)
    requires -1 <= i
    ensures -1 <= r <= i
    decreases i
  {
    if i == -1 || OccursAt(text, pat, i) then i else RFindFrom(text, pat, i - 1)
  }

  // The start of the last occurrence of pat in text, or -1 (npos).
  function RFind(text: string, pat: string): (r: int)
    ensures -1 <= r <= |text|
  {
    RFindFrom(text, pat, |text|)
  }

  lemma {:induction false} RFindFromLast(text: string, pat: string, i: int)
    requires -1 <= i
    ensures var r := RFindFrom(text, pat, i);
            (r == -1 || OccursAt(text, pat, r)) && forall p :: r < p <= i ==> !OccursAt(text, pat, p)
    decreases i
  {
    if i != -1 && !OccursAt(text, pat, i) {
      RFindFromLast(text, pat, i - 1);
    }
  }

  lemma RFindLast(text: string, pat: string)
    ensures var r := RFind(text, pat);
            (r == -1 || OccursAt(text, pat, r)) && forall p :: OccursAt(text, pat, p) ==> p <= r
  {
    RFindFromLast(text, pat, |text|);
  }

  // ---- join and split -----------------------------------------------------

  // Canonical text: the tokens joined by exactly one blank.
  function Join(toks: seq<string>): string {
    if toks == [] then ""
    else if |toks| == 1 then toks[0]
    else toks[0] + " " + Join(toks[1..])
  }

  lemma {:induction false} JoinConcat(a: seq<string>, b: seq<string>)
    requires a != [] && b != []
    ensures Join(a + b) == Join(a) + " " + Join(b)
  {
    assert (a + b)[1..] == a[1..] + b;
    if |a| > 1 {
      JoinConcat(a[1..], b);
    }
  }

  // Canonical text around its i-th token.
  lemma JoinFocus(toks: seq<string>, i: nat)
    requires i < |toks|
    ensures Join(toks) == Before(toks, i) + toks[i] + After(toks, i)
  {
    JoinSuffix(toks, i);
    if i == 0 {
      assert toks[0..] == toks;
    } else {
      assert toks == toks[..i] + toks[i..];
      JoinConcat(toks[..i], toks[i..]);
    }
    Assoc(Before(toks, i), toks[i], After(toks, i));
  }

  lemma JoinSuffix(toks: seq<string>, i: nat)
    requires i < |toks|
    ensures Join(toks[i..]) == toks[i] + After(toks, i)
  {
    var tail := toks[i..];
    assert tail[1..] == toks[i + 1..];
  }

  lemma Assoc(a: string, b: string, c: string)
    ensures a + b + c == a + (b + c)
  {}

  function Before(toks: seq<string>, i: nat): string
    requires i <= |toks|
  {
    if i == 0 then "" else Join(toks[..i]) + " "
  }

  function After(toks: seq<string>, i: nat): string
    requires i < |toks|
  {
    if i + 1 == |toks| then "" else " " + Join(toks[i + 1..])
  }

  // Canonical text neither starts nor ends with white space.
  lemma {:induction false} JoinEnds(toks: seq<string>)
    requires AllTokens(toks) && toks != []
    ensures Join(toks) != "" && !IsSpace(Join(toks)[0]) && !IsSpace(Join(toks)[|Join(toks)| - 1])
  {
    if |toks| > 1 {
      JoinEnds(toks[1..]);
    }
  }

  lemma TrimJoin(toks: seq<string>)
    requires AllTokens(toks)
    ensures Trim(Join(toks)) == Join(toks)
    ensures Trim(Join(toks) + " ") == Join(toks)
    ensures Trim(" " + Join(toks)) == Join(toks)
  {
    var s := Join(toks);
    if toks == [] {
      assert s + " " == " " && " " + s == " " && " "[1..] == "";
    } else {
      JoinEnds(toks);
      assert (s + " ")[..|s + " "| - 1] == s;
      assert (" " + s)[1..] == s;
    }
  }

  // The length of the token that s starts with.
  function TokenLength(s: string): (n: nat)
    ensures n <= |s|
    ensures forall i :: 0 <= i < n ==> !IsSpace(s[i])
    ensures n == |s| || IsSpace(s[n])
  {
    if s == "" || IsSpace(s[0]) then 0 else 1 + TokenLength(s[1..])
  }

  // Splits at white space; empty pieces are dropped.
  function Split(s: string): (toks: seq<string>)
    ensures AllTokens(toks)
    decreases |s|
  {
    if s == "" then []
    else if IsSpace(s[0]) then Split(s[1..])
    else
      var n := TokenLength(s);
      [s[..n]] + Split(s[n..])
  }

  lemma {:induction false} TokenLengthAppend(a: string, b: string)
    requires b == "" || IsSpace(b[0])
    ensures TokenLength(a + b) == TokenLength(a)
  {
    if a == "" {
      assert a + b == b;
    } else if !IsSpace(a[0]) {
      assert (a + b)[1..] == a[1..] + b;
      TokenLengthAppend(a[1..], b);
    }
  }

  // Splitting distributes over a white-space character.
  lemma {:induction false} SplitAppend(a: string, b: string)
    requires b == "" || IsSpace(b[0])
    ensures Split(a + b) == Split(a) + Split(b)
    decreases |a|
  {
    if a == "" {
      assert a + b == b;
    } else if IsSpace(a[0]) {
      assert (a + b)[1..] == a[1..] + b;
      SplitAppend(a[1..], b);
    } else {
      var n := TokenLength(a);
      TokenLengthAppend(a, b);
      assert (a + b)[..n] == a[..n];
      assert (a + b)[n..] == a[n..] + b;
      SplitAppend(a[n..], b);
    }
  }

  lemma SplitBlank(c: string, blank: char, b: string)
    requires IsSpace(blank)
    ensures Split(c + [blank]) == Split(c)
    ensures Split(c + ([blank] + b)) == Split(c) + Split(b)
  {
    SplitAppend(c, [blank]);
    SplitAppend(c, [blank] + b);
    assert [blank][1..] == "" && ([blank] + b)[1..] == b;
  }

  lemma {:induction false} SplitTrimLeft(s: string)
    ensures Split(TrimLeft(s)) == Split(s)
  {
    if s != "" && IsSpace(s[0]) {
      SplitTrimLeft(s[1..]);
    }
  }

  lemma {:induction false} SplitTrimRight(s: string)
    ensures Split(TrimRight(s)) == Split(s)
  {
    if s != "" && IsSpace(s[|s| - 1]) {
      var a, b := s[..|s| - 1], s[|s| - 1..];
      assert s == a + b;
      SplitAppend(a, b);
      assert Split(b) == Split("") by { assert b[1..] == ""; }
      SplitTrimRight(a);
    }
  }

  lemma SplitTrim(s: string)
    ensures Split(Trim(s)) == Split(s)
  {
    SplitTrimLeft(s);
    SplitTrimRight(TrimLeft(s));
  }

  // Canonical text and its tokens determine each other.
  lemma {:induction false} SplitJoin(toks: seq<string>)
    requires AllTokens(toks)
    ensures Split(Join(toks)) == toks
  {
    if toks != [] {
      SplitToken(toks[0]);
      if |toks| > 1 {
        SplitAppend(toks[0], " " + Join(toks[1..]));
        assert toks[0] + (" " + Join(toks[1..])) == Join(toks);
        assert (" " + Join(toks[1..]))[1..] == Join(toks[1..]);
        SplitJoin(toks[1..]);
      }
    }
  }

  lemma SplitToken(t: string)
    requires IsToken(t)
    ensures Split(t) == [t]
  {
    assert TokenLength(t) == |t|;
    assert t[..|t|] == t && t[|t|..] == "";
  }

  // Canonical text is the shortest with its tokens.
  lemma {:induction false} JoinShortest(s: string)
    ensures |Join(Split(s))| <= |s|
    decreases |s|
  {
    if s != "" {
      if IsSpace(s[0]) {
        JoinShortest(s[1..]);
      } else {
        var rest := s[TokenLength(s)..];
        if rest != "" {
          JoinShortest(rest[1..]);
        }
      }
    }
  }

  predicate IsCanonical(text: string) {
    text == Join(Split(text))
  }

  lemma {:induction false} SplitSpaces(w: string, s: string)
    requires IsEmptyOrSpace(w)
    ensures Split(w + s) == Split(s)
  {
    if w == "" {
      assert w + s == s;
    } else {
      assert (w + s)[0] == w[0] && (w + s)[1..] == w[1..] + s;
      SplitSpaces(w[1..], s);
    }
  }

  // Two texts with white space between them are canonical exactly when both
  // are and there is a single blank.
  lemma CanonicalExactly(a: string, w: string, b: string)
    requires w != "" && IsEmptyOrSpace(w) && Split(a) != [] && Split(b) != []
    ensures Split(a + (w + b)) == Split(a) + Split(b)
    ensures IsCanonical(a + (w + b)) <==> IsCanonical(a) && IsCanonical(b) && w == " "
  {
    assert (w + b)[0] == w[0];
    SplitAppend(a, w + b);
    SplitSpaces(w, b);
    JoinConcat(Split(a), Split(b));
    JoinShortest(a);
    JoinShortest(b);
    JoinedExactly(a, w, b, Join(Split(a)), Join(Split(b)));
  }

  lemma JoinedExactly(a: string, w: string, b: string, c: string, d: string)
    requires w != "" && |c| <= |a| && |d| <= |b|
    ensures a + (w + b) == c + " " + d <==> a == c && b == d && w == " "
  {
    var s, t := a + (w + b), c + " " + d;
    if s == t {
      assert |s| == |a| + |w| + |b| && |t| == |c| + 1 + |d|;
      assert s[..|a|] == a && t[..|c|] == c;
      assert s[|a| + 1..] == b && t[|c| + 1..] == d;
      assert s[|a|] == w[0] && t[|c|] == ' ';
    } else {
      Assoc(a, " ", b);
    }
  }

  // Trimmed text has no tokens only if it is empty.
  lemma TrimmedEmpty(s: string)
    requires IsTrimmed(s)
    ensures Split(s) == [] <==> s == ""
  {
    if s != "" {
      assert Split(s) == [s[..TokenLength(s)]] + Split(s[TokenLength(s)..]);
    }
  }

  // ---- printable text and lines -------------------------------------------

  // Printable characters exclude NUL, line breaks and every control character.
  predicate IsPrintableChar(c: char) {
    ' ' <= c && c != '\U{7F}'
  }

  predicate IsPrintable(s: string) {
    forall i :: 0 <= i < |s| ==> IsPrintableChar(s[i])
  }

  predicate IsEmptyOrSpace(s: string) {
    forall i :: 0 <= i < |s| ==> IsSpace(s[i])
  }

  predicate IsLineBreak(c: char) {
    c == '\n' || c == '\r' || c == '\U{B}' || c == '\U{C}'
  }

  function LineLength(s: string): (n: nat)
    ensures n <= |s|
    ensures n == |s| || IsLineBreak(s[n])
  {
    if s == "" || IsLineBreak(s[0]) then 0 else 1 + LineLength(s[1..])
  }

  // Splits at line breaks, "\r\n" being one; the last line may lack a break.
  function SplitLines(s: string): seq<string>
    decreases |s|
  {
    if s == "" then []
    else
      var n := LineLength(s);
      if n == |s| then [s]
      else if s[n] == '\r' && n + 1 < |s| && s[n + 1] == '\n' then [s[..n]] + SplitLines(s[n + 2..])
      else [s[..n]] + SplitLines(s[n + 1..])
  }

  lemma {:induction false} LineLengthPrintable(line: string, rest: string)
    requires IsPrintable(line)
    ensures LineLength(line + "\n" + rest) == |line|
  {
    if line != "" {
      assert (line + "\n" + rest)[1..] == line[1..] + "\n" + rest;
      LineLengthPrintable(line[1..], rest);
    }
  }

  // What std::copy to an ostream_iterator with "\n" writes.
  function JoinLines(lines: seq<string>): string {
    if lines == [] then "" else lines[0] + "\n" + JoinLines(lines[1..])
  }

  // Printable lines survive being written and read back.
  lemma {:induction false} SplitJoinLines(lines: seq<string>)
    requires forall i :: 0 <= i < |lines| ==> IsPrintable(lines[i])
    ensures SplitLines(JoinLines(lines)) == lines
  {
    if lines != [] {
      var line, rest := lines[0], JoinLines(lines[1..]);
      var s := line + "\n" + rest;
      LineLengthPrintable(line, rest);
      assert s[..|line|] == line && s[|line| + 1..] == rest;
      SplitJoinLines(lines[1..]);
    }
  }

  // A line ends at the first break; a carriage return and a line feed after it
  // are one.
  lemma SplitLinesBreak(line: string, c: char, rest: string)
    requires forall i :: 0 <= i < |line| ==> !IsLineBreak(line[i])
    requires IsLineBreak(c) && !(c == '\r' && rest != "" && rest[0] == '\n')
    ensures SplitLines(line + [c] + rest) == [line] + SplitLines(rest)
    ensures SplitLines(line + "\r\n" + rest) == [line] + SplitLines(rest)
  {
    LineLengthBreak(line, [c] + rest);
    LineLengthBreak(line, "\r\n" + rest);
    Assoc(line, [c], rest);
    Assoc(line, "\r\n", rest);
    var s, t := line + ([c] + rest), line + ("\r\n" + rest);
    assert s[..|line|] == line && s[|line| + 1..] == rest;
    assert t[..|line|] == line && t[|line| + 2..] == rest;
  }

  lemma {:induction false} LineLengthBreak(line: string, rest: string)
    requires forall i :: 0 <= i < |line| ==> !IsLineBreak(line[i])
    requires rest != "" && IsLineBreak(rest[0])
    ensures LineLength(line + rest) == |line|
  {
    if line == "" {
      assert line + rest == rest;
    } else {
      assert (line + rest)[1..] == line[1..] + rest;
      LineLengthBreak(line[1..], rest);
    }
  }

  // The characters: the visible ones and the blank are printable, and neither
  // NUL nor a line break is; white space is the blank and the five controls.
  lemma Characters(c: char)
    ensures ' ' <= c <= '~' ==> IsPrintableChar(c)
    ensures c == '\0' || IsLineBreak(c) ==> !IsPrintableChar(c)
    ensures IsSpace(c) <==> c in " \t\n\r\U{B}\U{C}"
    ensures IsLineBreak(c) <==> c in "\n\r\U{B}\U{C}"
  {}
}
