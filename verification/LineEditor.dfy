// A terminal row: what the characters the program prints leave on screen.
module Terminals {
  import opened Strings

  // One cell back; and the same with a blank over the cell.
  const BACK: string := "\U{8}"
  const RUBOUT: string := "\U{8} \U{8}"

  // The row the cursor is on; cells past its end are blank. Rows above are not
  // modelled, and rows are as wide as needed.
  datatype Terminal = Terminal(row: string, column: nat)

  function Cell(row: string, i: nat): char {
    if i < |row| then row[i] else ' '
  }

  function Blanks(n: nat): (r: string)
    ensures |r| == n && forall i :: 0 <= i < n ==> r[i] == ' '
  {
    seq(n, _ => ' ')
  }

  function Write(row: string, i: nat, c: char): (r: string)
    ensures forall k :: Cell(r, k) == if k == i then c else Cell(row, k)
  {
    if i < |row| then row[i := c] else row + Blanks(i - |row|) + [c]
  }

  function Put(t: Terminal, c: char): Terminal {
    if c == '\U{8}' then t.(column := if t.column == 0 then 0 else t.column - 1)
    else if c == '\r' then t.(column := 0)
    else if c == '\n' then Terminal("", 0)
    else Terminal(Write(t.row, t.column, c), t.column + 1)
  }

  function Replay(t: Terminal, out: string): Terminal {
    if out == "" then t else Put(Replay(t, out[..|out| - 1]), out[|out| - 1])
  }

  function Repeat(s: string, n: nat): (r: string)
    ensures |r| == n * |s|
  {
    if n == 0 then "" else Repeat(s, n - 1) + s
  }

  // The cursor is at the column, and the row shows the line and then blanks.
  ghost predicate Shows(t: Terminal, line: string, column: nat) {
    t.column == column && forall i: nat :: Cell(t.row, i) == Cell(line, i)
  }

  lemma {:induction false} ReplayAppend(t: Terminal, a: string, b: string)
    ensures Replay(t, a + b) == Replay(Replay(t, a), b)
  {
    if b == "" {
      assert a + b == a;
    } else {
      assert (a + b)[..|a + b| - 1] == a + b[..|b| - 1];
      ReplayAppend(t, a, b[..|b| - 1]);
    }
  }

  // Printable text is written cell by cell from the cursor on.
  lemma {:induction false} ReplayText(t: Terminal, s: string)
    requires IsPrintable(s)
    ensures var r := Replay(t, s);
            r.column == t.column + |s| &&
            forall i: nat :: Cell(r.row, i) ==
              if t.column <= i < t.column + |s| then s[i - t.column] else Cell(t.row, i)
  {
    if s != "" {
      ReplayText(t, s[..|s| - 1]);
    }
  }

  lemma {:induction false} ReplayBack(t: Terminal, n: nat)
    requires n <= t.column
    ensures Replay(t, Repeat(BACK, n)) == t.(column := t.column - n)
  {
    if n > 0 {
      ReplayBack(t, n - 1);
      assert Repeat(BACK, n)[..n - 1] == Repeat(BACK, n - 1);
    }
  }

  lemma RubOut(t: Terminal)
    requires t.column > 0
    ensures Replay(t, RUBOUT) == Terminal(Write(t.row, t.column - 1, ' '), t.column - 1)
  {
    assert RUBOUT[..2] == BACK + " " && (BACK + " ")[..1] == BACK && BACK[..0] == "";
    assert Replay(t, BACK) == t.(column := t.column - 1);
    assert Replay(t, BACK + " ") == Terminal(Write(t.row, t.column - 1, ' '), t.column);
  }

  // Rubbing out n characters blanks their cells.
  lemma {:induction false} ReplayRubOut(t: Terminal, n: nat)
    requires n <= t.column
    ensures var r := Replay(t, Repeat(RUBOUT, n));
            r.column == t.column - n &&
            forall i: nat :: Cell(r.row, i) == if t.column - n <= i < t.column then ' ' else Cell(t.row, i)
  {
    if n > 0 {
      ReplayRubOut(t, n - 1);
      ReplayAppend(t, Repeat(RUBOUT, n - 1), RUBOUT);
      RubOut(Replay(t, Repeat(RUBOUT, n - 1)));
    }
  }
}

// The line being edited and what each key prints:
// libs/view/src/view/console_input.cpp.
module LineEditor {
  import opened Wrappers
  import opened Strings
  import opened Terminals
  import opened CommandMatches

  datatype Editor = Editor(line: string, cursor: nat, saved: Option<string>)

  const EMPTY := Editor("", 0, None)

  // The keys, with what the presenter answers: a history entry, or the command
  // matches together with the text that lists them.
  datatype Key =
    | Up(previous: Option<string>)
    | Down(next: Option<string>)
    | Left
    | Right
    | Backspace
    | Delete
    | Home
    | End
    | Tab(matches: seq<string>, listing: string)
    | Enter
    | Char(c: char)

  // Printing a C string stops at the first NUL.
  function CString(s: string): string {
    if s == "" || s[0] == '\0' then "" else [s[0]] + CString(s[1..])
  }

  // substr throws when it starts past the end of the match.
  predicate Throws(e: Editor, key: Key) {
    key.Tab? && |key.matches| == 1 && |e.line| > |key.matches[0]|
  }

  function Shown(line: string, saved: Option<string>): Editor {
    Editor(line, |line|, saved)
  }

  function Step(e: Editor, key: Key): (r: Editor)
    requires e.cursor <= |e.line| && !Throws(e, key)
    ensures r.cursor <= |r.line|
  {
    match key
    case Up(previous) =>
      if previous.Some? then Shown(previous.value, if e.saved == None then Some(e.line) else e.saved) else e
    case Down(next) =>
      if next.Some? then Shown(next.value, e.saved)
      else if e.saved.Some? then Shown(e.saved.value, None)
      else e
    case Left => if e.cursor == 0 then e else e.(cursor := e.cursor - 1)
    case Right => if e.cursor == |e.line| then e else e.(cursor := e.cursor + 1)
    case Backspace =>
      if e.cursor == 0 then e
      else e.(line := e.line[..e.cursor - 1] + e.line[e.cursor..], cursor := e.cursor - 1)
    case Delete =>
      if e.cursor >= |e.line| then e else e.(line := e.line[..e.cursor] + e.line[e.cursor + 1..])
    case Home => e.(cursor := 0)
    case End => e.(cursor := |e.line|)
    case Tab(matches, _) =>
      if matches == [] then e
      else if |matches| == 1 then Shown(e.line + (matches[0][|e.line|..] + " "), e.saved)
      else Shown(FindCommonPrefix(matches), e.saved)
    case Enter => e.(line := "", cursor := 0)
    case Char(c) =>
      if IsPrintableChar(c) then
        e.(line := e.line[..e.cursor] + [c] + e.line[e.cursor..], cursor := e.cursor + 1)
      else e
  }

  // What clear_input prints: to the end of the line, and back over all of it.
  function ClearOutput(e: Editor): string
    requires e.cursor <= |e.line|
  {
    e.line[e.cursor..] + Repeat(RUBOUT, |e.line|)
  }

  // The rest of a shortened line, a blank over its last cell, and back again.
  function TailOutput(line: string, cursor: nat): string
    requires cursor <= |line|
  {
    CString(line[cursor..]) + " " + Repeat(BACK, |line| + 1 - cursor)
  }

  function Output(e: Editor, key: Key): string
    requires e.cursor <= |e.line| && !Throws(e, key)
  {
    var r := Step(e, key);
    match key
    case Up(previous) => if previous.Some? then ClearOutput(e) + r.line else ""
    case Down(next) => if next.Some? || e.saved.Some? then ClearOutput(e) + r.line else ""
    case Left => if e.cursor == 0 then "" else BACK
    case Right => if e.cursor == |e.line| then "" else [e.line[e.cursor]]
    case Backspace => if e.cursor == 0 then "" else BACK + TailOutput(r.line, r.cursor)
    case Delete => if e.cursor >= |e.line| then "" else TailOutput(r.line, r.cursor)
    case Home => if e.cursor == 0 then "" else "\r"
    case End => e.line[e.cursor..]
    case Tab(matches, listing) =>
      if matches == [] then ""
      else if |matches| == 1 then matches[0][|e.line|..] + " "
      else ClearOutput(e) + "\n" + listing + "\n" + r.line
    case Enter => "\n"
    case Char(c) =>
      if IsPrintableChar(c) then CString(r.line[e.cursor..]) + Repeat(BACK, |r.line| - r.cursor) else ""
  }

  // ---- the screen agrees with the line ------------------------------------

  ghost predicate Good(e: Editor) {
    e.cursor <= |e.line| && IsPrintable(e.line) && (e.saved.Some? ==> IsPrintable(e.saved.value))
  }

  // What the presenter answers is printable.
  ghost predicate GoodKey(key: Key) {
    match key
    case Up(previous) => previous.Some? ==> IsPrintable(previous.value)
    case Down(next) => next.Some? ==> IsPrintable(next.value)
    case Tab(matches, _) => forall i :: 0 <= i < |matches| ==> IsPrintable(matches[i])
    case _ => true
  }

  lemma {:induction false} CStringPrintable(s: string)
    requires IsPrintable(s)
    ensures CString(s) == s
  {
    if s != "" {
      CStringPrintable(s[1..]);
      assert s == [s[0]] + s[1..];
    }
  }

  lemma StepGood(e: Editor, key: Key)
    requires Good(e) && GoodKey(key) && !Throws(e, key)
    ensures Good(Step(e, key))
  {
    if key.Tab? && |key.matches| > 1 {
      CommonPrefixLongest(key.matches[0], key.matches[|key.matches| - 1], "");
    }
  }

  // clear_input leaves a blank row with the cursor at its start.
  lemma ClearShows(t: Terminal, e: Editor)
    requires Good(e) && Shows(t, e.line, e.cursor)
    ensures Shows(Replay(t, ClearOutput(e)), "", 0)
  {
    var tail := e.line[e.cursor..];
    ReplayAppend(t, tail, Repeat(RUBOUT, |e.line|));
    ReplayText(t, tail);
    ReplayRubOut(Replay(t, tail), |e.line|);
  }

  lemma TypeShows(t: Terminal, line: string, more: string)
    requires IsPrintable(more) && Shows(t, line, |line|)
    ensures Shows(Replay(t, more), line + more, |line| + |more|)
  {
    ReplayText(t, more);
  }

  lemma RecallShows(t: Terminal, e: Editor, line: string)
    requires Good(e) && Shows(t, e.line, e.cursor) && IsPrintable(line)
    ensures Shows(Replay(t, ClearOutput(e) + line), line, |line|)
  {
    ReplayAppend(t, ClearOutput(e), line);
    ClearShows(t, e);
    TypeShows(Replay(t, ClearOutput(e)), "", line);
    assert "" + line == line;
  }

  // Printing the rest of the line over what is there, and a blank after it.
  lemma OverwriteShows(t: Terminal, line: string, cursor: nat)
    requires IsPrintable(line) && cursor <= |line| && t.column == cursor
    requires forall i: nat :: i < cursor || i > |line| ==> Cell(t.row, i) == Cell(line, i)
    ensures Shows(Replay(t, line[cursor..] + " "), line, |line| + 1)
  {
    ReplayText(t, line[cursor..] + " ");
  }

  // The row holds the line with one more cell at the cursor.
  lemma TailShows(t: Terminal, line: string, cursor: nat)
    requires IsPrintable(line) && cursor <= |line| && t.column == cursor
    requires forall i: nat :: i < cursor || i > |line| ==> Cell(t.row, i) == Cell(line, i)
    ensures Shows(Replay(t, TailOutput(line, cursor)), line, cursor)
  {
    var tail, n := line[cursor..], |line| + 1 - cursor;
    CStringPrintable(tail);
    OverwriteShows(t, line, cursor);
    ReplayAppend(t, tail + " ", Repeat(BACK, n));
    ReplayBack(Replay(t, tail + " "), n);
  }

  lemma RestShows(t: Terminal, line: string, cursor: nat)
    requires IsPrintable(line) && cursor <= |line| && t.column == cursor
    requires forall i: nat :: i < cursor || i >= |line| ==> Cell(t.row, i) == Cell(line, i)
    ensures Shows(Replay(t, line[cursor..]), line, |line|)
  {
    ReplayText(t, line[cursor..]);
  }

  // The rest of a line with a new character, and back to just after that.
  lemma InsertShows(t: Terminal, line: string, cursor: nat)
    requires IsPrintable(line) && cursor < |line| && t.column == cursor
    requires forall i: nat :: i < cursor || i >= |line| ==> Cell(t.row, i) == Cell(line, i)
    ensures Shows(Replay(t, line[cursor..] + Repeat(BACK, |line| - (cursor + 1))), line, cursor + 1)
  {
    RestShows(t, line, cursor);
    ReplayAppend(t, line[cursor..], Repeat(BACK, |line| - (cursor + 1)));
    ReplayBack(Replay(t, line[cursor..]), |line| - (cursor + 1));
  }

  lemma CharShows(t: Terminal, e: Editor, c: char)
    requires Good(e) && IsPrintableChar(c) && Shows(t, e.line, e.cursor)
    ensures Shows(Replay(t, Output(e, Char(c))), Step(e, Char(c)).line, e.cursor + 1)
  {
    var line := Step(e, Char(c)).line;
    CStringPrintable(line[e.cursor..]);
    InsertShows(t, line, e.cursor);
  }

  lemma NewlineResets(t: Terminal, s: string)
    ensures Replay(t, s + "\n") == Terminal("", 0)
  {
    ReplayAppend(t, s, "\n");
    assert "\n"[..0] == "";
  }

  // Text on earlier rows does not matter to the last one.
  lemma LastRowShows(t: Terminal, a: string, b: string, p: string)
    requires IsPrintable(p)
    ensures Shows(Replay(t, a + "\n" + b + "\n" + p), p, |p|)
  {
    NewlineResets(t, a + "\n" + b);
    ReplayAppend(t, a + "\n" + b + "\n", p);
    TypeShows(Terminal("", 0), "", p);
    assert "" + p == p;
  }

  // Whatever the screen held before, a list of matches leaves it right.
  lemma TabResyncs(t: Terminal, e: Editor, matches: seq<string>, listing: string)
    requires e.cursor <= |e.line| && |matches| > 1 && IsPrintable(matches[0])
    ensures var key := Tab(matches, listing);
            Shows(Replay(t, Output(e, key)), Step(e, key).line, Step(e, key).cursor)
  {
    CommonPrefixLongest(matches[0], matches[|matches| - 1], "");
    LastRowShows(t, ClearOutput(e), listing, FindCommonPrefix(matches));
  }

  lemma EnterResyncs(t: Terminal, e: Editor)
    requires e.cursor <= |e.line|
    ensures Shows(Replay(t, Output(e, Enter)), Step(e, Enter).line, Step(e, Enter).cursor)
  {
    NewlineResets(t, "");
    assert "" + "\n" == "\n";
  }

  // A single match is printed where the cursor is: the screen stays right
  // exactly when the cursor is at the end of the line.
  lemma TabExactly(t: Terminal, e: Editor, match': string, listing: string)
    requires Good(e) && Shows(t, e.line, e.cursor) && IsPrintable(match') && |e.line| <= |match'|
    ensures var key := Tab([match'], listing);
            Shows(Replay(t, Output(e, key)), Step(e, key).line, Step(e, key).cursor) <==> e.cursor == |e.line|
  {
    var more := match'[|e.line|..] + " ";
    ReplayText(t, more);
    if e.cursor == |e.line| {
      TypeShows(t, e.line, more);
    }
  }

  // The key may be pressed: the completion does not throw, and is printed at
  // the end of the line.
  predicate Admissible(e: Editor, key: Key) {
    key.Tab? && |key.matches| == 1 ==> e.cursor == |e.line| <= |key.matches[0]|
  }

  lemma EditShows(t: Terminal, e: Editor, key: Key)
    requires Good(e) && Shows(t, e.line, e.cursor) && (key.Backspace? || key.Delete?)
    ensures Shows(Replay(t, Output(e, key)), Step(e, key).line, Step(e, key).cursor)
  {
    if key.Delete? && e.cursor < |e.line| {
      DeleteShows(t, e);
    } else if key.Backspace? && e.cursor > 0 {
      BackspaceShows(t, e);
    }
  }

  // A row that shows the line differs from the line without character k only
  // from there to the end.
  lemma CutCells(row: string, line: string, k: nat)
    requires k < |line| && forall i: nat :: Cell(row, i) == Cell(line, i)
    ensures forall i: nat :: i < k || i > |line| - 1 ==> Cell(row, i) == Cell(line[..k] + line[k + 1..], i)
  {}

  lemma CutPrintable(line: string, k: nat)
    requires k < |line| && IsPrintable(line)
    ensures IsPrintable(line[..k] + line[k + 1..])
  {}

  lemma DeleteShows(t: Terminal, e: Editor)
    requires Good(e) && Shows(t, e.line, e.cursor) && e.cursor < |e.line|
    ensures Shows(Replay(t, Output(e, Delete)), Step(e, Delete).line, e.cursor)
  {
    CutCells(t.row, e.line, e.cursor);
    CutPrintable(e.line, e.cursor);
    TailShows(t, e.line[..e.cursor] + e.line[e.cursor + 1..], e.cursor);
  }

  lemma BackspaceShows(t: Terminal, e: Editor)
    requires Good(e) && Shows(t, e.line, e.cursor) && e.cursor > 0
    ensures Shows(Replay(t, Output(e, Backspace)), Step(e, Backspace).line, e.cursor - 1)
  {
    var k := e.cursor - 1;
    var line := e.line[..k] + e.line[k + 1..];
    ReplayAppend(t, BACK, TailOutput(line, k));
    BackOne(t);
    CutCells(t.row, e.line, k);
    CutPrintable(e.line, k);
    TailShows(t.(column := k), line, k);
  }

  lemma BackOne(t: Terminal)
    ensures Replay(t, BACK) == t.(column := if t.column == 0 then 0 else t.column - 1)
  {
    assert BACK[..0] == "";
  }

  lemma MoveShows(t: Terminal, e: Editor, key: Key)
    requires Good(e) && Shows(t, e.line, e.cursor) && (key.Left? || key.Right? || key.Home? || key.End?)
    ensures Shows(Replay(t, Output(e, key)), Step(e, key).line, Step(e, key).cursor)
  {
    BackOne(t);
    ReplayText(t, e.line[e.cursor..]);
    assert "\r"[..0] == "";
    if e.cursor < |e.line| {
      ReplayText(t, [e.line[e.cursor]]);
    }
  }

  // One key, any of them.
  lemma StepShows(t: Terminal, e: Editor, key: Key)
    requires Good(e) && GoodKey(key) && Admissible(e, key) && Shows(t, e.line, e.cursor)
    ensures Shows(Replay(t, Output(e, key)), Step(e, key).line, Step(e, key).cursor)
  {
    match key
    case Up(previous) =>
      if previous.Some? {
        RecallShows(t, e, previous.value);
      }
    case Down(next) =>
      if next.Some? {
        RecallShows(t, e, next.value);
      } else if e.saved.Some? {
        RecallShows(t, e, e.saved.value);
      }
    case Tab(matches, listing) =>
      if |matches| == 1 {
        assert matches == [matches[0]];
        TabExactly(t, e, matches[0], listing);
      } else if |matches| > 1 {
        TabResyncs(t, e, matches, listing);
      }
    case Enter => EnterResyncs(t, e);
    case Char(c) =>
      if IsPrintableChar(c) {
        CharShows(t, e, c);
      }
    case Backspace => EditShows(t, e, key);
    case Delete => EditShows(t, e, key);
    case _ => MoveShows(t, e, key);
  }

  // Backspace undoes a typed character, and so does Left with Delete.
  lemma TypingUndone(e: Editor, c: char)
    requires e.cursor <= |e.line| && IsPrintableChar(c)
    ensures Step(Step(e, Char(c)), Backspace) == e
    ensures Step(Step(Step(e, Char(c)), Left), Delete) == e
  {
    var typed := Step(e, Char(c)).line;
    assert typed[..e.cursor] + typed[e.cursor + 1..] == e.line;
  }

  // Typing text, and erasing n characters.
  function Typed(e: Editor, s: string): (r: Editor)
    requires e.cursor <= |e.line|
    ensures r.cursor <= |r.line|
  {
    if s == "" then e else Step(Typed(e, s[..|s| - 1]), Char(s[|s| - 1]))
  }

  function Erased(e: Editor, n: nat): (r: Editor)
    requires e.cursor <= |e.line|
    ensures r.cursor <= |r.line|
    decreases n
  {
    if n == 0 then e else Erased(Step(e, Backspace), n - 1)
  }

  // Text that is typed anywhere in a line stands there, and as many Backspaces
  // take it away again and leave the rest as it was.
  lemma {:induction false} TypedErased(e: Editor, s: string)
    requires e.cursor <= |e.line| && IsPrintable(s)
    ensures Typed(e, s) == e.(line := e.line[..e.cursor] + s + e.line[e.cursor..], cursor := e.cursor + |s|)
    ensures Erased(Typed(e, s), |s|) == e
  {
    if s == "" {
      assert e.line[..e.cursor] + "" + e.line[e.cursor..] == e.line;
    } else {
      var init, c := s[..|s| - 1], s[|s| - 1];
      TypedErased(e, init);
      TypingUndone(Typed(e, init), c);
      var before, after := e.line[..e.cursor] + init, e.line[e.cursor..];
      assert before + [c] == e.line[..e.cursor] + s;
      assert Typed(e, init).line[..e.cursor + |init|] == before && Typed(e, init).line[e.cursor + |init|..] == after;
    }
  }

  // Pressing Left or Right n times.
  function Lefts(e: Editor, n: nat): (r: Editor)
    requires e.cursor <= |e.line|
    ensures r.cursor <= |r.line|
    decreases n
  {
    if n == 0 then e else Lefts(Step(e, Left), n - 1)
  }

  function Rights(e: Editor, n: nat): (r: Editor)
    requires e.cursor <= |e.line|
    ensures r.cursor <= |r.line|
    decreases n
  {
    if n == 0 then e else Rights(Step(e, Right), n - 1)
  }

  lemma {:induction false} MovesStop(e: Editor, n: nat)
    requires e.cursor <= |e.line|
    ensures Lefts(e, n) == e.(cursor := if n < e.cursor then e.cursor - n else 0)
    ensures Rights(e, n) == e.(cursor := if e.cursor + n < |e.line| then e.cursor + n else |e.line|)
    decreases n
  {
    if n > 0 {
      MovesStop(Step(e, Left), n - 1);
      MovesStop(Step(e, Right), n - 1);
    }
  }

  // Every place of the line can be reached from either end, and edited there:
  // a typed character stands at it, and Delete takes the one at it.
  lemma EditAnywhere(e: Editor, k: nat, c: char)
    requires e.cursor <= |e.line| && k <= |e.line| && IsPrintableChar(c)
    ensures var there := Rights(Step(e, Home), k);
            there == Lefts(Step(e, End), |e.line| - k) &&
            Step(there, Char(c)) == e.(line := e.line[..k] + [c] + e.line[k..], cursor := k + 1) &&
            (k < |e.line| ==> Step(there, Delete) == e.(line := e.line[..k] + e.line[k + 1..], cursor := k)) &&
            (k > 0 ==> Step(there, Backspace) == e.(line := e.line[..k - 1] + e.line[k..], cursor := k - 1))
  {
    MovesStop(Step(e, Home), k);
    MovesStop(Step(e, End), |e.line| - k);
  }

  // At the ends of the line, and for a character that is not printable, there
  // is nothing to do or to print.
  lemma EditNothing(e: Editor, c: char)
    requires e.cursor <= |e.line|
    ensures e.cursor == |e.line| ==> Step(e, Delete) == e && Output(e, Delete) == ""
    ensures e.cursor == 0 ==> Step(e, Backspace) == e && Output(e, Backspace) == ""
    ensures !IsPrintableChar(c) ==> Step(e, Char(c)) == e && Output(e, Char(c)) == ""
  {}

  // A list of matches completes the line to all that they share: any text is a
  // prefix of the new line exactly when it is one of every match.
  lemma TabCompletes(e: Editor, matches: seq<string>, listing: string, q: string)
    requires e.cursor <= |e.line| && |matches| > 1 && Sorted(matches)
    ensures var r := Step(e, Tab(matches, listing));
            (q <= r.line <==> forall i :: 0 <= i < |matches| ==> q <= matches[i]) &&
            r.cursor == |r.line| && r.saved == e.saved
  {
    CommonPrefixOfAll(matches, q);
  }

  // A single match completes the line to the match and a blank, if the line is
  // what it starts with; without a match nothing happens.
  lemma TabSingle(e: Editor, match': string, listing: string)
    requires e.cursor <= |e.line| && e.line <= match'
    ensures Step(e, Tab([match'], listing)) == Editor(match' + " ", |match'| + 1, e.saved)
    ensures Step(e, Tab([], listing)) == e && Output(e, Tab([], listing)) == ""
  {
    assert e.line + (match'[|e.line|..] + " ") == match' + " ";
  }

  // After multi-match Tab the line extends what was typed exactly when every
  // match does.
  lemma TabKeepsTyped(e: Editor, matches: seq<string>, listing: string)
    requires e.cursor <= |e.line| && |matches| > 1 && Sorted(matches)
    ensures e.line <= Step(e, Tab(matches, listing)).line <==>
            forall i :: 0 <= i < |matches| ==> e.line <= matches[i]
  {
    CommonPrefixOfAll(matches, e.line);
  }
}

// The editor together with the input history and the terminal.
module Console {
  import opened Wrappers
  import opened Terminals
  import opened LineEditor
  import opened HistoryModel

  datatype Console = Console(editor: Editor, history: History, terminal: Terminal)

  // The presenter's answer to a key takes the place of the one it carries.
  function Answer(e: Editor, h: History, key: Key): (r: (Key, History))
    requires h.position <= |h.entries| <= CAPACITY
    ensures r.1.position <= |r.1.entries| <= CAPACITY
  {
    match key
    case Up(_) => var (h', previous) := Previous(h); (Up(previous), h')
    case Down(_) => var (h', next) := Next(h); (Down(next), h')
    case Enter => (Enter, Append(h, e.line))
    case _ => (key, h)
  }

  function Press(c: Console, key: Key): (r: Console)
    requires c.editor.cursor <= |c.editor.line| && c.history.position <= |c.history.entries| <= CAPACITY
    ensures r.editor.cursor <= |r.editor.line| && r.history.position <= |r.history.entries| <= CAPACITY
  {
    var (answered, h) := Answer(c.editor, c.history, key);
    if Throws(c.editor, answered) then c
    else Console(Step(c.editor, answered), h, Replay(c.terminal, Output(c.editor, answered)))
  }

  ghost predicate Good(c: Console) {
    LineEditor.Good(c.editor) && Inv(c.history)
  }

  ghost predicate Agrees(c: Console) {
    Shows(c.terminal, c.editor.line, c.editor.cursor)
  }

  lemma PressAgrees(c: Console, key: Key)
    requires Good(c) && Agrees(c) && GoodKey(key) && Admissible(c.editor, key)
    ensures Good(Press(c, key)) && Agrees(Press(c, key))
  {
    var answered := Answer(c.editor, c.history, key).0;
    match key {
      case Up(_) => DoKeeps(OpPrevious, c.history);
      case Down(_) => DoKeeps(OpNext, c.history);
      case Enter => DoKeeps(OpAppend(c.editor.line), c.history);
      case _ =>
    }
    StepGood(c.editor, answered);
    StepShows(c.terminal, c.editor, answered);
  }

  function PressAll(c: Console, keys: seq<Key>): (r: Console)
    requires c.editor.cursor <= |c.editor.line| && c.history.position <= |c.history.entries| <= CAPACITY
    ensures r.editor.cursor <= |r.editor.line| && r.history.position <= |r.history.entries| <= CAPACITY
  {
    if keys == [] then c else Press(PressAll(c, keys[..|keys| - 1]), keys[|keys| - 1])
  }

  ghost predicate AllAdmissible(c: Console, keys: seq<Key>)
    requires c.editor.cursor <= |c.editor.line| && c.history.position <= |c.history.entries| <= CAPACITY
  {
    forall i :: 0 <= i < |keys| ==> GoodKey(keys[i]) && Admissible(PressAll(c, keys[..i]).editor, keys[i])
  }

  // For every sequence of keys the screen shows the line, and the cursor is
  // where the program believes it to be.
  lemma {:induction false} ScreenAgrees(c: Console, keys: seq<Key>)
    requires Good(c) && Agrees(c) && AllAdmissible(c, keys)
    ensures Good(PressAll(c, keys)) && Agrees(PressAll(c, keys))
  {
    if keys != [] {
      var init := keys[..|keys| - 1];
      forall i | 0 <= i < |init| ensures GoodKey(init[i]) && Admissible(PressAll(c, init[..i]).editor, init[i]) {
        assert init[..i] == keys[..i] && init[i] == keys[i];
      }
      ScreenAgrees(c, init);
      PressAgrees(PressAll(c, init), keys[|keys| - 1]);
    }
  }

  lemma ScreenAgreesFromEmpty(h: History, keys: seq<Key>)
    requires Inv(h) && AllAdmissible(Console(EMPTY, h, Terminal("", 0)), keys)
    ensures var r := PressAll(Console(EMPTY, h, Terminal("", 0)), keys);
            Agrees(r) && r.editor.cursor <= |r.editor.line|
  {
    ScreenAgrees(Console(EMPTY, h, Terminal("", 0)), keys);
  }

  // ---- recalling history and recovering the draft -------------------------

  predicate IsBrowsing(key: Key) {
    key.Up? || key.Down?
  }

  // What one Up or Down does to line, draft and history.
  lemma PressUp(c: Console)
    requires c.editor.cursor <= |c.editor.line| && c.history.position <= |c.history.entries| <= CAPACITY
    ensures var r, p, e := Press(c, Up(None)), c.history.position, c.editor;
            r.history == (if p == 0 then c.history else c.history.(position := p - 1)) &&
            r.editor == (if p == 0 then e else Shown(c.history.entries[p - 1], Some(Draft(e))))
  {}

  lemma PressDown(c: Console)
    requires c.editor.cursor <= |c.editor.line| && c.history.position <= |c.history.entries| <= CAPACITY
    ensures var r, n, e := Press(c, Down(None)), |c.history.entries|, c.editor;
            var p := if c.history.position < n then c.history.position + 1 else n;
            r.history == c.history.(position := p) &&
            r.editor == (if p < n then Shown(c.history.entries[p], e.saved)
                         else if e.saved.Some? then Shown(e.saved.value, None) else e)
  {}

  // The answer that a key carries is replaced by that of the history.
  lemma PressAny(c: Console, answer: Option<string>)
    requires c.editor.cursor <= |c.editor.line| && c.history.position <= |c.history.entries| <= CAPACITY
    ensures Press(c, Up(answer)) == Press(c, Up(None)) && Press(c, Down(answer)) == Press(c, Down(None))
  {}

  ghost predicate Browses(c: Console, draft: string, entries: seq<string>) {
    c.editor.cursor <= |c.editor.line| && c.history.entries == entries && |entries| <= CAPACITY &&
    c.history.position <= |entries| &&
    if c.history.position == |entries| then c.editor.line == draft && c.editor.saved == None
    else c.editor.line == entries[c.history.position] && c.editor.saved == Some(draft)
  }

  lemma BrowsingStep(c: Console, key: Key, draft: string, entries: seq<string>)
    requires Browses(c, draft, entries) && IsBrowsing(key)
    ensures Browses(Press(c, key), draft, entries)
  {
    match key
    case Up(answer) =>
      PressAny(c, answer);
      PressUp(c);
    case Down(answer) =>
      PressAny(c, answer);
      PressDown(c);
  }

  // Over any mix of Up and Down the line is the entry at the history cursor,
  // or the draft exactly at its end.
  lemma {:induction false} BrowsingShows(c: Console, keys: seq<Key>, draft: string, entries: seq<string>)
    requires Browses(c, draft, entries) && forall i :: 0 <= i < |keys| ==> IsBrowsing(keys[i])
    ensures Browses(PressAll(c, keys), draft, entries)
  {
    if keys != [] {
      BrowsingShows(c, keys[..|keys| - 1], draft, entries);
      BrowsingStep(PressAll(c, keys[..|keys| - 1]), keys[|keys| - 1], draft, entries);
    }
  }

  function Ups(n: nat): (keys: seq<Key>)
    ensures |keys| == n
  {
    if n == 0 then [] else Ups(n - 1) + [Up(None)]
  }

  function Downs(n: nat): (keys: seq<Key>)
    ensures |keys| == n
  {
    if n == 0 then [] else Downs(n - 1) + [Down(None)]
  }

  lemma {:induction false} PressAppend(c: Console, a: seq<Key>, b: seq<Key>)
    requires c.editor.cursor <= |c.editor.line| && c.history.position <= |c.history.entries| <= CAPACITY
    ensures PressAll(c, a + b) == PressAll(PressAll(c, a), b)
  {
    if b == [] {
      assert a + b == a;
    } else {
      assert (a + b)[..|a + b| - 1] == a + b[..|b| - 1];
      PressAppend(c, a, b[..|b| - 1]);
    }
  }

  // The draft that browsing will bring back.
  function Draft(e: Editor): string {
    e.saved.GetOr(e.line)
  }

  lemma {:induction false} UpsGo(c: Console, k: nat)
    requires c.editor.cursor <= |c.editor.line| && c.history.position == |c.history.entries| <= CAPACITY
    ensures var r, n := PressAll(c, Ups(k)), |c.history.entries|;
            r.history.entries == c.history.entries &&
            r.history.position == (if k < n then n - k else 0) &&
            if k == 0 || n == 0 then r.editor == c.editor
            else r.editor.line == c.history.entries[r.history.position] && r.editor.saved == Some(Draft(c.editor))
  {
    if k > 0 {
      UpsGo(c, k - 1);
      assert Ups(k)[..k - 1] == Ups(k - 1);
      PressUp(PressAll(c, Ups(k - 1)));
    }
  }

  lemma {:induction false} DownsGo(c: Console, k: nat)
    requires c.editor.cursor <= |c.editor.line| && c.history.position < |c.history.entries| <= CAPACITY
    requires c.editor.saved.Some? && k > 0
    ensures var r, n, p := PressAll(c, Downs(k)), |c.history.entries|, c.history.position + k;
            r.history.entries == c.history.entries &&
            r.history.position == (if p < n then p else n) &&
            if p < n then r.editor.line == c.history.entries[p] && r.editor.saved == c.editor.saved
            else r.editor.line == c.editor.saved.value && r.editor.saved == None
  {
    assert Downs(k)[..k - 1] == Downs(k - 1);
    if k > 1 {
      DownsGo(c, k - 1);
    }
    PressDown(PressAll(c, Downs(k - 1)));
  }

  lemma {:induction false} DownsStay(c: Console, k: nat)
    requires c.editor.cursor <= |c.editor.line| && c.history.position == |c.history.entries| <= CAPACITY && k > 0
    ensures var r := PressAll(c, Downs(k));
            r.history == c.history && r.editor.line == Draft(c.editor) && r.editor.saved == None
  {
    assert Downs(k)[..k - 1] == Downs(k - 1);
    if k > 1 {
      DownsStay(c, k - 1);
    }
    PressDown(PressAll(c, Downs(k - 1)));
  }

  // Up k times and Down k times, from the end of the history.
  lemma UpsAndDowns(c: Console, k: nat)
    requires c.editor.cursor <= |c.editor.line| && c.history.position == |c.history.entries| <= CAPACITY && k > 0
    ensures PressAll(c, Ups(k) + Downs(k)).editor.line == Draft(c.editor)
  {
    PressAppend(c, Ups(k), Downs(k));
    UpsGo(c, k);
    if c.history.entries == [] {
      DownsStay(PressAll(c, Ups(k)), k);
    } else {
      DownsGo(PressAll(c, Ups(k)), k);
    }
  }

  // They bring back the line exactly when no other draft is still saved.
  lemma RecoveryExactly(c: Console, k: nat)
    requires c.editor.cursor <= |c.editor.line| && c.history.position == |c.history.entries| <= CAPACITY && k > 0
    ensures PressAll(c, Ups(k) + Downs(k)).editor.line == c.editor.line <==>
            c.editor.saved == None || c.editor.saved == Some(c.editor.line)
  {
    UpsAndDowns(c, k);
  }

  // Enter leaves the saved draft, so it can come back over the next line.
  lemma StaleDraft(c: Console)
    requires c.editor.cursor <= |c.editor.line| && c.editor.saved == None
    requires 0 < |c.history.entries| <= CAPACITY && c.history.position == |c.history.entries|
    ensures PressAll(c, [Up(None), Enter, Down(None)]).editor.line == c.editor.line
    ensures PressAll(c, [Up(None), Enter]).editor == Editor("", 0, Some(c.editor.line))
  {
    var keys := [Up(None), Enter, Down(None)];
    assert keys[..2] == [Up(None), Enter] && [Up(None), Enter][..1] == [Up(None)];
    assert Ups(1) == Ups(0) + [Up(None)] == [Up(None)];
    UpsGo(c, 1);
    EnterThenDown(PressAll(c, [Up(None)]));
  }

  lemma EnterThenDown(c: Console)
    requires c.editor.cursor <= |c.editor.line| && c.history.position <= |c.history.entries| <= CAPACITY
    requires c.editor.saved.Some?
    ensures Press(c, Enter).editor == Editor("", 0, c.editor.saved)
    ensures Press(Press(c, Enter), Down(None)).editor.line == c.editor.saved.value
  {
    assert Press(c, Enter).history.position == |Press(c, Enter).history.entries|;
  }
}
