// The class that edits the input line and prints each change
// (libs/view/src/view/console_input.cpp).
module ConsoleInputs {
  import opened Wrappers
  import opened Strings
  import opened Terminals
  import opened LineEditor
  import opened CommandMatches
  import opened Presenters
  import HistoryModel
  import ServerProtocol
  import Console

  class ConsoleInput {
    const presenter: InputPresenter
    var inputLine: string
    var savedInput: Option<string>
    var cursorPosition: nat
    // Everything printed so far.
    var out: string

    ghost predicate Valid()
      reads this, presenter, presenter.history, presenter.history.history, presenter.disk
    {
      presenter.Valid() && cursorPosition <= |inputLine|
    }

    ghost function Value(): Editor
      reads this
    {
      Editor(inputLine, cursorPosition, savedInput)
    }

    // The new line and the new output are those of the key.
    twostate predicate Did(key: Key)
      requires old(cursorPosition <= |inputLine|)
      reads this
    {
      !Throws(old(Value()), key) && Value() == Step(old(Value()), key) && out == old(out) + Output(old(Value()), key)
    }

    constructor (presenter: InputPresenter)
      requires presenter.Valid()
      ensures Valid() && this.presenter == presenter && Value() == EMPTY && out == ""
    {
      this.presenter := presenter;
      inputLine, savedInput, cursorPosition, out := "", None, 0, "";
    }

    method HandleLeftArrow()
      requires Valid()
      modifies this
      ensures Valid() && Did(Left)
    {
      if cursorPosition == 0 {
        assert out == out + "";
        return;
      }
      out := out + BACK;
      cursorPosition := cursorPosition - 1;
    }

    method HandleRightArrow()
      requires Valid()
      modifies this`out, this`cursorPosition
      ensures Valid() && Did(Right)
    {
      if |inputLine| == cursorPosition {
        assert out == out + "";
        return;
      }
      out := out + [inputLine[cursorPosition]];
      cursorPosition := cursorPosition + 1;
    }

    // Prints n backspaces.
    method PrintBack(n: nat)
      modifies this`out
      ensures out == old(out) + Repeat(BACK, n)
    {
      var i := n;
      while i > 0
        invariant 0 <= i <= n && out == old(out) + Repeat(BACK, n - i)
      {
        assert Repeat(BACK, n - i + 1) == Repeat(BACK, n - i) + BACK;
        Assoc(old(out), Repeat(BACK, n - i), BACK);
        out := out + BACK;
        i := i - 1;
      }
    }

    method HandleBackspace()
      requires Valid()
      modifies this
      ensures Valid() && Did(Backspace)
    {
      if cursorPosition == 0 || inputLine == "" {
        assert out == out + "";
        return;
      }
      cursorPosition := cursorPosition - 1;
      inputLine := inputLine[..cursorPosition] + inputLine[cursorPosition + 1..];
      out := out + BACK;
      PrintTail();
      Assoc(old(out), BACK, TailOutput(inputLine, cursorPosition));
    }

    method HandleDelete()
      requires Valid()
      modifies this
      ensures Valid() && Did(Delete)
    {
      if cursorPosition >= |inputLine| {
        assert out == out + "";
        return;
      }
      inputLine := inputLine[..cursorPosition] + inputLine[cursorPosition + 1..];
      PrintTail();
    }

    // The rest of the line, a blank, and back to the cursor.
    method PrintTail()
      requires cursorPosition <= |inputLine|
      modifies this`out
      ensures out == old(out) + TailOutput(inputLine, cursorPosition)
    {
      var rest := CString(inputLine[cursorPosition..]);
      var n := |inputLine| + 1 - cursorPosition;
      out := out + rest;
      out := out + " ";
      PrintBack(n);
      Assoc(old(out) + rest, " ", Repeat(BACK, n));
      Assoc(old(out), rest, " " + Repeat(BACK, n));
      Assoc(rest, " ", Repeat(BACK, n));
    }

    method HandleHome()
      requires Valid()
      modifies this
      ensures Valid() && Did(Home)
    {
      if cursorPosition != 0 {
        cursorPosition := 0;
        out := out + "\r";
      } else {
        assert out == out + "";
      }
    }

    method HandleEnd()
      requires Valid()
      modifies this`out, this`cursorPosition
      ensures Valid() && Did(End)
    {
      assert out == out + inputLine[cursorPosition..cursorPosition];
      while cursorPosition < |inputLine|
        invariant old(cursorPosition) <= cursorPosition <= |inputLine|
        invariant out == old(out) + inputLine[old(cursorPosition)..cursorPosition]
      {
        ghost var printed := inputLine[old(cursorPosition)..cursorPosition];
        assert inputLine[old(cursorPosition)..cursorPosition + 1] == printed + [inputLine[cursorPosition]];
        Assoc(old(out), printed, [inputLine[cursorPosition]]);
        HandleRightArrow();
      }
    }

    method ClearInput()
      requires Valid()
      modifies this`out, this`cursorPosition
      ensures Valid() && cursorPosition == |inputLine| && out == old(out) + ClearOutput(old(Value()))
    {
      if inputLine == "" {
        assert out == out + ("" + "");
        return;
      }
      HandleEnd();
      ghost var tail := inputLine[old(cursorPosition)..];
      var i := |inputLine|;
      assert out == old(out) + tail + "";
      while i > 0
        invariant 0 <= i <= |inputLine| == cursorPosition
        invariant out == old(out) + tail + Repeat(RUBOUT, |inputLine| - i)
      {
        Assoc(old(out) + tail, Repeat(RUBOUT, |inputLine| - i), RUBOUT);
        out := out + RUBOUT;
        i := i - 1;
      }
      Assoc(old(out), tail, Repeat(RUBOUT, |inputLine|));
    }

    // Puts a line in the place of the one that was cleared.
    method Show(line: string)
      modifies this`inputLine, this`cursorPosition, this`out
      ensures inputLine == line && cursorPosition == |line| && out == old(out) + line
    {
      inputLine := line;
      out := out + inputLine;
      cursorPosition := |inputLine|;
    }

    method HandleUpArrow()
      requires Valid()
      modifies this, presenter.history
      ensures Valid()
      ensures var (key, h) := Console.Answer(old(Value()), old(presenter.history.Value()), Up(None));
              Did(key) && presenter.history.Value() == h
    {
      var previous := presenter.HistoryPrevious();
      if previous.Some? {
        if savedInput == None {
          savedInput := Some(inputLine);
        }
        ClearInput();
        Assoc(old(out), ClearOutput(old(Value())), previous.value);
        Show(previous.value);
      } else {
        assert out == out + "";
      }
    }

    method HandleDownArrow()
      requires Valid()
      modifies this, presenter.history
      ensures Valid()
      ensures var (key, h) := Console.Answer(old(Value()), old(presenter.history.Value()), Down(None));
              Did(key) && presenter.history.Value() == h
    {
      var next := presenter.HistoryNext();
      if next.Some? || savedInput.Some? {
        ClearInput();
        if next.Some? {
          Assoc(old(out), ClearOutput(old(Value())), next.value);
          Show(next.value);
        } else {
          var saved := savedInput.value;
          savedInput := None;
          Assoc(old(out), ClearOutput(old(Value())), saved);
          Show(saved);
        }
      } else {
        assert out == out + "";
      }
    }

    // Blocks until the server loop has run the task; listing is what
    // print_command_matches prints. True when substr throws.
    method HandleTab(task: ServerProtocol.Task, attached: bool, objects: seq<Option<string>>, listing: string)
      returns (threw: bool)
      requires Valid()
      modifies this, presenter.serverLoop.taskQueue
      ensures Valid() && presenter.serverLoop.taskQueue.queue == old(presenter.serverLoop.taskQueue.queue) + [task]
      ensures var key := Tab(Matches(attached, old(inputLine), objects), listing);
              threw == Throws(old(Value()), key) && (!threw ==> Did(key))
    {
      var matches := presenter.FindCommandMatches(inputLine, task, attached, objects);
      threw := false;
      if matches == [] {
        assert out == out + "";
        return;
      }
      if |matches| == 1 {
        if |inputLine| > |matches[0]| {
          return true;
        }
        var completion := matches[0][|inputLine|..] + " ";
        inputLine := inputLine + completion;
        out := out + completion;
      } else {
        ClearInput();
        ghost var cleared := ClearOutput(old(Value()));
        var prefix := FindCommonPrefix(matches);
        out := out + "\n";
        out := out + listing;
        out := out + "\n";
        ListOutput(old(out), cleared, listing, prefix);
        Show(prefix);
      }
      cursorPosition := |inputLine|;
    }

    static lemma ListOutput(before: string, cleared: string, listing: string, prefix: string)
      ensures before + cleared + "\n" + listing + "\n" + prefix ==
              before + (cleared + "\n" + listing + "\n" + prefix)
    {}

    method HandleNewline()
      requires Valid()
      modifies this, presenter.serverLoop.inputQueue, presenter.disk
      modifies presenter.history, presenter.history.history, presenter.history.history.buffer
      ensures Valid() && Did(Enter)
      ensures presenter.history.Value() == HistoryModel.Append(old(presenter.history.Value()), old(inputLine))
      ensures presenter.serverLoop.inputQueue.queue ==
              old(presenter.serverLoop.inputQueue.queue) + [old(inputLine) + "\n"]
    {
      out := out + "\n";
      presenter.EnqueueInput(inputLine);
      inputLine := "";
      cursorPosition := 0;
    }

    method HandleChar(c: char)
      requires Valid()
      modifies this
      ensures Valid() && Did(Char(c))
    {
      if !IsPrintableChar(c) {
        assert out == out + "";
        return;
      }
      inputLine := inputLine[..cursorPosition] + [c] + inputLine[cursorPosition..];
      var rest := CString(inputLine[cursorPosition..]);
      out := out + rest;
      cursorPosition := cursorPosition + 1;
      PrintBack(|inputLine| - cursorPosition);
      Assoc(old(out), rest, Repeat(BACK, |inputLine| - cursorPosition));
    }
  }
}
