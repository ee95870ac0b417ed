// The class that owns the flat command-line string and edits it in place
// (libs/core/src/core/cmdline_args.cpp).
module CmdLineStore {
  import opened Wrappers
  import opened Strings
  import opened CmdLineText
  import opened CmdLineTokens
  import opened CmdLinePairs

  class CmdLineArgs {
    var arguments: string

    constructor (text: string)
      ensures arguments == text
    {
      arguments := text;
    }

    method FindArgumentPos(arg: string) returns (pos: int)
      requires arg != ""
      ensures pos == FindPos(arguments, arg)
    {
      var name := StripPrefix(arg);
      var pos1 := RFind(arguments, "+" + name);
      var pos2 := RFind(arguments, "-" + name);
      if pos1 == -1 {
        return pos2;
      }
      if pos2 == -1 {
        return pos1;
      }
      pos := if pos1 < pos2 then pos2 else pos1;
    }

    method GetArgumentOptionAt(arg: string, pos: int) returns (option: Option<string>)
      requires -1 <= pos
      ensures option == if pos == -1 then None else OptionAt(arguments, arg, pos)
    {
      if pos != -1 {
        var newPos := pos + |arg| + 1;
        while newPos < |arguments| && arguments[newPos] == ' '
          invariant SkipBlanks(arguments, newPos) == SkipBlanks(arguments, pos + |arg| + 1)
        {
          newPos := newPos + 1;
        }
        if newPos < |arguments| && arguments[newPos] != '+' && arguments[newPos] != '-' {
          var endPos := newPos;
          while endPos < |arguments| && arguments[endPos] != ' '
            invariant newPos <= endPos <= |arguments|
            invariant TakeToken(arguments, newPos) == arguments[newPos..endPos] + TakeToken(arguments, endPos)
          {
            TakeTokenStep(arguments, newPos, endPos);
            endPos := endPos + 1;
          }
          assert arguments[newPos..endPos] + "" == arguments[newPos..endPos];
          return Some(arguments[newPos..endPos]);
        }
      }
      option := None;
    }

    method GetArgumentOption(arg: string) returns (option: Option<string>)
      requires arg != ""
      ensures option == GetOption(arguments, arg)
    {
      var pos := FindArgumentPos(arg);
      option := GetArgumentOptionAt(arg, pos);
    }

    method Contains(arg: string) returns (found: bool)
      requires arg != ""
      ensures found == CmdLineText.Contains(arguments, arg)
    {
      var pos := FindArgumentPos(arg);
      found := pos != -1;
    }

    method Remove(arg: string)
      requires arg != "" && StripPrefix(arg) != ""
      modifies this
      ensures arguments == RemoveAll(old(arguments), StripPrefix(arg))
      ensures !CmdLineText.Contains(arguments, StripPrefix(arg))
      ensures IsName(StripPrefix(arg)) ==>
        forall ps | Valid(ps) && SeparatedArgs(ps, StripPrefix(arg)) && Render(ps) == old(arguments) ::
          arguments == Render(Keep(ps, StripPrefix(arg)))
    {
      RemoveNamed(StripPrefix(arg));
      if IsName(StripPrefix(arg)) {
        RemoveRenders(StripPrefix(arg));
      }
    }

    // The loop of Remove. It ends on every text: each round erases at least
    // one character.
    method RemoveNamed(name: string)
      requires name != ""
      modifies this
      ensures arguments == RemoveAll(old(arguments), name)
    {
      var pos := FindArgumentPos(name);
      while pos != -1
        invariant pos == FindPos(arguments, name)
        invariant RemoveAll(arguments, name) == RemoveAll(old(arguments), name)
        decreases |arguments|
      {
        RemoveAt(name, pos);
        pos := FindArgumentPos(name);
      }
    }

    // One round: the argument at pos, its option, and one blank beside them.
    method RemoveAt(name: string, pos: nat)
      requires name != "" && pos == FindPos(arguments, name)
      modifies this
      ensures arguments == RemoveOnce(old(arguments), name)
    {
      var numCharsToRemove := 1 + |name| + 1;
      var option := GetArgumentOptionAt(name, pos);
      if option.Some? {
        numCharsToRemove := numCharsToRemove + |option.value| + 1;
      }
      RemoveOnceFrom(arguments, name, pos, option);
      arguments := Erase(arguments, if pos > 0 then pos - 1 else pos, numCharsToRemove);
    }

    method PushFront(arg: string, option: string)
      modifies this
      ensures arguments == CmdLineText.PushFront(old(arguments), arg, option)
    {
      var a := Trim(arg);
      if !IsValidArgument(a) {
        return;
      }
      Remove(a);
      var o := Trim(option);
      if o == "" {
        arguments := a + " " + arguments;
      } else {
        arguments := a + " " + o + " " + arguments;
      }
      arguments := Trim(arguments);
    }

    method PushBack(arg: string, option: string)
      modifies this
      ensures arguments == CmdLineText.PushBack(old(arguments), arg, option)
    {
      var a := Trim(arg);
      if !IsValidArgument(a) {
        return;
      }
      Remove(a);
      var o := Trim(option);
      if o == "" {
        arguments := arguments + (" " + a);
      } else {
        arguments := arguments + (" " + a + " " + o);
      }
      arguments := Trim(arguments);
    }
  }
}
