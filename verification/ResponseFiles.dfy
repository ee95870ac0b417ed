// Building the command line from the program arguments, with "@file" replaced
// by the contents of the file (libs/core/src/core/cmdline_args.cpp).
module ResponseFiles {
  import opened Strings
  import opened CmdLineText

  // The readable files: path to content.
  type Files = map<string, string>

  predicate IsReference(arg: string, files: Files) {
    |arg| > 1 && arg[0] == '@' && arg[1..] in files
  }

  // Empty arguments, lone prefixes and unreadable files add nothing at all.
  predicate IsSkipped(arg: string, files: Files) {
    arg == "" || (|arg| == 1 && IsPrefixChar(arg[0])) || (arg[0] == '@' && arg[1..] !in files)
  }

  // References go down in rank: below the bound from the arguments, and below
  // its own rank from each file.
  ghost predicate Below(args: seq<string>, files: Files, rank: map<string, nat>, bound: nat) {
    forall i :: 0 <= i < |args| && IsReference(args[i], files) ==>
      args[i][1..] in rank && rank[args[i][1..]] < bound
  }

  ghost predicate Acyclic(files: Files, rank: map<string, nat>) {
    rank.Keys == files.Keys && forall f :: f in files ==> Below(Split(files[f]), files, rank, rank[f])
  }

  // The tokens meant: every argument and file content flattened in order.
  ghost function Flatten(args: seq<string>, files: Files, rank: map<string, nat>, bound: nat): seq<string>
    requires Acyclic(files, rank) && Below(args, files, rank, bound)
    decreases bound, |args|
  {
    if args == [] then []
    else
      var arg := args[|args| - 1];
      Flatten(args[..|args| - 1], files, rank, bound) +
      (if IsSkipped(arg, files) then []
       else if arg[0] == '@' then Flatten(Split(files[arg[1..]]), files, rank, rank[arg[1..]])
       else Split(arg))
  }

  // The text that one kept argument contributes.
  ghost function Piece(arg: string, files: Files, rank: map<string, nat>, bound: nat): string
    requires Acyclic(files, rank) && Below([arg], files, rank, bound) && !IsSkipped(arg, files)
    decreases bound, 0
  {
    if arg[0] == '@' then
      assert IsReference([arg][0], files);
      Build(Split(files[arg[1..]]), files, rank, rank[arg[1..]])
    else arg
  }

  // The loop's string after all arguments.
  ghost function Body(args: seq<string>, files: Files, rank: map<string, nat>, bound: nat): string
    requires Acyclic(files, rank) && Below(args, files, rank, bound)
    decreases bound, 1, |args|
  {
    if args == [] then ""
    else
      var arg := args[|args| - 1];
      Body(args[..|args| - 1], files, rank, bound) +
      (if IsSkipped(arg, files) then ""
       else assert Below([arg], files, rank, bound); Piece(arg, files, rank, bound) + " ")
  }

  ghost function Build(args: seq<string>, files: Files, rank: map<string, nat>, bound: nat): string
    requires Acyclic(files, rank) && Below(args, files, rank, bound)
    decreases bound, 2
  {
    Trim(Body(args, files, rank, bound))
  }

  // The recursion ends because references go down in rank.
  method BuildArgumentsString(args: seq<string>, files: Files, ghost rank: map<string, nat>, ghost bound: nat)
    returns (result: string)
    requires Acyclic(files, rank) && Below(args, files, rank, bound)
    ensures result == Build(args, files, rank, bound)
    ensures Split(result) == Flatten(args, files, rank, bound)
    decreases bound
  {
    var text := "";
    for i := 0 to |args|
      invariant text == Body(args[..i], files, rank, bound)
    {
      var arg := args[i];
      assert args[..i + 1][..i] == args[..i] && args[..i + 1][i] == arg;
      if arg == "" || (|arg| == 1 && IsPrefixChar(arg[0])) {
        continue;
      }
      if arg[0] == '@' {
        if arg[1..] in files {
          assert IsReference(args[i], files);
          var inner := BuildArgumentsString(Split(files[arg[1..]]), files, rank, rank[arg[1..]]);
          text := text + (inner + " ");
        }
      } else {
        text := text + (arg + " ");
      }
    }
    assert args[..|args|] == args;
    BuildFlattens(args, files, rank, bound);
    result := Trim(text);
  }

  // A text that is empty or ends in white space splits apart from what follows.
  lemma SplitAfterSpace(a: string, b: string)
    requires a == "" || IsSpace(a[|a| - 1])
    ensures Split(a + b) == Split(a) + Split(b)
  {
    if a == "" {
      assert a + b == b;
    } else {
      var c, blank := a[..|a| - 1], a[|a| - 1];
      SplitBlank(c, blank, b);
      assert a == c + [blank];
      Assoc(c, [blank], b);
    }
  }

  lemma SplitPiece(a: string, piece: string)
    requires a == "" || a[|a| - 1] == ' '
    ensures Split(a + (piece + " ")) == Split(a) + Split(piece)
  {
    SplitAfterSpace(a, piece + " ");
    SplitAppend(piece, " ");
    assert " "[1..] == "";
  }

  lemma {:induction false} BodyEnds(args: seq<string>, files: Files, rank: map<string, nat>, bound: nat)
    requires Acyclic(files, rank) && Below(args, files, rank, bound)
    ensures var b := Body(args, files, rank, bound); b == "" || b[|b| - 1] == ' '
    decreases |args|
  {
    if args != [] {
      BodyEnds(args[..|args| - 1], files, rank, bound);
    }
  }

  // White-space splitting the built text gives the flattened tokens, on every
  // acyclic set of files, even where an empty file leaves two blanks.
  lemma {:induction false} BuildFlattens(args: seq<string>, files: Files, rank: map<string, nat>, bound: nat)
    requires Acyclic(files, rank) && Below(args, files, rank, bound)
    ensures Split(Body(args, files, rank, bound)) == Flatten(args, files, rank, bound)
    ensures Split(Build(args, files, rank, bound)) == Flatten(args, files, rank, bound)
    decreases bound, |args|
  {
    SplitTrim(Body(args, files, rank, bound));
    if args != [] {
      var init, arg := args[..|args| - 1], args[|args| - 1];
      BuildFlattens(init, files, rank, bound);
      if !IsSkipped(arg, files) {
        if arg[0] == '@' {
          assert IsReference(args[|args| - 1], files);
          BuildFlattens(Split(files[arg[1..]]), files, rank, rank[arg[1..]]);
        }
        BelowPart(args, files, rank, bound, |args| - 1);
        KeptFlattens(args, files, rank, bound);
      } else {
        assert Body(init, files, rank, bound) + "" == Body(init, files, rank, bound);
      }
    }
  }

  lemma KeptFlattens(args: seq<string>, files: Files, rank: map<string, nat>, bound: nat)
    requires Acyclic(files, rank) && Below(args, files, rank, bound) && args != []
    requires !IsSkipped(args[|args| - 1], files) && Below([args[|args| - 1]], files, rank, bound)
    requires Split(Body(args[..|args| - 1], files, rank, bound)) == Flatten(args[..|args| - 1], files, rank, bound)
    requires Split(Piece(args[|args| - 1], files, rank, bound)) == FlattenOne(args[|args| - 1], files, rank, bound)
    ensures Split(Body(args, files, rank, bound)) == Flatten(args, files, rank, bound)
  {
    var init, arg := args[..|args| - 1], args[|args| - 1];
    BodyEnds(init, files, rank, bound);
    SplitPiece(Body(init, files, rank, bound), Piece(arg, files, rank, bound));
  }

  // What one more argument does to the words of the result. An argument other
  // than these adds its words, however short it is.
  lemma WordAdds(args: seq<string>, arg: string, files: Files, rank: map<string, nat>, bound: nat)
    requires Acyclic(files, rank) && Below(args + [arg], files, rank, bound) && Below(args, files, rank, bound)
    requires arg != "" && arg != "-" && arg != "+" && arg[0] != '@'
    ensures Split(Build(args + [arg], files, rank, bound)) == Split(Build(args, files, rank, bound)) + Split(arg)
  {
    BuildFlattens(args + [arg], files, rank, bound);
    BuildFlattens(args, files, rank, bound);
    assert (args + [arg])[..|args|] == args;
    assert |arg| == 1 ==> arg == [arg[0]];
  }

  // An empty argument, a lone prefix or an unreadable file adds nothing.
  lemma SkippedAdds(args: seq<string>, arg: string, files: Files, rank: map<string, nat>, bound: nat)
    requires Acyclic(files, rank) && Below(args + [arg], files, rank, bound) && Below(args, files, rank, bound)
    requires arg == "" || arg == "-" || arg == "+" || arg == "@" || (arg[0] == '@' && arg[1..] !in files)
    ensures Split(Build(args + [arg], files, rank, bound)) == Split(Build(args, files, rank, bound))
  {
    BuildFlattens(args + [arg], files, rank, bound);
    BuildFlattens(args, files, rank, bound);
    assert (args + [arg])[..|args|] == args;
    assert Flatten(args, files, rank, bound) + [] == Flatten(args, files, rank, bound);
  }

  // A readable file adds the words that its own words build.
  lemma FileAdds(args: seq<string>, f: string, files: Files, rank: map<string, nat>, bound: nat)
    requires Acyclic(files, rank) && Below(args + ["@" + f], files, rank, bound) && Below(args, files, rank, bound)
    requires f != "" && f in files
    ensures Split(Build(args + ["@" + f], files, rank, bound)) ==
            Split(Build(args, files, rank, bound)) + Split(Build(Split(files[f]), files, rank, rank[f]))
  {
    var ref := "@" + f;
    assert ref[1..] == f;
    BuildFlattens(args + [ref], files, rank, bound);
    BuildFlattens(args, files, rank, bound);
    BuildFlattens(Split(files[f]), files, rank, rank[f]);
    assert (args + [ref])[..|args|] == args && (args + [ref])[|args|] == ref;
  }

  // ---- when the result is canonical ---------------------------------------

  // What one kept argument flattens to.
  ghost function FlattenOne(arg: string, files: Files, rank: map<string, nat>, bound: nat): seq<string>
    requires Acyclic(files, rank) && Below([arg], files, rank, bound) && !IsSkipped(arg, files)
  {
    if arg[0] == '@' then
      assert IsReference([arg][0], files);
      Flatten(Split(files[arg[1..]]), files, rank, rank[arg[1..]])
    else Split(arg)
  }

  lemma BelowPart(args: seq<string>, files: Files, rank: map<string, nat>, bound: nat, i: nat)
    requires i < |args| && Below(args, files, rank, bound)
    ensures Below(args[..i], files, rank, bound) && Below([args[i]], files, rank, bound)
    ensures Below(args[i + 1..], files, rank, bound)
  {
    assert IsReference([args[i]][0], files) ==> IsReference(args[i], files);
    var rest := args[i + 1..];
    forall j | 0 <= j < |rest| && IsReference(rest[j], files)
      ensures rest[j][1..] in rank && rank[rest[j][1..]] < bound
    {
      assert rest[j] == args[i + 1 + j];
    }
  }

  // White space comes before the tokens of the argument, or there are none.
  ghost predicate LooseFront(arg: string, files: Files, rank: map<string, nat>, bound: nat)
    requires Acyclic(files, rank) && Below([arg], files, rank, bound) && !IsSkipped(arg, files)
  {
    FlattenOne(arg, files, rank, bound) == [] || (arg[0] != '@' && IsSpace(arg[0]))
  }

  ghost predicate LooseBack(arg: string, files: Files, rank: map<string, nat>, bound: nat)
    requires Acyclic(files, rank) && Below([arg], files, rank, bound) && !IsSkipped(arg, files)
  {
    FlattenOne(arg, files, rank, bound) == [] || (arg[0] != '@' && IsSpace(arg[|arg| - 1]))
  }

  // Argument i puts more than a blank between two tokens: a file that adds
  // nothing does, and so does white space at an end of the argument.
  ghost predicate SplitsApart(args: seq<string>, i: nat, files: Files, rank: map<string, nat>, bound: nat)
    requires Acyclic(files, rank) && Below(args, files, rank, bound)
    requires i < |args| && !IsSkipped(args[i], files)
  {
    BelowPart(args, files, rank, bound, i);
    var before, after := Flatten(args[..i], files, rank, bound), Flatten(args[i + 1..], files, rank, bound);
    var own := FlattenOne(args[i], files, rank, bound);
    (LooseFront(args[i], files, rank, bound) && before != [] && own + after != []) ||
    (LooseBack(args[i], files, rank, bound) && before + own != [] && after != [])
  }

  // The argument has no gap within it, or in the file that it reads.
  ghost predicate Tight(arg: string, files: Files, rank: map<string, nat>, bound: nat)
    requires Acyclic(files, rank) && Below([arg], files, rank, bound)
    decreases bound, 0
  {
    IsSkipped(arg, files) ||
    if arg[0] == '@' then
      IsReference([arg][0], files) && NoGap(Split(files[arg[1..]]), files, rank, rank[arg[1..]])
    else IsCanonical(Trim(arg))
  }

  // Nothing splits tokens apart: not between the arguments, not within one, and
  // not in any file read.
  ghost predicate NoGap(args: seq<string>, files: Files, rank: map<string, nat>, bound: nat)
    requires Acyclic(files, rank) && Below(args, files, rank, bound)
    decreases bound, 1
  {
    forall i :: 0 <= i < |args| && !IsSkipped(args[i], files) ==>
      (BelowPart(args, files, rank, bound, i); Tight(args[i], files, rank, bound)) &&
      !SplitsApart(args, i, files, rank, bound)
  }

  // Argument i leaves more than a blank behind the last token.
  ghost predicate TrailsAt(args: seq<string>, i: nat, files: Files, rank: map<string, nat>, bound: nat)
    requires Acyclic(files, rank) && Below(args, files, rank, bound)
    requires i < |args| && !IsSkipped(args[i], files)
  {
    BelowPart(args, files, rank, bound, i);
    LooseBack(args[i], files, rank, bound) && Flatten(args[i + 1..], files, rank, bound) == [] &&
    Flatten(args[..i], files, rank, bound) + FlattenOne(args[i], files, rank, bound) != []
  }

  ghost predicate Trails(args: seq<string>, files: Files, rank: map<string, nat>, bound: nat)
    requires Acyclic(files, rank) && Below(args, files, rank, bound)
  {
    exists i :: 0 <= i < |args| && !IsSkipped(args[i], files) && TrailsAt(args, i, files, rank, bound)
  }

  // The tokens that the last argument adds.
  ghost function Added(arg: string, files: Files, rank: map<string, nat>, bound: nat): seq<string>
    requires Acyclic(files, rank) && Below([arg], files, rank, bound)
  {
    if IsSkipped(arg, files) then [] else FlattenOne(arg, files, rank, bound)
  }

  lemma BelowSnoc(init: seq<string>, arg: string, files: Files, rank: map<string, nat>, bound: nat)
    requires Below(init + [arg], files, rank, bound)
    ensures Below(init, files, rank, bound) && Below([arg], files, rank, bound)
  {
    var args := init + [arg];
    BelowPart(args, files, rank, bound, |init|);
    assert args[..|init|] == init && args[|init|] == arg;
  }

  lemma FlattenSnoc(init: seq<string>, arg: string, files: Files, rank: map<string, nat>, bound: nat)
    requires Acyclic(files, rank) && Below(init + [arg], files, rank, bound)
    requires Below(init, files, rank, bound) && Below([arg], files, rank, bound)
    ensures Flatten(init + [arg], files, rank, bound) ==
            Flatten(init, files, rank, bound) + Added(arg, files, rank, bound)
  {
    assert (init + [arg])[..|init|] == init;
  }

  // A new last argument only adds behind the earlier ones.
  lemma PartSnoc(init: seq<string>, arg: string, files: Files, rank: map<string, nat>, bound: nat, i: nat)
    requires Acyclic(files, rank) && Below(init + [arg], files, rank, bound) && i < |init|
    requires Below(init, files, rank, bound) && Below([arg], files, rank, bound)
    ensures (init + [arg])[i] == init[i] && (init + [arg])[..i] == init[..i]
    ensures Below(init[i + 1..], files, rank, bound) && Below((init + [arg])[i + 1..], files, rank, bound)
    ensures Flatten((init + [arg])[i + 1..], files, rank, bound) ==
            Flatten(init[i + 1..], files, rank, bound) + Added(arg, files, rank, bound)
  {
    BelowPart(init, files, rank, bound, i);
    BelowPart(init + [arg], files, rank, bound, i);
    assert (init + [arg])[i + 1..] == init[i + 1..] + [arg];
    FlattenSnoc(init[i + 1..], arg, files, rank, bound);
  }

  lemma ApartSnoc(init: seq<string>, arg: string, files: Files, rank: map<string, nat>, bound: nat, i: nat)
    requires Acyclic(files, rank) && Below(init + [arg], files, rank, bound) && i < |init|
    requires Below(init, files, rank, bound) && Below([arg], files, rank, bound)
    requires !IsSkipped(init[i], files)
    ensures (init + [arg])[i] == init[i]
    ensures SplitsApart(init + [arg], i, files, rank, bound) <==>
            SplitsApart(init, i, files, rank, bound) ||
            (TrailsAt(init, i, files, rank, bound) && Added(arg, files, rank, bound) != [])
    ensures TrailsAt(init + [arg], i, files, rank, bound) <==>
            TrailsAt(init, i, files, rank, bound) && Added(arg, files, rank, bound) == []
  {
    PartSnoc(init, arg, files, rank, bound, i);
  }

  lemma LastApart(init: seq<string>, arg: string, files: Files, rank: map<string, nat>, bound: nat)
    requires Acyclic(files, rank) && Below(init + [arg], files, rank, bound)
    requires Below(init, files, rank, bound) && Below([arg], files, rank, bound) && !IsSkipped(arg, files)
    ensures (init + [arg])[|init|] == arg
    ensures SplitsApart(init + [arg], |init|, files, rank, bound) <==>
            LooseFront(arg, files, rank, bound) && Flatten(init, files, rank, bound) != [] &&
            Added(arg, files, rank, bound) != []
    ensures TrailsAt(init + [arg], |init|, files, rank, bound) <==>
            LooseBack(arg, files, rank, bound) &&
            Flatten(init, files, rank, bound) + Added(arg, files, rank, bound) != []
  {
    assert (init + [arg])[..|init|] == init && (init + [arg])[|init| + 1..] == [];
  }

  lemma TrailsSnoc(init: seq<string>, arg: string, files: Files, rank: map<string, nat>, bound: nat)
    requires Acyclic(files, rank) && Below(init + [arg], files, rank, bound)
    requires Below(init, files, rank, bound) && Below([arg], files, rank, bound)
    ensures Trails(init + [arg], files, rank, bound) <==>
            (Added(arg, files, rank, bound) == [] && Trails(init, files, rank, bound)) ||
            (!IsSkipped(arg, files) && LooseBack(arg, files, rank, bound) &&
             Flatten(init, files, rank, bound) + Added(arg, files, rank, bound) != [])
  {
    var args := init + [arg];
    if i :| 0 <= i < |args| && !IsSkipped(args[i], files) && TrailsAt(args, i, files, rank, bound) {
      if i < |init| {
        ApartSnoc(init, arg, files, rank, bound, i);
      } else {
        LastApart(init, arg, files, rank, bound);
      }
    }
    if i :| 0 <= i < |init| && !IsSkipped(init[i], files) && TrailsAt(init, i, files, rank, bound) {
      ApartSnoc(init, arg, files, rank, bound, i);
    }
    if !IsSkipped(arg, files) {
      LastApart(init, arg, files, rank, bound);
    }
  }

  // The argument fits behind the earlier ones.
  ghost predicate Fits(init: seq<string>, arg: string, files: Files, rank: map<string, nat>, bound: nat)
    requires Acyclic(files, rank) && Below(init, files, rank, bound) && Below([arg], files, rank, bound)
  {
    Tight(arg, files, rank, bound) &&
    (Added(arg, files, rank, bound) != [] ==>
       !Trails(init, files, rank, bound) &&
       (LooseFront(arg, files, rank, bound) ==> Flatten(init, files, rank, bound) == []))
  }

  lemma NoGapSnoc(init: seq<string>, arg: string, files: Files, rank: map<string, nat>, bound: nat)
    requires Acyclic(files, rank) && Below(init + [arg], files, rank, bound)
    requires Below(init, files, rank, bound) && Below([arg], files, rank, bound)
    ensures NoGap(init + [arg], files, rank, bound) <==>
            NoGap(init, files, rank, bound) && Fits(init, arg, files, rank, bound)
  {
    if NoGap(init + [arg], files, rank, bound) {
      NoGapInit(init, arg, files, rank, bound);
    } else {
      NoGapBack(init, arg, files, rank, bound);
    }
  }

  lemma NoGapInit(init: seq<string>, arg: string, files: Files, rank: map<string, nat>, bound: nat)
    requires Acyclic(files, rank) && Below(init + [arg], files, rank, bound)
    requires Below(init, files, rank, bound) && Below([arg], files, rank, bound)
    requires NoGap(init + [arg], files, rank, bound)
    ensures NoGap(init, files, rank, bound) && Fits(init, arg, files, rank, bound)
  {
    var args := init + [arg];
    forall i | 0 <= i < |init| && !IsSkipped(init[i], files)
      ensures (BelowPart(init, files, rank, bound, i); Tight(init[i], files, rank, bound))
      ensures !SplitsApart(init, i, files, rank, bound)
      ensures Added(arg, files, rank, bound) != [] ==> !TrailsAt(init, i, files, rank, bound)
    {
      assert !IsSkipped(args[i], files);
      ApartSnoc(init, arg, files, rank, bound, i);
    }
    if !IsSkipped(arg, files) {
      assert !IsSkipped(args[|init|], files);
      LastApart(init, arg, files, rank, bound);
    }
  }

  lemma NoGapBack(init: seq<string>, arg: string, files: Files, rank: map<string, nat>, bound: nat)
    requires Acyclic(files, rank) && Below(init + [arg], files, rank, bound)
    requires Below(init, files, rank, bound) && Below([arg], files, rank, bound)
    ensures NoGap(init, files, rank, bound) && Fits(init, arg, files, rank, bound) ==>
            NoGap(init + [arg], files, rank, bound)
  {
    var args := init + [arg];
    if NoGap(init, files, rank, bound) && Fits(init, arg, files, rank, bound) {
      forall i | 0 <= i < |args| && !IsSkipped(args[i], files)
        ensures (BelowPart(args, files, rank, bound, i); Tight(args[i], files, rank, bound))
        ensures !SplitsApart(args, i, files, rank, bound)
      {
        if i < |init| {
          ApartSnoc(init, arg, files, rank, bound, i);
        } else {
          LastApart(init, arg, files, rank, bound);
        }
      }
    }
  }

  // The loop's string is trimmed text between white space. There is none, or
  // one blank behind it, unless an argument trails.
  ghost predicate Parts(body: string, lead: string, mid: string, trail: string,
                        toks: seq<string>, trails: bool, noGap: bool) {
    body == lead + mid + trail && IsEmptyOrSpace(lead) && IsEmptyOrSpace(trail) && IsTrimmed(mid) &&
    Split(mid) == toks && (IsCanonical(mid) <==> noGap) &&
    if mid == "" then trail == "" && !trails else trail != "" && (trails <==> trail != " ")
  }

  // A piece that adds nothing.
  lemma PartsVoid(body: string, lead: string, mid: string, trail: string, toks: seq<string>, trails: bool,
                  noGap: bool, piece: string)
    requires Parts(body, lead, mid, trail, toks, trails, noGap) && IsEmptyOrSpace(piece)
    ensures mid == "" ==> Parts(body + (piece + " "), lead + (piece + " "), mid, trail, toks, trails, noGap)
    ensures mid != "" ==> Parts(body + (piece + " "), lead, mid, trail + (piece + " "), toks, true, noGap)
  {
    if mid == "" {
      assert lead + "" + "" + (piece + " ") == lead + (piece + " ") + "" + "";
    } else {
      Assoc(lead + mid, trail, piece + " ");
    }
  }

  // The first piece that adds tokens, those of c between white space.
  lemma PartsFirst(body: string, lead: string, l: string, c: string, t: string)
    requires Parts(body, lead, "", "", [], false, true)
    requires IsEmptyOrSpace(l) && IsEmptyOrSpace(t) && IsTrimmed(c) && c != ""
    ensures Parts(body + (l + c + t + " "), lead + l, c, t + " ", Split(c), t != "", IsCanonical(c))
  {
    FirstPiece(lead, l, c, t);
    PartsBehind(body + (l + c + t + " "), lead + l, c, t, Split(c), IsCanonical(c));
  }

  lemma PartsBehind(body: string, lead: string, mid: string, t: string, toks: seq<string>, noGap: bool)
    requires body == lead + mid + (t + " ") && IsEmptyOrSpace(lead) && IsEmptyOrSpace(t)
    requires mid != "" && IsTrimmed(mid) && Split(mid) == toks && (IsCanonical(mid) <==> noGap)
    ensures Parts(body, lead, mid, t + " ", toks, t != "", noGap)
  {}

  // Another one.
  lemma PartsNext(body: string, lead: string, mid: string, trail: string, toks: seq<string>, trails: bool,
                  noGap: bool, l: string, c: string, t: string)
    requires Parts(body, lead, mid, trail, toks, trails, noGap) && mid != ""
    requires IsEmptyOrSpace(l) && IsEmptyOrSpace(t) && IsTrimmed(c) && c != ""
    ensures Parts(body + (l + c + t + " "), lead, mid + ((trail + l) + c), t + " ", toks + Split(c), t != "",
                  noGap && IsCanonical(c) && !trails && l == "")
  {
    var w := trail + l;
    assert IsEmptyOrSpace(w);
    NextPiece(lead, mid, trail, l, c, t);
    MidPiece(mid, w, c);
    OneBlank(trail, l);
    PartsBehind(body + (l + c + t + " "), lead, mid + (w + c), t, toks + Split(c),
                noGap && IsCanonical(c) && !trails && l == "");
  }

  lemma OneBlank(a: string, b: string)
    requires a != ""
    ensures a + b == " " <==> a == " " && b == ""
  {
    if a + b == " " {
      assert |a + b| == 1 && (a + b)[0] == a[0];
    }
  }

  lemma FirstPiece(a: string, l: string, c: string, t: string)
    ensures a + "" + "" + (l + c + t + " ") == (a + l) + c + (t + " ")
  {
    assert a + "" + "" == a;
    Assoc(l + c, t, " ");
    Assoc(l, c, t + " ");
    Assoc(a, l, c + (t + " "));
    Assoc(a + l, c, t + " ");
  }

  lemma NextPiece(a: string, m: string, b: string, l: string, c: string, t: string)
    ensures a + m + b + (l + c + t + " ") == a + (m + ((b + l) + c)) + (t + " ")
  {
    Assoc(l + c, t, " ");
    Assoc(a + m + b, l + c, t + " ");
    Assoc(a + m, b, l + c);
    Assoc(b, l, c);
    Assoc(a, m, b + (l + c));
  }

  lemma MidPiece(mid: string, w: string, c: string)
    requires IsTrimmed(mid) && IsTrimmed(c) && mid != "" && c != "" && w != "" && IsEmptyOrSpace(w)
    ensures var mid' := mid + (w + c);
            mid' != "" && IsTrimmed(mid') && Split(mid') == Split(mid) + Split(c) &&
            (IsCanonical(mid') <==> IsCanonical(mid) && IsCanonical(c) && w == " ")
  {
    TrimmedEmpty(mid);
    TrimmedEmpty(c);
    TrimmedAround(mid, w, c);
    CanonicalExactly(mid, w, c);
  }

  lemma TrimmedAround(a: string, b: string, c: string)
    requires IsTrimmed(a) && IsTrimmed(c) && a != "" && c != ""
    ensures IsTrimmed(a + (b + c)) && a + (b + c) != ""
  {
    var s := a + (b + c);
    assert s[0] == a[0] && s[|s| - 1] == c[|c| - 1];
  }

  lemma PartsStep(body: string, lead: string, mid: string, trail: string, toks: seq<string>, trails: bool,
                  noGap: bool, l: string, c: string, t: string)
    returns (lead': string, mid': string, trail': string)
    requires Parts(body, lead, mid, trail, toks, trails, noGap)
    requires IsEmptyOrSpace(l) && IsEmptyOrSpace(t) && IsTrimmed(c)
    ensures Parts(body + (l + c + t + " "), lead', mid', trail', toks + Split(c),
                  if c == "" then trails || mid != "" else t != "",
                  if c == "" then noGap else noGap && IsCanonical(c) && !trails && (l == "" || mid == ""))
  {
    TrimmedEmpty(mid);
    if c == "" {
      PartsVoid(body, lead, mid, trail, toks, trails, noGap, l + c + t);
      assert toks + [] == toks;
      lead' := if mid == "" then lead + (l + c + t + " ") else lead;
      mid', trail' := mid, if mid == "" then trail else trail + (l + c + t + " ");
    } else if mid == "" {
      PartsFirst(body, lead, l, c, t);
      assert toks + Split(c) == Split(c);
      lead', mid', trail' := lead + l, c, t + " ";
    } else {
      PartsNext(body, lead, mid, trail, toks, trails, noGap, l, c, t);
      lead', mid', trail' := lead, mid + ((trail + l) + c), t + " ";
    }
  }

  ghost predicate BodyHasParts(args: seq<string>, files: Files, rank: map<string, nat>, bound: nat,
                               lead: string, mid: string, trail: string)
    requires Acyclic(files, rank) && Below(args, files, rank, bound)
  {
    Parts(Body(args, files, rank, bound), lead, mid, trail, Flatten(args, files, rank, bound),
          Trails(args, files, rank, bound), NoGap(args, files, rank, bound))
  }

  lemma {:induction false} BodyParts(args: seq<string>, files: Files, rank: map<string, nat>, bound: nat)
    returns (lead: string, mid: string, trail: string)
    requires Acyclic(files, rank) && Below(args, files, rank, bound)
    ensures BodyHasParts(args, files, rank, bound, lead, mid, trail)
    decreases bound, 1, |args|
  {
    if args == [] {
      lead, mid, trail := "", "", "";
    } else {
      var init, arg := args[..|args| - 1], args[|args| - 1];
      assert args == init + [arg];
      BelowSnoc(init, arg, files, rank, bound);
      lead, mid, trail := BodyParts(init, files, rank, bound);
      if IsSkipped(arg, files) {
        SkippedParts(init, arg, files, rank, bound, lead, mid, trail);
      } else {
        PieceParts(arg, files, rank, bound);
        lead, mid, trail := KeptParts(init, arg, files, rank, bound, lead, mid, trail);
      }
    }
  }

  lemma SkippedParts(init: seq<string>, arg: string, files: Files, rank: map<string, nat>, bound: nat,
                     lead: string, mid: string, trail: string)
    requires Acyclic(files, rank) && Below(init + [arg], files, rank, bound) && IsSkipped(arg, files)
    requires Below(init, files, rank, bound) && BodyHasParts(init, files, rank, bound, lead, mid, trail)
    ensures BodyHasParts(init + [arg], files, rank, bound, lead, mid, trail)
  {
    BelowSnoc(init, arg, files, rank, bound);
    FlattenSnoc(init, arg, files, rank, bound);
    TrailsSnoc(init, arg, files, rank, bound);
    NoGapSnoc(init, arg, files, rank, bound);
    assert (init + [arg])[..|init|] == init;
    assert Body(init, files, rank, bound) + "" == Body(init, files, rank, bound);
    assert Flatten(init, files, rank, bound) + [] == Flatten(init, files, rank, bound);
  }

  // What is known of a piece: its tokens, and white space at its ends.
  ghost predicate PieceIs(piece: string, arg: string, files: Files, rank: map<string, nat>, bound: nat)
    requires Acyclic(files, rank) && Below([arg], files, rank, bound) && !IsSkipped(arg, files)
  {
    Split(Trim(piece)) == FlattenOne(arg, files, rank, bound) &&
    (IsCanonical(Trim(piece)) <==> Tight(arg, files, rank, bound)) &&
    (Trim(piece) == "" <==> FlattenOne(arg, files, rank, bound) == []) &&
    (Trim(piece) != "" ==>
       piece != "" && (LooseFront(arg, files, rank, bound) <==> IsSpace(piece[0])) &&
       (LooseBack(arg, files, rank, bound) <==> IsSpace(piece[|piece| - 1])))
  }

  lemma KeptParts(init: seq<string>, arg: string, files: Files, rank: map<string, nat>, bound: nat,
                  lead: string, mid: string, trail: string)
    returns (lead': string, mid': string, trail': string)
    requires Acyclic(files, rank) && Below(init + [arg], files, rank, bound) && !IsSkipped(arg, files)
    requires Below(init, files, rank, bound) && BodyHasParts(init, files, rank, bound, lead, mid, trail)
    requires Below([arg], files, rank, bound) && PieceIs(Piece(arg, files, rank, bound), arg, files, rank, bound)
    ensures BodyHasParts(init + [arg], files, rank, bound, lead', mid', trail')
  {
    var piece := Piece(arg, files, rank, bound);
    var l, t := TrimParts(piece);
    FlattenSnoc(init, arg, files, rank, bound);
    TrailsSnoc(init, arg, files, rank, bound);
    NoGapSnoc(init, arg, files, rank, bound);
    TrimmedEmpty(mid);
    BodySnoc(init, arg, files, rank, bound);
    lead', mid', trail' := PartsStep(Body(init, files, rank, bound), lead, mid, trail,
      Flatten(init, files, rank, bound), Trails(init, files, rank, bound), NoGap(init, files, rank, bound),
      l, Trim(piece), t);
  }

  lemma BodySnoc(init: seq<string>, arg: string, files: Files, rank: map<string, nat>, bound: nat)
    requires Acyclic(files, rank) && Below(init + [arg], files, rank, bound) && !IsSkipped(arg, files)
    requires Below(init, files, rank, bound) && Below([arg], files, rank, bound)
    ensures Body(init + [arg], files, rank, bound) ==
            Body(init, files, rank, bound) + (Piece(arg, files, rank, bound) + " ")
  {
    assert (init + [arg])[..|init|] == init;
  }

  lemma {:induction false} PieceParts(arg: string, files: Files, rank: map<string, nat>, bound: nat)
    requires Acyclic(files, rank) && Below([arg], files, rank, bound) && !IsSkipped(arg, files)
    ensures PieceIs(Piece(arg, files, rank, bound), arg, files, rank, bound)
    decreases bound, 0
  {
    if arg[0] == '@' {
      assert IsReference([arg][0], files);
      var lead, mid, trail := BodyParts(Split(files[arg[1..]]), files, rank, rank[arg[1..]]);
      TrimSpaces(lead, mid, trail);
      TrimSpaces("", mid, "");
      assert "" + mid + "" == mid;
      TrimmedEmpty(mid);
    } else {
      var l, t := TrimParts(arg);
      SplitTrim(arg);
      TrimmedEmpty(Trim(arg));
    }
  }

  // The result is canonical text, the domain of the other laws, exactly when
  // there is no gap.
  lemma BuildCanonical(args: seq<string>, files: Files, rank: map<string, nat>, bound: nat)
    requires Acyclic(files, rank) && Below(args, files, rank, bound)
    ensures Build(args, files, rank, bound) == Join(Flatten(args, files, rank, bound)) <==>
            NoGap(args, files, rank, bound)
  {
    var lead, mid, trail := BodyParts(args, files, rank, bound);
    TrimSpaces(lead, mid, trail);
  }

  // An empty file between two arguments leaves a double blank.
  lemma EmptyFileLeavesGap(a: string, b: string, f: string)
    requires IsToken(a) && IsToken(b) && f != ""
    requires !IsSkipped(a, map[f := ""]) && a[0] != '@' && !IsSkipped(b, map[f := ""]) && b[0] != '@'
    ensures Acyclic(map[f := ""], map[f := 0]) && Below([a] + ["@" + f] + [b], map[f := ""], map[f := 0], 1)
    ensures Build([a] + ["@" + f] + [b], map[f := ""], map[f := 0], 1) == a + "  " + b
  {
    var files, rank: map<string, nat> := map[f := ""], map[f := 0];
    var ref := "@" + f;
    assert ref[1..] == f;
    assert Below([ref], files, rank, 1) && Below([a], files, rank, 1) && Below([b], files, rank, 1);
    assert Piece(ref, files, rank, 1) == "";
    BodyOne(a, files, rank, 1);
    BodySnoc([a], ref, files, rank, 1);
    BodySnoc([a] + [ref], b, files, rank, 1);
    TwoBlanks(a, b);
  }

  lemma BodyOne(arg: string, files: Files, rank: map<string, nat>, bound: nat)
    requires Acyclic(files, rank) && Below([arg], files, rank, bound) && !IsSkipped(arg, files)
    ensures Body([arg], files, rank, bound) == Piece(arg, files, rank, bound) + " "
  {
    assert [] + [arg] == [arg];
    BodySnoc([], arg, files, rank, bound);
    assert "" + (Piece(arg, files, rank, bound) + " ") == Piece(arg, files, rank, bound) + " ";
  }

  lemma TwoBlanks(a: string, b: string)
    requires IsToken(a) && IsToken(b)
    ensures Trim(a + " " + ("" + " ") + (b + " ")) == a + "  " + b
  {
    var s := a + "  " + b;
    assert a + " " + ("" + " ") + (b + " ") == "" + s + " ";
    TrimSpaces("", s, " ");
  }
}
