// The commands that complete a typed line
// (libs/model/src/model/console_commands.cpp), and the prefix they share
// (libs/view/src/view/console_input.cpp).
module CommandMatches {
  import opened Wrappers
  import opened Strings

  // ---- lexicographic order ------------------------------------------------

  predicate LexLe(a: string, b: string) {
    a == "" || (b != "" && (a[0] < b[0] || (a[0] == b[0] && LexLe(a[1..], b[1..]))))
  }

  lemma {:induction false} LexTotal(a: string, b: string)
    ensures LexLe(a, b) || LexLe(b, a)
  {
    if a != "" && b != "" {
      LexTotal(a[1..], b[1..]);
    }
  }

  lemma {:induction false} LexTransitive(a: string, b: string, c: string)
    requires LexLe(a, b) && LexLe(b, c)
    ensures LexLe(a, c)
  {
    if a != "" && a[0] == b[0] == c[0] {
      LexTransitive(a[1..], b[1..], c[1..]);
    }
  }

  // The order is that of the first difference, and a prefix comes first.
  lemma {:induction false} LexExactly(a: string, b: string, i: nat)
    requires i <= |a| && i <= |b| && a[..i] == b[..i] && (i < |a| && i < |b| ==> a[i] != b[i])
    ensures LexLe(a, b) <==> i == |a| || (i < |b| && a[i] < b[i])
  {
    if i > 0 {
      assert a[0] == a[..i][0] == b[..i][0] == b[0];
      assert a[1..][..i - 1] == a[..i][1..] && b[1..][..i - 1] == b[..i][1..];
      LexExactly(a[1..], b[1..], i - 1);
    }
  }

  ghost predicate Sorted(s: seq<string>) {
    forall i, j :: 0 <= i < j < |s| ==> LexLe(s[i], s[j])
  }

  function Insert(x: string, s: seq<string>): seq<string> {
    if s == [] then [x]
    else if LexLe(x, s[0]) then [x] + s
    else [s[0]] + Insert(x, s[1..])
  }

  // What sorting leaves: any sort of strings gives this sequence.
  function Sort(s: seq<string>): seq<string> {
    if s == [] then [] else Insert(s[0], Sort(s[1..]))
  }

  lemma {:induction false} InsertSorts(x: string, s: seq<string>)
    requires Sorted(s)
    ensures Sorted(Insert(x, s)) && multiset(Insert(x, s)) == multiset(s) + multiset{x}
  {
    if s != [] {
      assert s == [s[0]] + s[1..];
      if LexLe(x, s[0]) {
        SortedCons(x, s);
      } else {
        LexTotal(x, s[0]);
        InsertSorts(x, s[1..]);
        var r := Insert(x, s[1..]);
        forall j | 0 <= j < |r| ensures LexLe(s[0], r[j]) {
          assert r[j] in multiset(r);
          assert r[j] == x || r[j] in s[1..];
        }
        SortedBefore(s[0], r);
      }
    }
  }

  lemma SortedBefore(x: string, s: seq<string>)
    requires Sorted(s) && forall j :: 0 <= j < |s| ==> LexLe(x, s[j])
    ensures Sorted([x] + s)
  {}

  lemma SortedCons(x: string, s: seq<string>)
    requires Sorted(s) && s != [] && LexLe(x, s[0])
    ensures Sorted([x] + s)
  {
    forall j | 0 <= j < |s| ensures LexLe(x, s[j]) {
      if j > 0 {
        LexTransitive(x, s[0], s[j]);
      }
    }
    SortedBefore(x, s);
  }

  lemma {:induction false} SortSorts(s: seq<string>)
    ensures Sorted(Sort(s)) && multiset(Sort(s)) == multiset(s)
  {
    if s != [] {
      assert s == [s[0]] + s[1..];
      SortSorts(s[1..]);
      InsertSorts(s[0], Sort(s[1..]));
    }
  }

  // ---- find_command_matches -----------------------------------------------

  function LowerChar(c: char): char {
    if 'A' <= c <= 'Z' then c + ' ' else c
  }

  function ToLower(s: string): (r: string)
    ensures |r| == |s| && forall i :: 0 <= i < |s| ==> r[i] == LowerChar(s[i])
  {
    seq(|s|, i requires 0 <= i < |s| => LowerChar(s[i]))
  }

  // The engine's objects are C strings or null; blank ones are left out.
  function Usable(objects: seq<Option<string>>): seq<string> {
    if objects == [] then []
    else
      var last := objects[|objects| - 1];
      Usable(objects[..|objects| - 1]) +
      (if last.Some? && Trim(last.value) != "" then [ToLower(Trim(last.value))] else [])
  }

  function Matches(attached: bool, command: string, objects: seq<Option<string>>): seq<string> {
    if !attached || command == "" then [] else Sort(Usable(objects))
  }

  method FindCommandMatches(attached: bool, command: string, objects: seq<Option<string>>)
    returns (matches: seq<string>)
    ensures matches == Matches(attached, command, objects)
    ensures Sorted(matches)
  {
    matches := [];
    if !attached || command == "" {
      return;
    }
    for i := 0 to |objects|
      invariant matches == Usable(objects[..i])
    {
      var object' := objects[i];
      assert objects[..i + 1][..i] == objects[..i] && objects[..i + 1][i] == object';
      if object' == None || object'.value == "" {
        assert Usable(objects[..i]) + [] == Usable(objects[..i]);
        continue;
      }
      var commandString := Trim(object'.value);
      if commandString != "" {
        matches := matches + [ToLower(commandString)];
      }
    }
    assert objects[..|objects|] == objects;
    SortSorts(matches);
    matches := Sort(matches);
  }

  // How often the objects given yield a match.
  function Given(objects: seq<Option<string>>, m: string): nat {
    if objects == [] then 0
    else
      Given(objects[1..], m) +
      (if objects[0].Some? && Trim(objects[0].value) != "" && ToLower(Trim(objects[0].value)) == m then 1 else 0)
  }

  lemma {:induction false} GivenAppend(a: seq<Option<string>>, b: seq<Option<string>>, m: string)
    ensures Given(a + b, m) == Given(a, m) + Given(b, m)
  {
    if a == [] {
      assert a + b == b;
    } else {
      assert (a + b)[1..] == a[1..] + b;
      GivenAppend(a[1..], b, m);
    }
  }

  lemma {:induction false} UsableCounts(objects: seq<Option<string>>, m: string)
    ensures multiset(Usable(objects))[m] == Given(objects, m)
  {
    if objects != [] {
      var init, last := objects[..|objects| - 1], objects[|objects| - 1];
      UsableCounts(init, m);
      assert objects == init + [last] && [last][1..] == [];
      GivenAppend(init, [last], m);
    }
  }

  // The matches are all usable objects, as often as they are given, and nothing
  // else; there are none without the engine or without typed text.
  lemma MatchesExactly(attached: bool, command: string, objects: seq<Option<string>>, m: string)
    ensures multiset(Matches(attached, command, objects))[m] ==
            if attached && command != "" then Given(objects, m) else 0
  {
    SortSorts(Usable(objects));
    UsableCounts(objects, m);
  }

  // Lower case has no capital letter, and differs only where there was one.
  lemma LowerExactly(s: string, i: nat)
    requires i < |s|
    ensures |ToLower(s)| == |s| && !('A' <= ToLower(s)[i] <= 'Z')
    ensures if 'A' <= s[i] <= 'Z' then ToLower(s)[i] - 'a' == s[i] - 'A' else ToLower(s)[i] == s[i]
  {}

  // ---- the common prefix --------------------------------------------------

  // std::mismatch over two strings, as the prefix before it.
  function CommonPrefix(a: string, b: string): string {
    if a == "" || b == "" || a[0] != b[0] then "" else [a[0]] + CommonPrefix(a[1..], b[1..])
  }

  // find_common_command_prefix looks at the first and the last command only.
  function FindCommonPrefix(commands: seq<string>): string {
    if commands == [] then "" else CommonPrefix(commands[0], commands[|commands| - 1])
  }

  lemma {:induction false} CommonPrefixLongest(a: string, b: string, q: string)
    ensures CommonPrefix(a, b) <= a && CommonPrefix(a, b) <= b
    ensures q <= a && q <= b ==> q <= CommonPrefix(a, b)
  {
    if a != "" && b != "" && a[0] == b[0] {
      CommonPrefixLongest(a[1..], b[1..], if q == "" then "" else q[1..]);
      assert a == [a[0]] + a[1..] && b == [b[0]] + b[1..];
      if q != "" && q <= a && q <= b {
        assert q == [q[0]] + q[1..];
      }
    }
  }

  // Whatever lies between two strings has every prefix they share.
  lemma {:induction false} PrefixBetween(p: string, a: string, m: string, b: string)
    requires p <= a && p <= b && LexLe(a, m) && LexLe(m, b)
    ensures p <= m
  {
    if p != "" {
      PrefixBetween(p[1..], a[1..], m[1..], b[1..]);
      assert p == [p[0]] + p[1..] && m == [m[0]] + m[1..];
    }
  }

  lemma {:induction false} LexReflexive(a: string)
    ensures LexLe(a, a)
  {
    if a != "" {
      LexReflexive(a[1..]);
    }
  }

  // Of a sorted list it is a prefix of every entry, and the longest such.
  lemma CommonPrefixOfAll(commands: seq<string>, q: string)
    requires Sorted(commands) && commands != []
    ensures forall i :: 0 <= i < |commands| ==> FindCommonPrefix(commands) <= commands[i]
    ensures q <= FindCommonPrefix(commands) <==> forall i :: 0 <= i < |commands| ==> q <= commands[i]
  {
    var a, b, p := commands[0], commands[|commands| - 1], FindCommonPrefix(commands);
    CommonPrefixLongest(a, b, q);
    forall i | 0 <= i < |commands| ensures p <= commands[i] {
      LexReflexive(commands[i]);
      PrefixBetween(p, a, commands[i], b);
    }
    assert q <= p ==> forall i :: 0 <= i < |commands| ==> q <= p <= commands[i];
    assert (forall i :: 0 <= i < |commands| ==> q <= commands[i]) ==> q <= a && q <= b;
  }

  // If the engine matches without regard to case, what was typed is kept up
  // to case.
  lemma TypedKeptLower(objects: seq<Option<string>>, typed: string)
    requires forall i :: 0 <= i < |objects| && objects[i].Some? ==>
      Trim(objects[i].value) == "" || ToLower(typed) <= ToLower(Trim(objects[i].value))
    requires Usable(objects) != []
    ensures ToLower(typed) <= FindCommonPrefix(Sort(Usable(objects)))
  {
    UsableExtend(objects, ToLower(typed));
    SortedPrefix(Usable(objects), ToLower(typed));
  }

  lemma SortedPrefix(s: seq<string>, q: string)
    requires s != [] && forall m :: m in s ==> q <= m
    ensures q <= FindCommonPrefix(Sort(s))
  {
    SortSorts(s);
    assert |multiset(Sort(s))| == |multiset(s)|;
    forall i | 0 <= i < |Sort(s)| ensures q <= Sort(s)[i] {
      var m := Sort(s)[i];
      assert m in multiset(Sort(s)) && m in multiset(s);
      assert m in s;
    }
    CommonPrefixOfAll(Sort(s), q);
  }

  lemma {:induction false} UsableExtend(objects: seq<Option<string>>, q: string)
    requires forall i :: 0 <= i < |objects| && objects[i].Some? ==>
      Trim(objects[i].value) == "" || q <= ToLower(Trim(objects[i].value))
    ensures forall m :: m in Usable(objects) ==> q <= m
  {
    if objects != [] {
      UsableExtend(objects[..|objects| - 1], q);
    }
  }
}
