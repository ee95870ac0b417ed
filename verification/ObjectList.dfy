// The object list and its traversal cursor as a value:
// libs/common/src/common/object_list.cpp.
module Traversal {
  import opened Wrappers

  datatype List<T> = List(container: seq<T>, current: nat)

  // The index of the first occurrence of x, or the size.
  function Find<T(==)>(s: seq<T>, x: T): (i: nat)
    ensures i <= |s| && (i < |s| ==> s[i] == x)
  {
    if s == [] || s[0] == x then 0 else 1 + Find(s[1..], x)
  }

  lemma {:induction false} FindIn<T>(s: seq<T>, x: T)
    ensures x in s <==> Find(s, x) < |s|
  {
    if s != [] && s[0] != x {
      FindIn(s[1..], x);
      assert s == [s[0]] + s[1..];
    }
  }

  function First<T>(l: List<T>): (List<T>, Option<T>) {
    if l.container == [] then (l.(current := 0), None) else (l.(current := 1), Some(l.container[0]))
  }

  function Next<T>(l: List<T>): (List<T>, Option<T>) {
    if l.current >= |l.container| then (l, None)
    else (l.(current := l.current + 1), Some(l.container[l.current]))
  }

  function Remove<T(==)>(l: List<T>, x: T): List<T> {
    var i := Find(l.container, x);
    if i == |l.container| then l
    else List(l.container[..i] + l.container[i + 1..], if i < l.current then l.current - 1 else l.current)
  }

  function AddHead<T>(l: List<T>, x: T): List<T> {
    List([x] + l.container, if l.current != 0 then l.current + 1 else 0)
  }

  function AddTail<T>(l: List<T>, x: T): List<T> {
    l.(container := l.container + [x])
  }

  function RemoveHead<T>(l: List<T>): List<T> {
    if l.container == [] then l
    else List(l.container[1..], if l.current > 0 then l.current - 1 else 0)
  }

  function RemoveTail<T>(l: List<T>): List<T> {
    if l.container == [] then l
    else
      List(l.container[..|l.container| - 1],
           if l.current > 0 && |l.container| - 1 == l.current then l.current - 1 else l.current)
  }

  function Contains<T(==)>(l: List<T>, x: T): List<T> {
    var i := Find(l.container, x);
    if i == |l.container| then l else l.(current := i)
  }

  // What next() has still to return.
  function Pending<T>(l: List<T>): seq<T> {
    if l.current >= |l.container| then [] else l.container[l.current..]
  }

  // ---- a traversal under mutation -----------------------------------------

  datatype Op<T> = OpNext | OpRemove(x: T) | OpRemoveHead | OpAddHead(x: T) | OpAddTail(x: T)

  // A list being traversed, what next() returned so far, and the objects that
  // were removed before their turn.
  datatype Walk<T> = Walk(list: List<T>, returned: seq<T>, missed: set<T>)

  function Do<T(==)>(op: Op<T>, w: Walk<T>): Walk<T> {
    match op
    case OpNext =>
      var (l, x) := Next(w.list);
      Walk(l, if x.Some? then w.returned + [x.value] else w.returned, w.missed)
    case OpRemove(x) =>
      var missed := if w.list.current <= Find(w.list.container, x) < |w.list.container| then {x} else {};
      Walk(Remove(w.list, x), w.returned, w.missed + missed)
    case OpRemoveHead =>
      var missed := if w.list.current > 0 || w.list.container == [] then {} else {w.list.container[0]};
      Walk(RemoveHead(w.list), w.returned, w.missed + missed)
    case OpAddHead(x) => w.(list := AddHead(w.list, x))
    case OpAddTail(x) => w.(list := AddTail(w.list, x))
  }

  function Start<T>(container: seq<T>): Walk<T> {
    var (l, x) := First(List(container, 0));
    Walk(l, if x.Some? then [x.value] else [], {})
  }

  function Run<T(==)>(ops: seq<Op<T>>, w: Walk<T>): Walk<T> {
    if ops == [] then w else Do(ops[|ops| - 1], Run(ops[..|ops| - 1], w))
  }

  // The elements of s that are among the given ones, in order.
  function Among<T(==)>(s: seq<T>, these: set<T>): (r: seq<T>) {
    if s == [] then [] else (if s[0] in these then [s[0]] else []) + Among(s[1..], these)
  }

  lemma {:induction false} AmongAppend<T>(s: seq<T>, t: seq<T>, these: set<T>)
    ensures Among(s + t, these) == Among(s, these) + Among(t, these)
  {
    if s == [] {
      assert s + t == t;
    } else {
      assert (s + t)[1..] == s[1..] + t && (s + t)[0] == s[0];
      AmongAppend(s[1..], t, these);
      assert Among(s + t, these) == (if s[0] in these then [s[0]] else []) + (Among(s[1..], these) + Among(t, these));
    }
  }

  lemma {:induction false} AmongAll<T>(s: seq<T>, these: set<T>)
    ensures (forall x :: x in s ==> x in these) ==> Among(s, these) == s
    ensures (forall x :: x in s ==> x !in these) ==> Among(s, these) == []
  {
    if s != [] {
      assert s == [s[0]] + s[1..];
      AmongAll(s[1..], these);
    }
  }

  lemma {:induction false} AmongTwice<T>(s: seq<T>, these: set<T>, those: set<T>)
    ensures Among(Among(s, these), those) == Among(s, these * those)
  {
    if s != [] {
      AmongTwice(s[1..], these, those);
      AmongAppend(if s[0] in these then [s[0]] else [], Among(s[1..], these), those);
      assert [s[0]][1..] == [];
    }
  }

  lemma {:induction false} AmongIn<T>(s: seq<T>, these: set<T>)
    ensures forall x :: x in Among(s, these) <==> x in s && x in these
    ensures Distinct(s) ==> Distinct(Among(s, these))
  {
    if s != [] {
      AmongIn(s[1..], these);
      assert s == [s[0]] + s[1..];
      assert Distinct(s) ==> s[0] !in s[1..];
    }
  }

  predicate Distinct<T(==)>(s: seq<T>) {
    forall i, j :: 0 <= i < j < |s| ==> s[i] != s[j]
  }

  // What has been returned and what is pending make up the original elements
  // that were not missed, each once and in order; the cursor stays in range.
  ghost predicate OnCourse<T>(w: Walk<T>, original: seq<T>) {
    w.list.current <= |w.list.container| &&
    Among(w.returned + Pending(w.list), Elements(original)) == Among(original, Elements(original) - w.missed)
  }

  ghost function Elements<T>(s: seq<T>): set<T> {
    set x | x in s
  }

  ghost predicate AddsNew<T>(op: Op<T>, original: seq<T>) {
    match op
    case OpAddHead(x) => x !in original
    case OpAddTail(x) => x !in original
    case _ => true
  }

  lemma StartOnCourse<T>(original: seq<T>)
    ensures OnCourse(Start(original), original)
  {
    var w := Start(original);
    AmongAll(original, Elements(original));
    assert Elements(original) - {} == Elements(original);
    assert w.returned + Pending(w.list) == original;
  }

  // Losing x from the pending part.
  lemma LoseOne<T>(a: seq<T>, x: T, b: seq<T>, original: seq<T>, missed: set<T>)
    requires Distinct(original)
    requires Among(a + [x] + b, Elements(original)) == Among(original, Elements(original) - missed)
    ensures Among(a + b, Elements(original)) == Among(original, Elements(original) - (missed + {x}))
  {
    var e := Elements(original);
    AmongThree(a, x, b, e);
    AmongAppend(a, b, e);
    if x in e {
      LoseOriginal(a, x, b, original, missed);
    } else {
      assert e - (missed + {x}) == e - missed;
    }
  }

  lemma LoseOriginal<T>(a: seq<T>, x: T, b: seq<T>, original: seq<T>, missed: set<T>)
    requires Distinct(original)
    requires Among(a, Elements(original)) + [x] + Among(b, Elements(original)) ==
             Among(original, Elements(original) - missed)
    ensures Among(a, Elements(original)) + Among(b, Elements(original)) ==
            Among(original, Elements(original) - (missed + {x}))
  {
    var e := Elements(original);
    OnlyOne(Among(a, e), x, Among(b, e), original, e - missed);
    AmongIn(a, e);
    AmongIn(b, e);
    AmongWithout(Among(a, e), x, Among(b, e), e);
    AmongTwice(original, e - missed, e - {x});
    assert (e - missed) * (e - {x}) == e - (missed + {x});
  }

  lemma AmongThree<T>(a: seq<T>, x: T, b: seq<T>, these: set<T>)
    ensures Among(a + [x] + b, these) ==
            if x in these then Among(a, these) + [x] + Among(b, these) else Among(a, these) + Among(b, these)
  {
    AmongOne(x, these);
    AmongAppend(a, [x], these);
    AmongAppend(a + [x], b, these);
    assert Among(a, these) + [] == Among(a, these);
  }

  lemma AmongOne<T>(x: T, these: set<T>)
    ensures Among([x], these) == if x in these then [x] else []
  {
    assert [x][1..] == [];
  }

  lemma AmongWithout<T>(a: seq<T>, x: T, b: seq<T>, these: set<T>)
    requires x !in a && x !in b && forall y :: y in a || y in b ==> y in these
    ensures Among(a + [x] + b, these - {x}) == a + b
  {
    assert [x][1..] == [];
    AmongAppend(a + [x], b, these - {x});
    AmongAppend(a, [x], these - {x});
    AmongAll(a, these - {x});
    AmongAll(b, these - {x});
    assert a + [] == a;
  }

  lemma OnlyOne<T>(a: seq<T>, x: T, b: seq<T>, original: seq<T>, these: set<T>)
    requires Distinct(original) && a + [x] + b == Among(original, these)
    ensures x !in a && x !in b
  {
    AmongIn(original, these);
    var s := a + [x] + b;
    assert s[|a|] == x;
    assert forall i :: 0 <= i < |a| ==> s[i] == a[i];
    assert forall i :: 0 <= i < |b| ==> s[|a| + 1 + i] == b[i];
  }

  lemma CutBefore<T>(c: seq<T>, k: nat, i: nat)
    requires i < k <= |c|
    ensures (c[..i] + c[i + 1..])[k - 1..] == c[k..]
  {}

  lemma CutAfter<T>(c: seq<T>, k: nat, i: nat)
    requires k <= i < |c|
    ensures (c[..i] + c[i + 1..])[k..] == c[k..i] + c[i + 1..]
    ensures c[k..] == c[k..i] + [c[i]] + c[i + 1..]
  {}

  lemma RemovePending<T>(l: List<T>, x: T)
    requires l.current <= |l.container|
    ensures var i := Find(l.container, x);
            if l.current <= i < |l.container| then
              Pending(l) == l.container[l.current..i] + [x] + l.container[i + 1..] &&
              Pending(Remove(l, x)) == l.container[l.current..i] + l.container[i + 1..]
            else Pending(Remove(l, x)) == Pending(l)
    ensures Remove(l, x).current <= |Remove(l, x).container|
  {
    var i := Find(l.container, x);
    if i < l.current {
      CutBefore(l.container, l.current, i);
    } else if i < |l.container| {
      CutAfter(l.container, l.current, i);
    }
  }

  lemma RemoveOnCourse<T>(w: Walk<T>, x: T, original: seq<T>)
    requires Distinct(original) && OnCourse(w, original)
    ensures OnCourse(Do(OpRemove(x), w), original)
  {
    RemovePending(w.list, x);
    if w.list.current <= Find(w.list.container, x) < |w.list.container| {
      RemoveMissed(w, x, original);
    } else {
      assert w.missed + {} == w.missed;
    }
  }

  // The object is removed before its turn.
  lemma RemoveMissed<T>(w: Walk<T>, x: T, original: seq<T>)
    requires Distinct(original) && OnCourse(w, original)
    requires w.list.current <= Find(w.list.container, x) < |w.list.container|
    ensures OnCourse(Do(OpRemove(x), w), original)
  {
    var c, k, i := w.list.container, w.list.current, Find(w.list.container, x);
    RemovePending(w.list, x);
    MissedOnCourse(w, Do(OpRemove(x), w), c[k..i], x, c[i + 1..], original);
  }

  lemma MissedOnCourse<T>(w: Walk<T>, w': Walk<T>, a: seq<T>, x: T, b: seq<T>, original: seq<T>)
    requires Distinct(original) && OnCourse(w, original)
    requires Pending(w.list) == a + [x] + b && Pending(w'.list) == a + b && w'.list.current <= |w'.list.container|
    requires w'.returned == w.returned && w'.missed == w.missed + {x}
    ensures OnCourse(w', original)
  {
    LosePending(w.returned, a, x, b, original, w.missed);
  }

  lemma LosePending<T>(done: seq<T>, a: seq<T>, x: T, b: seq<T>, original: seq<T>, missed: set<T>)
    requires Distinct(original)
    requires Among(done + (a + [x] + b), Elements(original)) == Among(original, Elements(original) - missed)
    ensures Among(done + (a + b), Elements(original)) == Among(original, Elements(original) - (missed + {x}))
  {
    assert done + (a + [x] + b) == (done + a) + [x] + b;
    assert done + (a + b) == (done + a) + b;
    LoseOne(done + a, x, b, original, missed);
  }

  lemma HeadPending<T>(l: List<T>)
    requires l.container != [] && l.current <= |l.container|
    ensures if l.current > 0 then Pending(RemoveHead(l)) == Pending(l)
            else Pending(l) == [l.container[0]] + l.container[1..] && Pending(RemoveHead(l)) == l.container[1..]
    ensures RemoveHead(l).current <= |RemoveHead(l).container|
  {}

  lemma HeadOnCourse<T>(w: Walk<T>, original: seq<T>)
    requires Distinct(original) && OnCourse(w, original)
    ensures OnCourse(Do(OpRemoveHead, w), original)
  {
    var c := w.list.container;
    if c == [] || w.list.current > 0 {
      if c != [] {
        HeadPending(w.list);
      }
      assert w.missed + {} == w.missed;
    } else {
      HeadPending(w.list);
      LoseFirst(w.returned, c[0], c[1..], original, w.missed);
    }
  }

  lemma LoseFirst<T>(done: seq<T>, x: T, b: seq<T>, original: seq<T>, missed: set<T>)
    requires Distinct(original)
    requires Among(done + ([x] + b), Elements(original)) == Among(original, Elements(original) - missed)
    ensures Among(done + b, Elements(original)) == Among(original, Elements(original) - (missed + {x}))
  {
    assert done + ([x] + b) == done + [x] + b;
    LoseOne(done, x, b, original, missed);
  }

  lemma AddOnCourse<T>(w: Walk<T>, x: T, original: seq<T>)
    requires OnCourse(w, original) && x !in original
    ensures OnCourse(Do(OpAddHead(x), w), original) && OnCourse(Do(OpAddTail(x), w), original)
  {
    var e, head, tail := Elements(original), Do(OpAddHead(x), w), Do(OpAddTail(x), w);
    assert [x][1..] == [];
    assert tail.returned + Pending(tail.list) == w.returned + Pending(w.list) + [x];
    AmongAppend(w.returned + Pending(w.list), [x], e);
    if w.list.current == 0 {
      assert Pending(head.list) == [x] + w.list.container;
      AmongAppend(w.returned, Pending(w.list), e);
      AmongAppend([x], w.list.container, e);
      AmongAppend(w.returned, Pending(head.list), e);
      assert Pending(w.list) == w.list.container;
    } else {
      assert Pending(head.list) == Pending(w.list);
    }
  }

  lemma DoOnCourse<T>(op: Op<T>, w: Walk<T>, original: seq<T>)
    requires Distinct(original) && AddsNew(op, original) && OnCourse(w, original)
    ensures OnCourse(Do(op, w), original)
  {
    match op
    case OpNext =>
      var w' := Do(op, w);
      assert w'.returned + Pending(w'.list) == w.returned + Pending(w.list);
    case OpRemove(x) => RemoveOnCourse(w, x, original);
    case OpRemoveHead => HeadOnCourse(w, original);
    case OpAddHead(x) => AddOnCourse(w, x, original);
    case OpAddTail(x) => AddOnCourse(w, x, original);
  }

  lemma {:induction false} RunOnCourse<T>(ops: seq<Op<T>>, original: seq<T>)
    requires Distinct(original) && forall i :: 0 <= i < |ops| ==> AddsNew(ops[i], original)
    ensures OnCourse(Run(ops, Start(original)), original)
  {
    if ops == [] {
      StartOnCourse(original);
    } else {
      RunOnCourse(ops[..|ops| - 1], original);
      DoOnCourse(ops[|ops| - 1], Run(ops[..|ops| - 1], Start(original)), original);
    }
  }

  // When next() returns null, the originals that were not removed before their
  // turn have been returned, each exactly once and in order.
  lemma TraversalComplete<T>(ops: seq<Op<T>>, original: seq<T>)
    requires Distinct(original) && forall i :: 0 <= i < |ops| ==> AddsNew(ops[i], original)
    ensures var w := Run(ops, Start(original));
            w.list.current <= |w.list.container| &&
            (Next(w.list).1 == None ==>
               Among(w.returned, Elements(original)) == Among(original, Elements(original) - w.missed))
  {
    RunOnCourse(ops, original);
    var w := Run(ops, Start(original));
    assert w.returned + [] == w.returned;
  }

  // ---- objects added behind the cursor ------------------------------------

  function AddedBy<T>(ops: seq<Op<T>>): seq<T> {
    if ops == [] then []
    else
      AddedBy(ops[..|ops| - 1]) +
      match ops[|ops| - 1]
      case OpAddHead(x) => [x]
      case OpAddTail(x) => [x]
      case _ => []
  }

  function AddedAtTail<T>(ops: seq<Op<T>>): seq<T> {
    if ops == [] then []
    else
      AddedAtTail(ops[..|ops| - 1]) +
      match ops[|ops| - 1]
      case OpAddTail(x) => [x]
      case _ => []
  }

  // Every object met so far is one of these.
  ghost predicate Known<T>(w: Walk<T>, all: seq<T>) {
    (forall x :: x in w.returned ==> x in all) && (forall x :: x in w.list.container ==> x in all) &&
    forall x :: x in w.missed ==> x in all
  }

  lemma {:induction false} AmongSame<T>(s: seq<T>, these: set<T>, those: set<T>)
    requires forall x :: x in s ==> (x in these <==> x in those)
    ensures Among(s, these) == Among(s, those)
  {
    if s != [] {
      AmongSame(s[1..], these, those);
    }
  }

  lemma TailExtends<T>(w: Walk<T>, x: T, line: seq<T>)
    requires OnCourse(w, line) && x !in line && x !in w.returned && x !in w.list.container && x !in w.missed
    ensures OnCourse(Do(OpAddTail(x), w), line + [x])
  {
    var s, e, e' := w.returned + Pending(w.list), Elements(line), Elements(line + [x]);
    assert Do(OpAddTail(x), w).returned + Pending(Do(OpAddTail(x), w).list) == s + [x];
    AmongAppend(s, [x], e');
    AmongSame(s, e, e');
    AmongAppend(line, [x], e' - w.missed);
    AmongSame(line, e - w.missed, e' - w.missed);
    AmongOne(x, e');
    AmongOne(x, e' - w.missed);
  }

  lemma KnownDo<T>(op: Op<T>, w: Walk<T>, all: seq<T>, added: seq<T>)
    requires Known(w, all) && (op.OpAddHead? || op.OpAddTail? ==> op.x in added)
    ensures Known(Do(op, w), all + added)
  {
    match op
    case OpRemove(x) => FindIn(w.list.container, x);
    case _ =>
  }

  // What a run keeps: the line of the original objects and those added at the
  // tail is on course.
  ghost predicate InLine<T>(w: Walk<T>, line: seq<T>, all: seq<T>) {
    OnCourse(w, line) && Distinct(line) && Known(w, all) && forall x :: x in line ==> x in all
  }

  lemma InLineDo<T>(op: Op<T>, w: Walk<T>, line: seq<T>, all: seq<T>, added: seq<T>)
    requires InLine(w, line, all)
    requires added == (if op.OpAddHead? || op.OpAddTail? then [op.x] else []) && forall x :: x in added ==> x !in all
    ensures InLine(Do(op, w), if op.OpAddTail? then line + added else line, all + added)
  {
    KnownDo(op, w, all, added);
    if op.OpAddTail? {
      assert op.x in added;
      TailExtends(w, op.x, line);
    } else {
      assert op.OpAddHead? ==> op.x in added;
      DoOnCourse(op, w, line);
    }
  }

  lemma {:induction false} RunInLine<T>(ops: seq<Op<T>>, original: seq<T>)
    requires Distinct(original + AddedBy(ops))
    ensures InLine(Run(ops, Start(original)), original + AddedAtTail(ops), original + AddedBy(ops))
  {
    if ops == [] {
      StartOnCourse(original);
      assert original + [] == original;
    } else {
      var init, op := ops[..|ops| - 1], ops[|ops| - 1];
      var added := if op.OpAddHead? || op.OpAddTail? then [op.x] else [];
      var all := original + AddedBy(init);
      assert original + AddedBy(ops) == all + added;
      DistinctParts(all, added);
      RunInLine(init, original);
      InLineDo(op, Run(init, Start(original)), original + AddedAtTail(init), all, added);
      assert original + AddedAtTail(ops) ==
             if op.OpAddTail? then original + AddedAtTail(init) + added else original + AddedAtTail(init);
    }
  }

  lemma DistinctParts<T>(a: seq<T>, b: seq<T>)
    requires Distinct(a + b)
    ensures Distinct(a) && forall x :: x in b ==> x !in a
  {
    forall i, j | 0 <= i < j < |a| ensures a[i] != a[j] {
      assert (a + b)[i] != (a + b)[j];
    }
    forall i, j | 0 <= i < |a| && 0 <= j < |b| ensures a[i] != b[j] {
      assert (a + b)[i] != (a + b)[|a| + j];
    }
  }

  // So when next() returns null, objects added at the tail meanwhile have been
  // returned as well, after the original ones and in the order of adding,
  // unless they were removed before their turn.
  lemma TailReturned<T>(ops: seq<Op<T>>, original: seq<T>)
    requires Distinct(original + AddedBy(ops))
    ensures var w, line := Run(ops, Start(original)), original + AddedAtTail(ops);
            Next(w.list).1 == None ==> Among(w.returned, Elements(line)) == Among(line, Elements(line) - w.missed)
  {
    RunInLine(ops, original);
    var w := Run(ops, Start(original));
    assert w.returned + [] == w.returned;
  }

  // ---- what each operation does to the list -------------------------------

  lemma TailLaws<T>(l: List<T>, x: T)
    requires l.current <= |l.container|
    ensures multiset(AddTail(l, x).container) == multiset(l.container) + multiset{x}
    ensures AddTail(l, x).container == l.container + [x] && Pending(AddTail(l, x)) == Pending(l) + [x]
  {}

  lemma HeadLaws<T>(l: List<T>, x: T)
    requires l.current <= |l.container|
    ensures multiset(AddHead(l, x).container) == multiset(l.container) + multiset{x}
    ensures AddHead(l, x).container == [x] + l.container
    ensures Pending(AddHead(l, x)) == if l.current > 0 then Pending(l) else [x] + Pending(l)
  {}

  lemma CutOne<T>(c: seq<T>, i: nat)
    requires i < |c|
    ensures multiset(c[..i] + c[i + 1..]) == multiset(c) - multiset{c[i]}
  {
    assert c == c[..i] + [c[i]] + c[i + 1..];
  }

  // The first occurrence of x is at i.
  lemma RemoveLaws<T>(l: List<T>, x: T, i: nat)
    requires i < |l.container| && l.container[i] == x && x !in l.container[..i]
    ensures multiset(Remove(l, x).container) == multiset(l.container) - multiset{x}
    ensures Remove(l, x).container == l.container[..i] + l.container[i + 1..]
  {
    FindFirst(l.container, x, i);
    CutOne(l.container, i);
  }

  lemma RemoveTurn<T>(l: List<T>, x: T, i: nat)
    requires l.current <= |l.container| && i < |l.container| && l.container[i] == x && x !in l.container[..i]
    ensures Pending(Remove(l, x)) ==
            if i < l.current then Pending(l) else l.container[l.current..i] + l.container[i + 1..]
  {
    FindFirst(l.container, x, i);
    RemovePending(l, x);
  }

  lemma {:induction false} FindFirst<T>(s: seq<T>, x: T, i: nat)
    requires i < |s| && s[i] == x && x !in s[..i]
    ensures Find(s, x) == i
  {
    if i > 0 {
      assert s[0] == s[..i][0] && s[1..][..i - 1] == s[..i][1..];
      FindFirst(s[1..], x, i - 1);
    }
  }

  lemma EndLaws<T>(l: List<T>)
    requires l.container != []
    ensures RemoveHead(l).container == l.container[1..] && RemoveTail(l).container == l.container[..|l.container| - 1]
    ensures multiset(RemoveHead(l).container) == multiset(l.container) - multiset{l.container[0]}
  {
    LoseFirstOf(l.container);
  }

  lemma LoseFirstOf<T>(c: seq<T>)
    requires c != []
    ensures multiset(c[1..]) == multiset(c) - multiset{c[0]}
  {
    CutOne(c, 0);
    assert c[..0] + c[1..] == c[1..];
  }

  lemma HeadTurn<T>(l: List<T>)
    requires l.current <= |l.container| && l.container != []
    ensures Pending(RemoveHead(l)) == if l.current > 0 then Pending(l) else Pending(l)[1..]
  {
    HeadPending(l);
  }

  lemma StepLaws<T>(l: List<T>)
    requires l.current <= |l.container|
    ensures l.container != [] ==> First(l).1 == Some(l.container[0]) && Pending(First(l).0) == l.container[1..]
    ensures Next(l).1 == (if Pending(l) == [] then None else Some(Pending(l)[0]))
    ensures Pending(Next(l).0) == (if Pending(l) == [] then [] else Pending(l)[1..])
    ensures First(l).0.container == Next(l).0.container == l.container
  {}

  // What is not in the list, and a list without elements, is left alone.
  lemma NothingLaws<T>(l: List<T>, x: T)
    requires x !in l.container
    ensures Remove(l, x) == l == Contains(l, x)
    ensures l.container == [] ==> RemoveHead(l) == l == RemoveTail(l) && First(l) == (List([], 0), None)
  {
    FindIn(l.container, x);
  }

  // ---- the two operations that can disturb a traversal --------------------

  // remove_tail keeps the cursor in range exactly when the traversal has not
  // ended, and keeps its place exactly when the cursor is not at the last one.
  lemma RemoveTailExactly<T>(l: List<T>)
    requires l.container != [] && l.current <= |l.container|
    ensures var r, p := RemoveTail(l), Pending(l);
            (r.current <= |r.container| <==> l.current < |l.container|) &&
            (Pending(r) == (if p == [] then [] else p[..|p| - 1]) <==> !(0 < l.current == |l.container| - 1))
  {
    var r := RemoveTail(l);
    if 0 < l.current == |l.container| - 1 {
      assert |Pending(r)| == 1 && |Pending(l)| == 1;
    } else {
      var p := Pending(l);
      assert p != [] ==> Pending(r) == p[..|p| - 1];
    }
  }

  // contains moves the cursor to what it finds, so that next() returns it.
  lemma ContainsExactly<T>(l: List<T>, x: T)
    requires l.current <= |l.container|
    ensures Pending(Contains(l, x)) == Pending(l) <==> x !in l.container || l.current == Find(l.container, x)
    ensures x in l.container ==> Next(Contains(l, x)).1 == Some(x)
  {
    var r := Contains(l, x);
    FindIn(l.container, x);
    assert |Pending(l)| == |l.container| - l.current;
    assert |Pending(r)| == |r.container| - r.current;
  }
}

// The class, over a deque of object pointers; None is the null pointer.
module ObjectLists {
  import opened Wrappers
  import opened Traversal

  class ObjectList<T(==)> {
    var container: seq<T>
    var current: nat

    function Value(): List<T>
      reads this
    {
      List(container, current)
    }

    constructor ()
      ensures Value() == List([], 0)
    {
      container, current := [], 0;
    }

    method First() returns (element: Option<T>)
      modifies this
      ensures (Value(), element) == Traversal.First(old(Value()))
    {
      element := None;
      if container == [] {
        current := 0;
      } else {
        current := 1;
        element := Some(container[0]);
      }
    }

    method Next() returns (element: Option<T>)
      modifies this
      ensures (Value(), element) == Traversal.Next(old(Value()))
    {
      if current >= |container| {
        return None;
      }
      element := Some(container[current]);
      current := current + 1;
    }

    method FindIndex(x: T) returns (i: nat)
      ensures i == Find(container, x)
    {
      i := 0;
      assert container[0..] == container;
      while i < |container| && container[i] != x
        invariant i <= |container|
        invariant Find(container, x) == i + Find(container[i..], x)
      {
        assert container[i..][1..] == container[i + 1..];
        i := i + 1;
      }
    }

    method Remove(x: T) returns (found: bool)
      modifies this
      ensures Value() == Traversal.Remove(old(Value()), x)
      ensures found <==> x in old(container)
      ensures multiset(container) == old(multiset(container)) - (if found then multiset{x} else multiset{})
    {
      var i := FindIndex(x);
      FindIn(container, x);
      if i == |container| {
        return false;
      }
      if current > 0 && i < current {
        current := current - 1;
      }
      CutOne(container, i);
      container := container[..i] + container[i + 1..];
      found := true;
    }

    method AddHead(x: T)
      modifies this
      ensures Value() == Traversal.AddHead(old(Value()), x) && container == [x] + old(container)
    {
      container := [x] + container;
      if current != 0 {
        current := current + 1;
      }
    }

    method AddTail(x: T)
      modifies this
      ensures Value() == Traversal.AddTail(old(Value()), x) && container == old(container) + [x]
    {
      container := container + [x];
    }

    method RemoveHead() returns (element: Option<T>)
      modifies this
      ensures Value() == Traversal.RemoveHead(old(Value()))
      ensures old(container) != [] ==> container == old(container)[1..]
      ensures element == if old(container) == [] then None else Some(old(container)[0])
    {
      if container == [] {
        return None;
      }
      if current > 0 {
        current := current - 1;
      }
      element := Some(container[0]);
      container := container[1..];
    }

    method RemoveTail() returns (element: Option<T>)
      modifies this
      ensures Value() == Traversal.RemoveTail(old(Value()))
      ensures old(container) != [] ==> container == old(container)[..|old(container)| - 1]
      ensures element == if old(container) == [] then None else Some(old(container)[|old(container)| - 1])
    {
      if container == [] {
        return None;
      }
      if current > 0 && |container| - 1 == current {
        current := current - 1;
      }
      element := Some(container[|container| - 1]);
      container := container[..|container| - 1];
    }

    method Contains(x: T) returns (found: bool)
      modifies this
      ensures Value() == Traversal.Contains(old(Value()), x) && container == old(container)
      ensures found <==> x in container
    {
      var i := FindIndex(x);
      FindIn(container, x);
      found := i != |container|;
      if found {
        current := i;
      }
    }
  }
}
