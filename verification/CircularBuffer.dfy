// What a bounded double-ended queue does: the meaning of the ring buffer.
module BoundedDeque {
  datatype Op<T> =
    | PushBack(x: T)
    | PushFront(x: T)
    | EmplaceBack(x: T)
    | EmplaceFront(x: T)
    | PopBack
    | PopFront
    | Clear

  // On overflow the element at the opposite end is dropped.
  function Back<T>(x: T, s: seq<T>, n: nat): seq<T>
    requires 0 < n && |s| <= n
  {
    if |s| == n then s[1..] + [x] else s + [x]
  }

  function Front<T>(x: T, s: seq<T>, n: nat): seq<T>
    requires 0 < n && |s| <= n
  {
    if |s| == n then [x] + s[..n - 1] else [x] + s
  }

  function Apply<T>(op: Op<T>, s: seq<T>, n: nat): seq<T>
    requires 0 < n && |s| <= n
  {
    match op
    case PushBack(x) => Back(x, s, n)
    case PushFront(x) => Front(x, s, n)
    case EmplaceBack(x) => Back(x, s, n)
    case EmplaceFront(x) => Front(x, s, n)
    case PopBack => if s == [] then s else s[..|s| - 1]
    case PopFront => if s == [] then s else s[1..]
    case Clear => []
  }

  function ApplyAll<T>(ops: seq<Op<T>>, s: seq<T>, n: nat): (r: seq<T>)
    requires 0 < n && |s| <= n
    ensures |r| <= n
  {
    if ops == [] then s else Apply(ops[|ops| - 1], ApplyAll(ops[..|ops| - 1], s, n), n)
  }

  function Last<T>(s: seq<T>, n: nat): seq<T> {
    if |s| <= n then s else s[|s| - n..]
  }

  function PushAll<T>(xs: seq<T>): (ops: seq<Op<T>>)
    ensures |ops| == |xs|
  {
    if xs == [] then [] else PushAll(xs[..|xs| - 1]) + [PushBack(xs[|xs| - 1])]
  }

  // However many elements are pushed, the last n of the whole stream are kept.
  lemma {:induction false} PushAllKeepsLast<T>(s: seq<T>, xs: seq<T>, n: nat)
    requires 0 < n && |s| <= n
    ensures ApplyAll(PushAll(xs), s, n) == Last(s + xs, n)
  {
    if xs == [] {
      assert s + xs == s;
    } else {
      var init, x := xs[..|xs| - 1], xs[|xs| - 1];
      PushAllKeepsLast(s, init, n);
      assert PushAll(xs)[..|xs| - 1] == PushAll(init);
      assert s + xs == (s + init) + [x];
      LastStep(s + init, x, n);
    }
  }

  function Reverse<T>(s: seq<T>): (r: seq<T>)
    ensures |r| == |s| && forall i :: 0 <= i < |s| ==> r[i] == s[|s| - 1 - i]
  {
    seq(|s|, i requires 0 <= i < |s| => s[|s| - 1 - i])
  }

  // The two ends behave alike: the operation at the other end does to the
  // reversed elements what this one does to the elements.
  function Mirror<T>(op: Op<T>): Op<T> {
    match op
    case PushBack(x) => PushFront(x)
    case PushFront(x) => PushBack(x)
    case EmplaceBack(x) => EmplaceFront(x)
    case EmplaceFront(x) => EmplaceBack(x)
    case PopBack => PopFront
    case PopFront => PopBack
    case Clear => Clear
  }

  lemma MirrorApplies<T>(op: Op<T>, s: seq<T>, n: nat)
    requires 0 < n && |s| <= n
    ensures Apply(Mirror(op), Reverse(s), n) == Reverse(Apply(op, s, n))
  {
    if !op.Clear? && !op.PopBack? && !op.PopFront? {
      MirrorPush(op.x, s, n);
    } else if s != [] {
      MirrorPop(s);
    }
  }

  lemma MirrorPush<T>(x: T, s: seq<T>, n: nat)
    requires 0 < n && |s| <= n
    ensures Front(x, Reverse(s), n) == Reverse(Back(x, s, n))
    ensures Back(x, Reverse(s), n) == Reverse(Front(x, s, n))
  {
    if s != [] {
      MirrorPop(s);
    }
    assert [x] + Reverse(s) == Reverse(s + [x]) && Reverse(s) + [x] == Reverse([x] + s);
    assert |s| == n ==> [x] + Reverse(s[1..]) == Reverse(s[1..] + [x]);
    assert |s| == n ==> Reverse(s[..n - 1]) + [x] == Reverse([x] + s[..n - 1]);
  }

  lemma MirrorPop<T>(s: seq<T>)
    requires s != []
    ensures Reverse(s)[1..] == Reverse(s[..|s| - 1]) && Reverse(s)[..|s| - 1] == Reverse(s[1..])
  {}

  // A pop takes off what was pushed at the same end, and of an empty queue
  // nothing.
  lemma PopsUndo<T>(x: T, s: seq<T>, n: nat)
    requires 0 < n && |s| <= n
    ensures |s| < n ==> Apply(PopBack, Apply(PushBack(x), s, n), n) == s
    ensures |s| < n ==> Apply(PopFront, Apply(PushFront(x), s, n), n) == s
    ensures s == [] ==> Apply(PopBack, s, n) == s == Apply(PopFront, s, n)
  {
    assert (s + [x])[..|s|] == s && ([x] + s)[1..] == s;
  }

  // After a clear the elements are those that are pushed then.
  lemma ClearForgets<T>(s: seq<T>, xs: seq<T>, n: nat)
    requires 0 < n && |s| <= n && |xs| <= n
    ensures ApplyAll(PushAll(xs), Apply(Clear, s, n), n) == xs
  {
    PushAllKeepsLast([], xs, n);
    assert [] + xs == xs;
  }

  lemma LastStep<T>(s: seq<T>, x: T, n: nat)
    requires 0 < n
    ensures Last(s + [x], n) == Back(x, Last(s, n), n)
  {}
}

// The ring buffer of libs/util/include/util/circular_buffer.hpp, for every
// capacity N >= 1.
module RingBuffer {
  import opened BoundedDeque

  lemma {:induction false} ModWrap(x: nat, n: nat)
    requires 0 < n && x < 2 * n
    ensures x % n == if x < n then x else x - n
  {
    if x >= n {
      assert x == n + (x - n) && (n + (x - n)) % n == (x - n) % n by { ModShift(x - n, n); }
    }
  }

  lemma ModShift(y: nat, n: nat)
    requires y < n
    ensures (n + y) % n == y
  {
    var q := (n + y) / n;
    assert n + y == q * n + (n + y) % n;
    assert q >= 2 ==> q * n >= 2 * n;
    assert q <= 0 ==> q * n <= 0;
  }

  // An index of the array, at most one turn past its end.
  function Wrap(x: nat, n: nat): (r: nat)
    requires 0 < n && x < 2 * n
    ensures r < n && r == if x < n then x else x - n
  {
    ModWrap(x, n);
    x % n
  }

  // The index before i, around the array.
  function Prev(i: nat, n: nat): (j: nat)
    requires i < n
    ensures j < n && j == if i == 0 then n - 1 else i - 1
  {
    Wrap(i + n - 1, n)
  }

  // The elements from index start on, around the end of the array.
  function Window<T>(a: seq<T>, start: nat, len: nat): (w: seq<T>)
    requires start < |a| && len <= |a|
    ensures |w| == len && forall i :: 0 <= i < len ==> w[i] == a[Wrap(start + i, |a|)]
  {
    seq(len, i requires 0 <= i < len => a[Wrap(start + i, |a|)])
  }

  lemma WindowBack<T>(a: seq<T>, start: nat, len: nat, x: T)
    requires start < |a| && len <= |a|
    ensures var b := a[Wrap(start + len, |a|) := x];
            if len < |a| then Window(b, start, len + 1) == Window(a, start, len) + [x]
            else Window(b, Wrap(start + 1, |a|), len) == Window(a, start, len)[1..] + [x]
  {
    var b := a[Wrap(start + len, |a|) := x];
    var w := Window(a, start, len);
    if len < |a| {
      var v := Window(b, start, len + 1);
      forall i | 0 <= i < len + 1 ensures v[i] == (w + [x])[i] {}
    } else {
      var v := Window(b, Wrap(start + 1, |a|), len);
      forall i | 0 <= i < len ensures v[i] == (w[1..] + [x])[i] {
        if i < len - 1 {
          assert w[i + 1] == a[Wrap(start + (i + 1), |a|)];
        }
      }
    }
  }

  lemma WindowFront<T>(a: seq<T>, start: nat, len: nat, x: T)
    requires start < |a| && len <= |a|
    ensures var first := Prev(start, |a|); var b := a[first := x];
            if len < |a| then Window(b, first, len + 1) == [x] + Window(a, start, len)
            else Window(b, first, len) == [x] + Window(a, start, len)[..len - 1]
  {
    var first, w := Prev(start, |a|), Window(a, start, len);
    var v := Window(a[first := x], first, if len < |a| then len + 1 else len);
    forall i | 0 <= i < |v| ensures v[i] == if i == 0 then x else w[i - 1] {
      if i > 0 {
        assert w[i - 1] == a[Wrap(start + (i - 1), |a|)];
      }
    }
  }

  lemma WindowPop<T>(a: seq<T>, start: nat, len: nat)
    requires start < |a| && 0 < len <= |a|
    ensures Window(a, Wrap(start + 1, |a|), len - 1) == Window(a, start, len)[1..]
    ensures Window(a, start, len - 1) == Window(a, start, len)[..len - 1]
  {
    var v, w := Window(a, Wrap(start + 1, |a|), len - 1), Window(a, start, len);
    forall i | 0 <= i < len - 1 ensures v[i] == w[i + 1] {
      assert w[i + 1] == a[Wrap(start + (i + 1), |a|)];
    }
  }

  // The number of elements from tail to head; at equal indices full tells.
  function Count(head: nat, tail: nat, full: bool, n: nat): (size: nat)
    requires head < n && tail < n && (full ==> head == tail)
    ensures size <= n && (full <==> size == n) && (size == 0 <==> !full && head == tail)
    ensures head == Wrap(tail + size, n)
  {
    if full then n else if head >= tail then head - tail else n + head - tail
  }

  // What push_back and push_front do to the array and its indices.
  lemma BackPushed<T>(a: seq<T>, head: nat, tail: nat, full: bool, x: T)
    requires head < |a| && tail < |a| && (full ==> head == tail)
    ensures var n, b, head' := |a|, a[head := x], Wrap(head + 1, |a|);
            var tail' := if full then Wrap(tail + 1, n) else tail;
            var s := Window(a, tail, Count(head, tail, full, n));
            var s' := Window(b, tail', Count(head', tail', head' == tail', n));
            s' == BoundedDeque.Back(x, s, n) && b[Prev(tail', n)] == if |s'| == n then x else a[Prev(tail, n)]
  {
    WindowBack(a, tail, Count(head, tail, full, |a|), x);
  }

  lemma FrontPushed<T>(a: seq<T>, head: nat, tail: nat, full: bool, x: T)
    requires head < |a| && tail < |a| && (full ==> head == tail)
    ensures var n, tail' := |a|, Prev(tail, |a|);
            var b, head' := a[tail' := x], if full then Prev(head, n) else head;
            Window(b, tail', Count(head', tail', head' == tail', n)) ==
            BoundedDeque.Front(x, Window(a, tail, Count(head, tail, full, n)), n)
  {
    WindowFront(a, tail, Count(head, tail, full, |a|), x);
  }

  class CircularBuffer<T> {
    const buffer: array<T>
    var head: nat
    var tail: nat
    var full: bool

    ghost predicate Valid()
      reads this
    {
      0 < buffer.Length && head < buffer.Length && tail < buffer.Length && (full ==> head == tail)
    }

    function N(): nat {
      buffer.Length
    }

    // The elements from front to back.
    ghost function Contents(): (s: seq<T>)
      requires Valid()
      reads this, buffer
    {
      Window(buffer[..], tail, Size())
    }

    // The slot just before the front: what back() reads of an empty ring.
    ghost function Spare(): T
      requires Valid()
      reads this, buffer
    {
      buffer[Prev(tail, N())]
    }

    constructor (n: nat, initial: T)
      requires 0 < n
      ensures Valid() && fresh(buffer) && N() == n && Contents() == [] && Spare() == initial
    {
      buffer := new T[n](_ => initial);
      head, tail, full := 0, 0, false;
    }

    predicate Empty()
      reads this
    {
      !full && head == tail
    }

    function Size(): (size: nat)
      requires Valid()
      reads this
      ensures size <= N()
      ensures full <==> size == N()
      ensures Empty() <==> size == 0
      ensures head == Wrap(tail + size, N())
    {
      Count(head, tail, full, N())
    }

    // operator[], around the array for any index.
    function Get(index: nat): (x: T)
      requires Valid()
      reads this, buffer
      ensures index < Size() ==> x == Contents()[index]
    {
      assert index < N() ==> (tail + index) % N() == Wrap(tail + index, N());
      buffer[(tail + index) % N()]
    }

    function Front(): (x: T)
      requires Valid()
      reads this, buffer
      ensures Contents() != [] ==> x == Contents()[0]
    {
      buffer[tail]
    }

    function Back(): (x: T)
      requires Valid()
      reads this, buffer
      ensures x == if Contents() == [] then Spare() else Contents()[|Contents()| - 1]
    {
      buffer[Prev(head, N())]
    }

    method PushBack(item: T)
      requires Valid()
      modifies this, buffer
      ensures Valid() && Contents() == BoundedDeque.Back(item, old(Contents()), N())
      ensures Spare() == if |Contents()| == N() then item else old(Spare())
    {
      BackPushed(buffer[..], head, tail, full, item);
      ghost var after := buffer[..][head := item];
      buffer[head] := item;
      assert buffer[..] == after;
      head := Wrap(head + 1, N());
      if full {
        tail := Wrap(tail + 1, N());
      }
      full := head == tail;
    }

    method EmplaceBack(item: T) returns (back: T)
      requires Valid()
      modifies this, buffer
      ensures Valid() && Contents() == BoundedDeque.Back(item, old(Contents()), N())
      ensures Spare() == if |Contents()| == N() then item else old(Spare())
      ensures back == item
    {
      PushBack(item);
      back := Back();
    }

    method PushFront(item: T)
      requires Valid()
      modifies this, buffer
      ensures Valid() && Contents() == BoundedDeque.Front(item, old(Contents()), N())
    {
      FrontPushed(buffer[..], head, tail, full, item);
      tail := Prev(tail, N());
      ghost var after := buffer[..][tail := item];
      buffer[tail] := item;
      assert buffer[..] == after;
      if full {
        head := Prev(head, N());
      }
      full := head == tail;
    }

    method EmplaceFront(item: T) returns (front: T)
      requires Valid()
      modifies this, buffer
      ensures Valid() && Contents() == BoundedDeque.Front(item, old(Contents()), N())
      ensures front == item
    {
      PushFront(item);
      front := Front();
    }

    method PopFront()
      requires Valid()
      modifies this
      ensures Valid() && Contents() == Apply(Op.PopFront, old(Contents()), N())
    {
      if !Empty() {
        WindowPop(buffer[..], tail, Size());
        full := false;
        tail := Wrap(tail + 1, N());
      }
    }

    method PopBack()
      requires Valid()
      modifies this
      ensures Valid() && Contents() == Apply(Op.PopBack, old(Contents()), N())
    {
      if !Empty() {
        WindowPop(buffer[..], tail, Size());
        full := false;
        head := Prev(head, N());
      }
    }

    method Clear()
      requires Valid()
      modifies this
      ensures Valid() && Contents() == [] && Spare() == old(Spare())
    {
      head := tail;
      full := false;
    }

    // Every run at both ends agrees with the bounded deque.
    method Run(ops: seq<Op<T>>)
      requires Valid()
      modifies this, buffer
      ensures Valid() && Contents() == ApplyAll(ops, old(Contents()), N())
    {
      for i := 0 to |ops|
        invariant Valid() && Contents() == ApplyAll(ops[..i], old(Contents()), N())
      {
        match ops[i] {
          case PushBack(x) => PushBack(x);
          case PushFront(x) => PushFront(x);
          case EmplaceBack(x) => var _ := EmplaceBack(x);
          case EmplaceFront(x) => var _ := EmplaceFront(x);
          case PopBack => PopBack();
          case PopFront => PopFront();
          case Clear => Clear();
        }
        assert ops[..i + 1][..i] == ops[..i];
      }
      assert ops[..|ops|] == ops;
    }
  }
}
