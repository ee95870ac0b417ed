// The queue of libs/util/include/util/threadsafe_queue.hpp. Each operation is
// one critical section.
module ThreadSafe {
  import opened Wrappers

  class ThreadSafeQueue<T> {
    var queue: seq<T>

    constructor ()
      ensures queue == []
    {
      queue := [];
    }

    method Emplace(item: T)
      modifies this
      ensures queue == old(queue) + [item]
    {
      queue := queue + [item];
    }

    method Empty() returns (empty: bool)
      ensures empty <==> queue == []
    {
      empty := queue == [];
    }

    // None when the queue is empty: the caller then waits to be notified.
    method Pop() returns (element: Option<T>)
      modifies this
      ensures old(queue) == [] ==> element == None && queue == []
      ensures old(queue) != [] ==> element == Some(old(queue)[0]) && queue == old(queue)[1..]
    {
      if queue == [] {
        return None;
      }
      element := Some(queue[0]);
      queue := queue[1..];
    }

    method Clear()
      modifies this
      ensures queue == []
    {
      queue := [];
    }
  }
}

// Threads that test empty() and then pop(), while producers add elements
// without ever notifying the condition variable.
module QueueProtocol {
  // Committed: empty() returned false. Parked: waiting inside pop.
  datatype Consumer = Idle | Committed | Parked

  datatype State = State(length: nat, consumers: seq<Consumer>)

  datatype Step = Produce | Consume(i: nat)

  function Init(n: nat): State {
    State(0, seq(n, _ => Idle))
  }

  function Next(s: State, step: Step): (r: State)
    ensures |r.consumers| == |s.consumers|
  {
    match step
    case Produce => s.(length := s.length + 1)
    case Consume(i) =>
      if i >= |s.consumers| then s
      else
        match s.consumers[i]
        case Idle => if s.length == 0 then s else s.(consumers := s.consumers[i := Committed])
        case Committed =>
          if s.length == 0 then s.(consumers := s.consumers[i := Parked])
          else State(s.length - 1, s.consumers[i := Idle])
        case Parked => s
  }

  function Run(s: State, steps: seq<Step>): (r: State)
    ensures |r.consumers| == |s.consumers|
  {
    if steps == [] then s else Next(Run(s, steps[..|steps| - 1]), steps[|steps| - 1])
  }

  predicate NoneParked(s: State) {
    forall i :: 0 <= i < |s.consumers| ==> s.consumers[i] != Parked
  }

  lemma {:induction false} AloneNeverParks(steps: seq<Step>, n: nat)
    requires n <= 1
    ensures var s := Run(Init(n), steps);
            NoneParked(s) && (n == 1 && s.consumers[0] == Committed ==> s.length > 0)
  {
    if steps != [] {
      AloneNeverParks(steps[..|steps| - 1], n);
    }
  }

  // Whoever is parked stays parked: no step notifies.
  lemma {:induction false} ParkedForever(s: State, steps: seq<Step>, i: nat)
    requires i < |s.consumers| && s.consumers[i] == Parked
    ensures Run(s, steps).consumers[i] == Parked
  {
    if steps != [] {
      ParkedForever(s, steps[..|steps| - 1], i);
    }
  }

  lemma {:induction false} RunAppend(s: State, a: seq<Step>, b: seq<Step>)
    ensures Run(s, a + b) == Run(Run(s, a), b)
  {
    if b == [] {
      assert a + b == a;
    } else {
      assert (a + b)[..|a + b| - 1] == a + b[..|b| - 1];
      RunAppend(s, a, b[..|b| - 1]);
    }
  }

  const RACE: seq<Step> := [Produce, Consume(0), Consume(1), Consume(0), Consume(1)]

  // Two consumers commit to one element, and the second to pop is parked.
  lemma RaceParks(n: nat)
    requires 2 <= n
    ensures Run(Init(n), RACE).consumers[1] == Parked
  {
    var c := Init(n).consumers;
    var steps := RACE;
    assert steps[..4] == [Produce, Consume(0), Consume(1), Consume(0)];
    assert steps[..4][..3] == [Produce, Consume(0), Consume(1)];
    assert steps[..4][..3][..2] == [Produce, Consume(0)];
    assert steps[..4][..3][..2][..1] == [Produce];
    assert [Produce][..0] == [];
    assert Run(Init(n), [Produce]) == State(1, c);
    assert Run(Init(n), steps[..4][..3][..2]) == State(1, c[0 := Committed]);
    assert Run(Init(n), steps[..4][..3]) == State(1, c[0 := Committed][1 := Committed]);
    assert Run(Init(n), steps[..4]) == State(0, c[0 := Committed][1 := Committed][0 := Idle]);
    assert Run(Init(n), steps).consumers[1] == Parked;
  }

  // It waits for ever: in every continuation, whatever is produced.
  lemma TwoCanPark(n: nat, more: seq<Step>)
    requires 2 <= n
    ensures !NoneParked(Run(Init(n), RACE + more))
  {
    RaceParks(n);
    RunAppend(Init(n), RACE, more);
    ParkedForever(Run(Init(n), RACE), more, 1);
  }

  // Testing empty() before pop() keeps every run from waiting exactly when
  // there is at most one consumer.
  lemma NeverWaitsExactly(n: nat)
    ensures (forall steps :: NoneParked(Run(Init(n), steps))) <==> n <= 1
  {
    if n <= 1 {
      forall steps ensures NoneParked(Run(Init(n), steps)) {
        AloneNeverParks(steps, n);
      }
    } else {
      TwoCanPark(n, []);
    }
  }
}
