// The server loop and its two queues: libs/model/src/model/server_loop.cpp and
// libs/model/include/model/server_loop.hpp.

// The loop as one thread among producers that may step in anywhere.
module ServerProtocol {
  // A task is known by its number; running it makes its future ready.
  type Task = nat

  // Where the server thread is; in TaskRun and InputRun one item is in hand.
  datatype Place =
    | Frame
    | TaskTest
    | TaskPop
    | TaskRun(task: Task)
    | InputTest
    | InputPop
    | InputRun(input: string)
    | Waiting
    | Stopped

  datatype State = State(
    place: Place,
    tasks: seq<Task>,
    inputs: seq<string>,
    sentTasks: seq<Task>,
    sentInputs: seq<string>,
    doneTasks: seq<Task>,
    doneInputs: seq<string>,
    loops: nat
  )

  const INIT := State(Frame, [], [], [], [], [], [], 0)

  // Server carries what run_frame returns, if it is called in that step.
  datatype Step = SendTask(task: Task) | SendInput(input: string) | Server(runs: bool)

  function EndLoop(s: State): State {
    s.(place := Frame, loops := s.loops + 1)
  }

  function Next(s: State, step: Step): State {
    match step
    case SendTask(task) => s.(tasks := s.tasks + [task], sentTasks := s.sentTasks + [task])
    case SendInput(input) =>
      s.(inputs := s.inputs + [input + "\n"], sentInputs := s.sentInputs + [input + "\n"])
    case Server(runs) =>
      match s.place
      case Frame => s.(place := if runs then TaskTest else Stopped)
      case TaskTest => s.(place := if s.tasks == [] then InputTest else TaskPop)
      case TaskPop =>
        if s.tasks == [] then s.(place := Waiting)
        else s.(place := TaskRun(s.tasks[0]), tasks := s.tasks[1..])
      case TaskRun(task) => s.(place := InputTest, doneTasks := s.doneTasks + [task])
      case InputTest => if s.inputs == [] then EndLoop(s) else s.(place := InputPop)
      case InputPop =>
        if s.inputs == [] then s.(place := Waiting)
        else s.(place := InputRun(s.inputs[0]), inputs := s.inputs[1..])
      case InputRun(input) => EndLoop(s.(doneInputs := s.doneInputs + [input]))
      case Waiting => s
      case Stopped => s
  }

  function Run(s: State, steps: seq<Step>): State {
    if steps == [] then s else Next(Run(s, steps[..|steps| - 1]), steps[|steps| - 1])
  }

  // ---- whole turns --------------------------------------------------------

  // The steps of process_tasks and of process_input.
  function TaskSteps(s: State): seq<Step> {
    if s.tasks == [] then [Server(true)] else [Server(true), Server(true), Server(true)]
  }

  function InputSteps(s: State): seq<Step> {
    if s.inputs == [] then [Server(true)] else [Server(true), Server(true), Server(true)]
  }

  lemma RunThree(s: State, a: Step, b: Step, c: Step)
    ensures Run(s, [a]) == Next(s, a)
    ensures Run(s, [a, b, c]) == Next(Next(Next(s, a), b), c)
  {
    assert [a, b, c][..2] == [a, b] && [a, b][..1] == [a] && [a][..0] == [];
  }

  // While nobody steps in, a turn takes one task if there is one.
  lemma TaskTurn(s: State)
    requires s.place == TaskTest
    ensures Run(s, TaskSteps(s)) ==
            if s.tasks == [] then s.(place := InputTest)
            else s.(place := InputTest, tasks := s.tasks[1..], doneTasks := s.doneTasks + [s.tasks[0]])
  {
    RunThree(s, Server(true), Server(true), Server(true));
  }

  lemma InputTurn(s: State)
    requires s.place == InputTest
    ensures Run(s, InputSteps(s)) ==
            if s.inputs == [] then EndLoop(s)
            else EndLoop(s.(inputs := s.inputs[1..], doneInputs := s.doneInputs + [s.inputs[0]]))
  {
    RunThree(s, Server(true), Server(true), Server(true));
  }

  // ---- conservation and no waiting ----------------------------------------

  function TaskInHand(s: State): seq<Task> {
    if s.place.TaskRun? then [s.place.task] else []
  }

  function InputInHand(s: State): seq<string> {
    if s.place.InputRun? then [s.place.input] else []
  }

  // Nothing is lost, repeated or reordered, and a pop finds an element.
  ghost predicate Inv(s: State) {
    s.doneTasks + TaskInHand(s) + s.tasks == s.sentTasks &&
    s.doneInputs + InputInHand(s) + s.inputs == s.sentInputs &&
    (s.place == TaskPop ==> s.tasks != []) &&
    (s.place == InputPop ==> s.inputs != []) &&
    s.place != Waiting
  }

  lemma NextKeeps(s: State, step: Step)
    requires Inv(s)
    ensures Inv(Next(s, step))
  {
    match step
    case SendTask(task) =>
      assert s.doneTasks + TaskInHand(s) + (s.tasks + [task]) == s.sentTasks + [task];
    case SendInput(input) =>
      assert s.doneInputs + InputInHand(s) + (s.inputs + [input + "\n"]) == s.sentInputs + [input + "\n"];
    case Server(_) =>
      if s.place == TaskPop {
        assert [s.tasks[0]] + s.tasks[1..] == s.tasks;
        assert s.doneTasks + [] + s.tasks == s.doneTasks + [s.tasks[0]] + s.tasks[1..];
      } else if s.place == InputPop {
        assert [s.inputs[0]] + s.inputs[1..] == s.inputs;
        assert s.doneInputs + [] + s.inputs == s.doneInputs + [s.inputs[0]] + s.inputs[1..];
      } else if s.place.TaskRun? {
        assert s.doneTasks + [s.place.task] + s.tasks == s.doneTasks + [s.place.task] + [] + s.tasks;
      } else if s.place.InputRun? {
        assert s.doneInputs + [s.place.input] + s.inputs == s.doneInputs + [s.place.input] + [] + s.inputs;
      }
  }

  // In every interleaving of any producers with the server loop.
  lemma {:induction false} RunKeeps(s: State, steps: seq<Step>)
    requires Inv(s)
    ensures Inv(Run(s, steps))
  {
    if steps != [] {
      RunKeeps(s, steps[..|steps| - 1]);
      NextKeeps(Run(s, steps[..|steps| - 1]), steps[|steps| - 1]);
    }
  }

  lemma Conservation(steps: seq<Step>)
    ensures var s := Run(INIT, steps);
            s.doneTasks + TaskInHand(s) + s.tasks == s.sentTasks &&
            s.doneInputs + InputInHand(s) + s.inputs == s.sentInputs &&
            s.place != Waiting
  {
    RunKeeps(INIT, steps);
  }

  // ---- bounded response ---------------------------------------------------

  // The number of loops that are complete when the next loop starts.
  function NextLoop(s: State): nat {
    if s.place == Frame then s.loops else s.loops + 1
  }

  // Full loops since base in which the tasks, or the inputs, have had their turn.
  function TaskTurns(s: State, base: nat): nat {
    if s.loops < base then 0
    else s.loops - base + (if s.place == InputTest || s.place == InputPop || s.place.InputRun? then 1 else 0)
  }

  function InputTurns(s: State, base: nat): nat {
    if s.loops < base then 0 else s.loops - base
  }

  // Of an item sent as number n, when done0 were handled: it is handled, or
  // each full loop since base has handled one.
  ghost predicate TaskOnTime(s: State, base: nat, n: nat, done0: nat) {
    n < |s.sentTasks| && (|s.doneTasks| > n || |s.doneTasks| >= done0 + TaskTurns(s, base))
  }

  ghost predicate InputOnTime(s: State, base: nat, n: nat, done0: nat) {
    n < |s.sentInputs| && (|s.doneInputs| > n || |s.doneInputs| >= done0 + InputTurns(s, base))
  }

  lemma TurnKeeps(s: State, step: Step, base: nat, n: nat, done0: nat)
    requires Inv(s)
    ensures TaskOnTime(s, base, n, done0) ==> TaskOnTime(Next(s, step), base, n, done0)
    ensures InputOnTime(s, base, n, done0) ==> InputOnTime(Next(s, step), base, n, done0)
  {
    assert s.tasks == [] && s.place == TaskTest ==> |s.doneTasks| == |s.sentTasks|;
    assert s.inputs == [] && s.place == InputTest ==> |s.doneInputs| == |s.sentInputs|;
  }

  lemma {:induction false} TurnsKeep(s: State, steps: seq<Step>, base: nat, n: nat, done0: nat)
    requires Inv(s)
    ensures TaskOnTime(s, base, n, done0) ==> TaskOnTime(Run(s, steps), base, n, done0)
    ensures InputOnTime(s, base, n, done0) ==> InputOnTime(Run(s, steps), base, n, done0)
  {
    if steps != [] {
      var init := steps[..|steps| - 1];
      TurnsKeep(s, init, base, n, done0);
      RunKeeps(s, init);
      TurnKeeps(Run(s, init), steps[|steps| - 1], base, n, done0);
    }
  }

  lemma {:induction false} SentStays(s: State, steps: seq<Step>)
    ensures s.sentTasks <= Run(s, steps).sentTasks && s.sentInputs <= Run(s, steps).sentInputs
  {
    if steps != [] {
      SentStays(s, steps[..|steps| - 1]);
    }
  }

  // A task with k ahead of it is done by the end of the (k+1)-th full loop.
  lemma TaskAnswered(s: State, task: Task, steps: seq<Step>)
    requires Inv(s)
    ensures var n, t := |s.sentTasks|, Run(Next(s, SendTask(task)), steps);
            var k := n - |s.doneTasks|;
            t.loops >= NextLoop(s) + k + 1 ==> |t.doneTasks| > n && t.doneTasks[n] == task
  {
    var n, s1 := |s.sentTasks|, Next(s, SendTask(task));
    var t := Run(s1, steps);
    NextKeeps(s, SendTask(task));
    assert TaskOnTime(s1, NextLoop(s), n, |s.doneTasks|);
    TurnsKeep(s1, steps, NextLoop(s), n, |s.doneTasks|);
    RunKeeps(s1, steps);
    SentStays(s1, steps);
    assert s1.sentTasks[n] == task;
    assert |t.doneTasks| > n ==> t.doneTasks[n] == (t.doneTasks + TaskInHand(t) + t.tasks)[n];
  }

  lemma InputAnswered(s: State, input: string, steps: seq<Step>)
    requires Inv(s)
    ensures var n, t := |s.sentInputs|, Run(Next(s, SendInput(input)), steps);
            var k := n - |s.doneInputs|;
            t.loops >= NextLoop(s) + k + 1 ==> |t.doneInputs| > n && t.doneInputs[n] == input + "\n"
  {
    var n, s1 := |s.sentInputs|, Next(s, SendInput(input));
    var t := Run(s1, steps);
    NextKeeps(s, SendInput(input));
    assert InputOnTime(s1, NextLoop(s), n, |s.doneInputs|);
    TurnsKeep(s1, steps, NextLoop(s), n, |s.doneInputs|);
    RunKeeps(s1, steps);
    SentStays(s1, steps);
    assert s1.sentInputs[n] == input + "\n";
    assert |t.doneInputs| > n ==> t.doneInputs[n] == (t.doneInputs + InputInHand(t) + t.inputs)[n];
  }

  // ---- the end of the loop ------------------------------------------------

  // When run_frame returns false the loop ends for good: whatever is sent then
  // stays in the queues, and nothing more is done or handed over.
  lemma {:induction false} StopsForGood(s: State, steps: seq<Step>)
    requires s.place == Frame
    ensures var t := Run(Next(s, Server(false)), steps);
            t.place == Stopped && t.doneTasks == s.doneTasks && t.doneInputs == s.doneInputs && t.loops == s.loops
    ensures s.tasks <= Run(Next(s, Server(false)), steps).tasks && s.inputs <= Run(Next(s, Server(false)), steps).inputs
  {
    if steps != [] {
      StopsForGood(s, steps[..|steps| - 1]);
    }
  }

  // And only then.
  lemma StopsOnly(s: State, step: Step)
    ensures Next(s, step).place == Stopped <==> s.place == Stopped || (s.place == Frame && step == Server(false))
  {}

  // ---- release of a blocked request ---------------------------------------

  function Rank(place: Place): nat {
    match place
    case Frame => 0
    case TaskTest => 1
    case TaskPop => 2
    case TaskRun(_) => 3
    case InputTest => 4
    case InputPop => 5
    case InputRun(_) => 6
    case Waiting => 0
    case Stopped => 0
  }

  function ServerSteps(steps: seq<Step>): nat {
    if steps == [] then 0
    else ServerSteps(steps[..|steps| - 1]) + (if steps[|steps| - 1].Server? then 1 else 0)
  }

  predicate KeepsRunning(steps: seq<Step>) {
    forall i :: 0 <= i < |steps| && steps[i].Server? ==> steps[i].runs
  }

  // Every step of the server thread gets somewhere; it is never blocked.
  lemma {:induction false} ServerAdvances(s: State, steps: seq<Step>)
    requires Inv(s) && s.place != Stopped && KeepsRunning(steps)
    ensures var t := Run(s, steps);
            t.place != Stopped && 7 * t.loops + Rank(t.place) >= 7 * s.loops + Rank(s.place) + ServerSteps(steps)
  {
    if steps != [] {
      ServerAdvances(s, steps[..|steps| - 1]);
      RunKeeps(s, steps[..|steps| - 1]);
    }
  }

  // So a thread blocked on the future of its task is released after at most
  // 7 (k + 2) steps of the server, however many others interleave.
  lemma RequestReleased(s: State, task: Task, steps: seq<Step>)
    requires Inv(s) && s.place != Stopped && KeepsRunning(steps)
    requires ServerSteps(steps) >= 7 * (|s.sentTasks| - |s.doneTasks| + 2)
    ensures var n, t := |s.sentTasks|, Run(Next(s, SendTask(task)), steps);
            |t.doneTasks| > n && t.doneTasks[n] == task
  {
    NextKeeps(s, SendTask(task));
    ServerAdvances(Next(s, SendTask(task)), steps);
    TaskAnswered(s, task, steps);
  }
}

// The class with its two queues.
module ServerLoops {
  import opened ThreadSafe
  import opened ServerProtocol

  class ServerLoop {
    const taskQueue: ThreadSafeQueue<Task>
    const inputQueue: ThreadSafeQueue<string>
    var completed: seq<Task>
    var consoleText: seq<string>

    // The object as a state of the protocol.
    ghost function At(place: Place, loops: nat): State
      reads this, taskQueue, inputQueue
    {
      State(place, taskQueue.queue, inputQueue.queue, completed + taskQueue.queue, consoleText + inputQueue.queue,
            completed, consoleText, loops)
    }

    constructor ()
      ensures taskQueue.queue == [] && inputQueue.queue == [] && completed == [] && consoleText == []
      ensures fresh(taskQueue) && fresh(inputQueue) && At(Frame, 0) == INIT
    {
      taskQueue := new ThreadSafeQueue();
      inputQueue := new ThreadSafeQueue();
      completed, consoleText := [], [];
    }

    method EnqueueInput(input: string)
      modifies inputQueue
      ensures inputQueue.queue == old(inputQueue.queue) + [input + "\n"]
      ensures forall place, n :: At(place, n) == Next(old(At(place, n)), SendInput(input))
    {
      inputQueue.Emplace(input + "\n");
      assert consoleText + inputQueue.queue == old(consoleText + inputQueue.queue) + [input + "\n"];
    }

    method EnqueueTask(task: Task)
      modifies taskQueue
      ensures taskQueue.queue == old(taskQueue.queue) + [task]
      ensures forall place, n :: At(place, n) == Next(old(At(place, n)), SendTask(task))
    {
      taskQueue.Emplace(task);
      assert completed + taskQueue.queue == old(completed + taskQueue.queue) + [task];
    }

    // Takes at most one task, in order: a turn of the protocol.
    method ProcessTasks()
      modifies this`completed, taskQueue
      ensures completed + taskQueue.queue == old(completed + taskQueue.queue)
      ensures |completed| == old(|completed|) + if old(taskQueue.queue) == [] then 0 else 1
      ensures var s := old(At(TaskTest, 0)); At(InputTest, 0) == Run(s, TaskSteps(s))
    {
      TaskTurn(At(TaskTest, 0));
      var empty := taskQueue.Empty();
      if !empty {
        var task := taskQueue.Pop();
        completed := completed + [task.value];
      }
    }

    method ProcessInput()
      modifies this`consoleText, inputQueue
      ensures consoleText + inputQueue.queue == old(consoleText + inputQueue.queue)
      ensures |consoleText| == old(|consoleText|) + if old(inputQueue.queue) == [] then 0 else 1
      ensures var s := old(At(InputTest, 0)); At(Frame, 1) == Run(s, InputSteps(s))
    {
      InputTurn(At(InputTest, 0));
      var empty := inputQueue.Empty();
      if !empty {
        var input := inputQueue.Pop();
        consoleText := consoleText + [input.value];
      }
    }
  }
}
