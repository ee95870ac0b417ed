// The presenter between the console and the model
// (libs/presenter/include/presenter/input_presenter.hpp).
module Presenters {
  import opened Wrappers
  import opened HistoryModel
  import opened InputHistory
  import opened ServerLoops
  import ServerProtocol
  import CommandMatches
  import Sessions

  class InputPresenter {
    const serverLoop: ServerLoop
    const history: UserInputHistory
    const disk: Disk

    ghost predicate Valid()
      reads this, history, history.history, disk
    {
      history.Valid() && disk.Valid() && history.position <= history.history.Size()
    }

    ghost function Session(): Sessions.Session
      requires Valid()
      reads this, history, history.history, history.history.buffer, disk
    {
      Sessions.Session(history.Value(), disk.File(history.filename))
    }

    constructor (serverLoop: ServerLoop, history: UserInputHistory, disk: Disk)
      requires history.Valid() && disk.Valid() && history.position <= history.history.Size()
      modifies history, history.history, history.history.buffer
      ensures Valid() && this.serverLoop == serverLoop && this.history == history && this.disk == disk
      ensures history.Value() == Load(old(history.Value()), disk.File(history.filename))
      ensures old(history.Value()) == FRESH ==> Sessions.Persisted(Session())
    {
      this.serverLoop := serverLoop;
      this.history := history;
      this.disk := disk;
      new;
      history.Load(disk);
      Sessions.StartPersists(disk.File(history.filename));
    }

    method EnqueueInput(input: string)
      requires Valid()
      modifies serverLoop.inputQueue, history, history.history, history.history.buffer, disk
      ensures Valid()
      ensures serverLoop.inputQueue.queue == old(serverLoop.inputQueue.queue) + [input + "\n"]
      ensures history.Value() == Append(old(history.Value()), input)
      ensures disk.File(history.filename) ==
              Save(history.Value(), history.filename != "", old(disk.File(history.filename)))
      ensures history.filename != "" && old(Sessions.Persisted(Session())) ==> Sessions.Persisted(Session())
    {
      ghost var before := Session();
      serverLoop.EnqueueInput(input);
      history.Append(input);
      history.Save(disk);
      if history.filename != "" && Sessions.Persisted(before) {
        Sessions.DoPersists(Sessions.Enqueue(input), before);
      }
    }

    // The request is enqueued as a task; what its future then holds is computed
    // from what the engine answers.
    method FindCommandMatches(command: string, task: ServerProtocol.Task, attached: bool, objects: seq<Option<string>>)
      returns (matches: seq<string>)
      modifies serverLoop.taskQueue
      ensures serverLoop.taskQueue.queue == old(serverLoop.taskQueue.queue) + [task]
      ensures matches == CommandMatches.Matches(attached, command, objects) && CommandMatches.Sorted(matches)
    {
      serverLoop.EnqueueTask(task);
      matches := CommandMatches.FindCommandMatches(attached, command, objects);
    }

    method HistoryPrevious() returns (entry: Option<string>)
      requires Valid()
      modifies history
      ensures Valid() && (history.Value(), entry) == Previous(old(history.Value()))
    {
      entry := history.Previous();
    }

    method HistoryNext() returns (entry: Option<string>)
      requires Valid()
      modifies history
      ensures Valid() && (history.Value(), entry) == Next(old(history.Value()))
    {
      entry := history.Next();
    }
  }
}
