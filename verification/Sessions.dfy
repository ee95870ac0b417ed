// The presenter and the history file across whole sessions
// (libs/presenter/include/presenter/input_presenter.hpp): what is on disk is
// always what a new session would read back.
module Sessions {
  import opened Wrappers
  import opened HistoryModel

  // The history of the running session and the file it is kept in.
  datatype Session = Session(history: History, file: Option<string>)

  // Restart is the end of the process and the start of the next one.
  datatype Op = Enqueue(input: string) | Up | Down | ClearHistory | Restart

  // The constructor of the presenter, over a fresh history.
  function Start(file: Option<string>): Session {
    Session(Load(FRESH, file), file)
  }

  function Do(op: Op, s: Session): Session
    requires |s.history.entries| <= CAPACITY && s.history.position <= |s.history.entries|
  {
    match op
    case Enqueue(input) => var h := Append(s.history, input); Session(h, Save(h, true, s.file))
    case Up => s.(history := Previous(s.history).0)
    case Down => s.(history := Next(s.history).0)
    case ClearHistory => Session(Clear(s.history), None)
    case Restart => Start(s.file)
  }

  function Run(ops: seq<Op>, s: Session): (r: Session)
    requires |s.history.entries| <= CAPACITY && s.history.position <= |s.history.entries|
    ensures |r.history.entries| <= CAPACITY && r.history.position <= |r.history.entries|
  {
    if ops == [] then s else Do(ops[|ops| - 1], Run(ops[..|ops| - 1], s))
  }

  ghost predicate Persisted(s: Session) {
    Inv(s.history) && Load(FRESH, s.file).entries == s.history.entries
  }

  lemma StartPersists(file: Option<string>)
    ensures Persisted(Start(file))
  {
    DoKeeps(OpLoad(file), FRESH);
  }

  lemma DoPersists(op: Op, s: Session)
    requires Persisted(s)
    ensures Persisted(Do(op, s))
    ensures op.Enqueue? || op.Restart? ==> Load(FRESH, Do(op, s).file).position == Do(op, s).history.position
  {
    match op
    case Enqueue(input) =>
      PushKeeps(s.history, input);
      LoadSaved(Append(s.history, input));
      EnqueueEmpty(s.history, input);
      StartPersists(s.file);
    case Restart => StartPersists(s.file);
    case _ =>
  }

  // A skipped save leaves a history that was empty before as well.
  lemma EnqueueEmpty(h: History, input: string)
    requires |h.entries| <= CAPACITY
    ensures Append(h, input).entries == [] ==> h.entries == []
  {}

  // Over every initial file, however long, repetitive or invalid, and every
  // run of any number of sessions.
  lemma {:induction false} RunPersists(ops: seq<Op>, file: Option<string>)
    ensures Persisted(Run(ops, Start(file)))
  {
    StartPersists(file);
    if ops != [] {
      RunPersists(ops[..|ops| - 1], file);
      DoPersists(ops[|ops| - 1], Run(ops[..|ops| - 1], Start(file)));
    }
  }

  // After every enqueued input a new session starts where this one stands.
  lemma RestartAgrees(ops: seq<Op>, file: Option<string>, input: string)
    ensures var s := Do(Enqueue(input), Run(ops, Start(file)));
            Start(s.file).history.entries == s.history.entries &&
            Start(s.file).history.position == s.history.position == |s.history.entries|
  {
    RunPersists(ops, file);
    DoPersists(Enqueue(input), Run(ops, Start(file)));
  }
}
