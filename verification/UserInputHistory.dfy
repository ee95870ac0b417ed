// The input history as a value: libs/model/src/model/userinput_history.cpp.
module HistoryModel {
  import opened Wrappers
  import opened Strings
  import opened BoundedDeque

  const CAPACITY: nat := 100

  // The entries, what back() reads while there are none, and the cursor.
  datatype History = History(entries: seq<string>, spare: string, position: nat)

  const FRESH := History([], "", 0)

  predicate IsValidInput(input: string) {
    !IsEmptyOrSpace(input) && IsPrintable(input)
  }

  function Back(h: History): string {
    if h.entries == [] then h.spare else h.entries[|h.entries| - 1]
  }

  // The test and the emplace_back that append and load share.
  function Push(h: History, input: string): (r: History)
    requires |h.entries| <= CAPACITY
    ensures |r.entries| <= CAPACITY
  {
    if IsValidInput(input) && input != Back(h) then
      var entries := Apply(EmplaceBack(input), h.entries, CAPACITY);
      h.(entries := entries, spare := if |entries| == CAPACITY then input else h.spare)
    else h
  }

  function PushEach(h: History, inputs: seq<string>): (r: History)
    requires |h.entries| <= CAPACITY
    ensures |r.entries| <= CAPACITY
  {
    if inputs == [] then h else Push(PushEach(h, inputs[..|inputs| - 1]), inputs[|inputs| - 1])
  }

  function AtEnd(h: History): History {
    h.(position := |h.entries|)
  }

  function Append(h: History, input: string): History
    requires |h.entries| <= CAPACITY
  {
    AtEnd(Push(h, input))
  }

  function Next(h: History): (History, Option<string>) {
    var position := if h.position < |h.entries| then h.position + 1 else h.position;
    (h.(position := position), if position < |h.entries| then Some(h.entries[position]) else None)
  }

  function Previous(h: History): (History, Option<string>)
    requires h.position <= |h.entries|
  {
    if h.position > 0 then (h.(position := h.position - 1), Some(h.entries[h.position - 1])) else (h, None)
  }

  function Clear(h: History): History {
    AtEnd(h.(entries := []))
  }

  // file is None when the file does not exist.
  function Load(h: History, file: Option<string>): History {
    match file
    case None => h
    case Some(content) => AtEnd(PushEach(h.(entries := []), SplitLines(content)))
  }

  // save, to a file with a name or without one.
  function Save(h: History, named: bool, file: Option<string>): Option<string> {
    if !named || h.entries == [] then file else Some(JoinLines(h.entries))
  }

  // ---- what is recorded ---------------------------------------------------

  // An input with a character that is not white space, all of them printable,
  // becomes the newest entry, unless it repeats what back() reads.
  lemma AppendRecords(h: History, input: string, i: nat)
    requires |h.entries| <= 100 && IsPrintable(input) && i < |input| && !IsSpace(input[i])
    requires input != if h.entries == [] then h.spare else h.entries[|h.entries| - 1]
    ensures Append(h, input).entries == (if |h.entries| < 100 then h.entries else h.entries[1..]) + [input]
    ensures Append(h, input).position == |Append(h, input).entries|
  {}

  // Any other input leaves the entries, but not the cursor, as they are.
  lemma AppendIgnores(h: History, input: string)
    requires |h.entries| <= 100
    requires !IsPrintable(input) || (forall i :: 0 <= i < |input| ==> IsSpace(input[i])) ||
             input == if h.entries == [] then h.spare else h.entries[|h.entries| - 1]
    ensures Append(h, input).entries == h.entries && Append(h, input).position == |h.entries|
  {}

  // ---- what every operation keeps -----------------------------------------

  ghost predicate NoRepeat(s: seq<string>) {
    forall i :: 0 < i < |s| ==> s[i - 1] != s[i]
  }

  ghost predicate AllValid(s: seq<string>) {
    forall i :: 0 <= i < |s| ==> IsValidInput(s[i])
  }

  ghost predicate Inv(h: History) {
    AllValid(h.entries) && NoRepeat(h.entries) && |h.entries| <= CAPACITY && h.position <= |h.entries|
  }

  datatype Op = OpAppend(input: string) | OpNext | OpPrevious | OpClear | OpLoad(file: Option<string>)

  function Do(op: Op, h: History): History
    requires |h.entries| <= CAPACITY && h.position <= |h.entries|
  {
    match op
    case OpAppend(input) => Append(h, input)
    case OpNext => Next(h).0
    case OpPrevious => Previous(h).0
    case OpClear => Clear(h)
    case OpLoad(file) => Load(h, file)
  }

  function Run(ops: seq<Op>, h: History): (r: History)
    requires |h.entries| <= CAPACITY && h.position <= |h.entries|
    ensures |r.entries| <= CAPACITY && r.position <= |r.entries|
  {
    if ops == [] then h else Do(ops[|ops| - 1], Run(ops[..|ops| - 1], h))
  }

  lemma PushKeeps(h: History, input: string)
    requires AllValid(h.entries) && NoRepeat(h.entries) && |h.entries| <= CAPACITY
    ensures var r := Push(h, input).entries; AllValid(r) && NoRepeat(r) && |r| <= CAPACITY
  {
    var r := Push(h, input).entries;
    if r != h.entries {
      var k := if |h.entries| == CAPACITY then 1 else 0;
      assert forall i :: 0 <= i < |r| - 1 ==> r[i] == h.entries[i + k];
    }
  }

  lemma {:induction false} PushEachKeeps(h: History, inputs: seq<string>)
    requires AllValid(h.entries) && NoRepeat(h.entries) && |h.entries| <= CAPACITY
    ensures var r := PushEach(h, inputs).entries; AllValid(r) && NoRepeat(r)
  {
    if inputs != [] {
      PushEachKeeps(h, inputs[..|inputs| - 1]);
      PushKeeps(PushEach(h, inputs[..|inputs| - 1]), inputs[|inputs| - 1]);
    }
  }

  lemma DoKeeps(op: Op, h: History)
    requires Inv(h)
    ensures Inv(Do(op, h))
  {
    match op
    case OpAppend(input) => PushKeeps(h, input);
    case OpLoad(Some(content)) => PushEachKeeps(h.(entries := []), SplitLines(content));
    case _ =>
  }

  // In every run, from any state that satisfies it and whatever spare holds.
  lemma {:induction false} RunKeeps(ops: seq<Op>, h: History)
    requires Inv(h)
    ensures Inv(Run(ops, h))
  {
    if ops != [] {
      RunKeeps(ops[..|ops| - 1], h);
      DoKeeps(ops[|ops| - 1], Run(ops[..|ops| - 1], h));
    }
  }

  // ---- the exact contents -------------------------------------------------

  function Valid(inputs: seq<string>): seq<string> {
    if inputs == [] then []
    else
      Valid(inputs[..|inputs| - 1]) +
      (if IsValidInput(inputs[|inputs| - 1]) then [inputs[|inputs| - 1]] else [])
  }

  // Consecutive equal elements collapsed, over the whole stream.
  function Collapse(s: seq<string>): (r: seq<string>)
    ensures r == [] <==> s == []
    ensures s != [] ==> r[0] == s[0] && r[|r| - 1] == s[|s| - 1]
  {
    if |s| <= 1 then s
    else if s[|s| - 2] == s[|s| - 1] then Collapse(s[..|s| - 1])
    else Collapse(s[..|s| - 1]) + [s[|s| - 1]]
  }

  function DropFirst(c: seq<string>, spare: string): seq<string> {
    if c != [] && c[0] == spare then c[1..] else c
  }

  // The stream that reaches the ring: what repeats the spare slot at the start
  // is lost as well.
  function Reaching(spare: string, inputs: seq<string>): seq<string> {
    DropFirst(Collapse(Valid(inputs)), spare)
  }

  lemma CollapseStep(v: seq<string>, x: string)
    ensures Collapse(v + [x]) == if v != [] && v[|v| - 1] == x then Collapse(v) else Collapse(v) + [x]
  {
    var s := v + [x];
    assert s[..|s| - 1] == v && s[|s| - 1] == x;
    if v == [] {
      assert s == [x] == Collapse(v) + [x];
    } else {
      assert s[|s| - 2] == v[|v| - 1];
    }
  }

  lemma ValidStep(inputs: seq<string>, x: string)
    ensures Valid(inputs + [x]) == if IsValidInput(x) then Valid(inputs) + [x] else Valid(inputs)
  {
    assert (inputs + [x])[..|inputs|] == inputs;
    assert Valid(inputs) + [] == Valid(inputs);
  }

  lemma DropStep(c: seq<string>, spare: string, x: string)
    requires c == [] || c[|c| - 1] != x
    ensures var d := DropFirst(c, spare);
            var last := if d == [] then spare else d[|d| - 1];
            DropFirst(c + [x], spare) == if x != last then d + [x] else d
  {
    if c == [] {
      assert c + [x] == [x];
    } else {
      assert (c + [x])[1..] == c[1..] + [x];
    }
  }

  lemma ReachingStep(spare: string, inputs: seq<string>, x: string)
    ensures var d := Reaching(spare, inputs);
            var last := if d == [] then spare else d[|d| - 1];
            Reaching(spare, inputs + [x]) == if IsValidInput(x) && x != last then d + [x] else d
  {
    var v := Valid(inputs);
    ValidStep(inputs, x);
    if IsValidInput(x) {
      CollapseStep(v, x);
      if v == [] || v[|v| - 1] != x {
        DropStep(Collapse(v), spare, x);
      }
    }
  }

  // Only the ring is consulted, yet the entries are the last 100 elements of
  // the collapsed unbounded stream.
  lemma {:induction false} PushEachContents(spare: string, position: nat, inputs: seq<string>)
    ensures var h, d := PushEach(History([], spare, position), inputs), Reaching(spare, inputs);
            h.entries == Last(d, CAPACITY) && Back(h) == (if d == [] then spare else d[|d| - 1]) &&
            h.position == position
  {
    if inputs != [] {
      var init, x := inputs[..|inputs| - 1], inputs[|inputs| - 1];
      PushEachContents(spare, position, init);
      ReachingStep(spare, init, x);
      assert init + [x] == inputs;
      PushContents(PushEach(History([], spare, position), init), spare, Reaching(spare, init), x);
    }
  }

  lemma PushContents(h: History, spare: string, d: seq<string>, x: string)
    requires h.entries == Last(d, CAPACITY) && Back(h) == (if d == [] then spare else d[|d| - 1])
    ensures var r, d' := Push(h, x), if IsValidInput(x) && x != Back(h) then d + [x] else d;
            r.entries == Last(d', CAPACITY) && Back(r) == (if d' == [] then spare else d'[|d'| - 1]) &&
            r.position == h.position
  {
    LastStep(d, x, CAPACITY);
  }

  lemma FreshReaching(inputs: seq<string>)
    ensures Reaching("", inputs) == Collapse(Valid(inputs))
  {
    ValidFacts(inputs);
  }

  lemma {:induction false} ValidFacts(inputs: seq<string>)
    ensures AllValid(Valid(inputs))
    ensures AllValid(inputs) ==> Valid(inputs) == inputs
  {
    if inputs != [] {
      ValidFacts(inputs[..|inputs| - 1]);
      assert inputs == inputs[..|inputs| - 1] + [inputs[|inputs| - 1]];
    }
  }

  function Appends(h: History, inputs: seq<string>): (r: History)
    requires |h.entries| <= CAPACITY
    ensures |r.entries| <= CAPACITY
  {
    if inputs == [] then h else Append(Appends(h, inputs[..|inputs| - 1]), inputs[|inputs| - 1])
  }

  lemma {:induction false} AppendsPushEach(h: History, inputs: seq<string>)
    requires |h.entries| <= CAPACITY
    ensures Appends(h, inputs) == if inputs == [] then h else AtEnd(PushEach(h, inputs))
  {
    if inputs != [] {
      AppendsPushEach(h, inputs[..|inputs| - 1]);
    }
  }

  // From a fresh history.
  lemma AppendsContents(inputs: seq<string>)
    ensures Appends(FRESH, inputs).entries == Last(Collapse(Valid(inputs)), 100)
  {
    AppendsPushEach(FRESH, inputs);
    PushEachContents("", 0, inputs);
    FreshReaching(inputs);
  }

  // From a cleared history the same holds exactly when the first element of
  // the stream is not in the spare slot, or is overwritten later anyway.
  lemma ClearedExactly(spare: string, inputs: seq<string>)
    ensures var c := Collapse(Valid(inputs));
            Appends(History([], spare, 0), inputs).entries == Last(c, CAPACITY) <==>
            c == [] || c[0] != spare || |c| > CAPACITY
  {
    AppendsPushEach(History([], spare, 0), inputs);
    PushEachContents(spare, 0, inputs);
  }

  lemma {:induction false} FullSpare(inputs: seq<string>)
    ensures var h := Appends(FRESH, inputs); |h.entries| == CAPACITY ==> h.spare == h.entries[CAPACITY - 1]
  {
    if inputs != [] {
      FullSpare(inputs[..|inputs| - 1]);
    }
  }

  // So the case arises: after a full history is cleared, its newest input is
  // not recorded again.
  lemma ClearDropsNewest(inputs: seq<string>)
    requires |Appends(FRESH, inputs).entries| == CAPACITY
    ensures var h := Appends(FRESH, inputs); Append(Clear(h), h.entries[CAPACITY - 1]).entries == []
  {
    FullSpare(inputs);
  }

  // ---- saving and loading -------------------------------------------------

  lemma {:induction false} CollapseSame(s: seq<string>)
    requires NoRepeat(s)
    ensures Collapse(s) == s
  {
    if |s| > 1 {
      CollapseSame(s[..|s| - 1]);
      assert s == s[..|s| - 1] + [s[|s| - 1]];
    }
  }

  // Loading a saved history into a fresh one gives the same entries.
  lemma LoadSaved(h: History)
    requires Inv(h)
    ensures Load(FRESH, Some(JoinLines(h.entries))).entries == h.entries
    ensures Load(FRESH, Some(JoinLines(h.entries))).position == |h.entries|
  {
    SplitJoinLines(h.entries);
    PushEachContents("", 0, h.entries);
    FreshReaching(h.entries);
    ValidFacts(h.entries);
    CollapseSame(h.entries);
  }

  // Nothing is loaded where there is no file, and nothing is saved without a
  // name or an entry; otherwise all entries are, in order.
  lemma SaveExactly(h: History, named: bool, file: Option<string>)
    requires Inv(h)
    ensures Load(h, None) == h
    ensures !named || h.entries == [] ==> Save(h, named, file) == file
    ensures named && h.entries != [] ==>
              Save(h, named, file).Some? && SplitLines(Save(h, named, file).value) == h.entries
  {
    SplitJoinLines(h.entries);
  }

  lemma LoadContents(h: History, content: string)
    requires |h.entries| <= CAPACITY
    ensures Load(h, Some(content)).entries == Last(Reaching(h.spare, SplitLines(content)), CAPACITY)
  {
    PushEachContents(h.spare, h.position, SplitLines(content));
  }

  // Loading into a history that is not fresh drops what its spare slot holds:
  // it agrees with a fresh load exactly when the first line kept is not that.
  lemma ReloadExactly(h: History, content: string)
    requires |h.entries| <= CAPACITY
    ensures var c := Collapse(Valid(SplitLines(content)));
            Load(h, Some(content)).entries == Load(FRESH, Some(content)).entries <==>
            c == [] || c[0] != h.spare || |c| > CAPACITY
  {
    LoadContents(h, content);
    LoadContents(FRESH, content);
    FreshReaching(SplitLines(content));
  }
}

// The class over the ring buffer, and the file it is kept in.
module InputHistory {
  import opened Wrappers
  import opened Strings
  import opened HistoryModel
  import opened RingBuffer

  // The files of the system: path to content.
  class Disk {
    var files: map<string, string>

    constructor ()
      ensures files == map[]
    {
      files := map[];
    }

    // No file has the empty name.
    ghost predicate Valid()
      reads this
    {
      "" !in files
    }

    function File(path: string): Option<string>
      reads this
    {
      if path in files then Some(files[path]) else None
    }
  }

  class UserInputHistory {
    const history: CircularBuffer<string>
    var position: nat
    const filename: string

    ghost predicate Valid()
      reads this, history
    {
      history.Valid() && history.N() == CAPACITY
    }

    ghost function Value(): (h: History)
      requires Valid()
      reads this, history, history.buffer
      ensures |h.entries| <= CAPACITY
    {
      History(history.Contents(), history.Spare(), position)
    }

    constructor (filename: string)
      ensures Valid() && Value() == FRESH && this.filename == filename
      ensures fresh(history) && fresh(history.buffer)
    {
      history := new CircularBuffer<string>(CAPACITY, "");
      position := 0;
      this.filename := filename;
    }

    method Push(input: string)
      requires Valid()
      modifies history, history.buffer
      ensures Valid() && Value() == HistoryModel.Push(old(Value()), input)
    {
      if IsValidInput(input) && input != history.Back() {
        var _ := history.EmplaceBack(input);
      }
    }

    method Append(input: string)
      requires Valid()
      modifies this, history, history.buffer
      ensures Valid() && Value() == HistoryModel.Append(old(Value()), input)
    {
      Push(input);
      position := history.Size();
    }

    method Next() returns (entry: Option<string>)
      requires Valid()
      modifies this
      ensures Valid() && (Value(), entry) == HistoryModel.Next(old(Value()))
    {
      if position < history.Size() {
        position := position + 1;
      }
      if position < history.Size() {
        return Some(history.Get(position));
      }
      entry := None;
    }

    method Previous() returns (entry: Option<string>)
      requires Valid() && position <= history.Size()
      modifies this
      ensures Valid() && (Value(), entry) == HistoryModel.Previous(old(Value()))
    {
      if position > 0 {
        position := position - 1;
        return Some(history.Get(position));
      }
      entry := None;
    }

    method Clear(disk: Disk)
      requires Valid() && disk.Valid()
      modifies this, history, disk
      ensures Valid() && disk.Valid() && Value() == HistoryModel.Clear(old(Value()))
      ensures disk.files == old(disk.files) - {filename}
    {
      history.Clear();
      position := history.Size();
      if filename in disk.files {
        disk.files := disk.files - {filename};
      }
    }

    method Load(disk: Disk)
      requires Valid() && disk.Valid()
      modifies this, history, history.buffer
      ensures Valid() && Value() == HistoryModel.Load(old(Value()), old(disk.File(filename)))
    {
      if filename !in disk.files {
        return;
      }
      var content := disk.files[filename];
      history.Clear();
      var lines := SplitLines(content);
      ghost var start := Value();
      for i := 0 to |lines|
        invariant Valid() && Value() == PushEach(start, lines[..i])
      {
        Push(lines[i]);
        assert lines[..i + 1][..i] == lines[..i];
      }
      assert lines[..|lines|] == lines;
      position := history.Size();
    }

    method Save(disk: Disk)
      requires Valid() && disk.Valid()
      modifies disk
      ensures disk.Valid()
      ensures disk.File(filename) == HistoryModel.Save(Value(), filename != "", old(disk.File(filename)))
      ensures forall path :: path != filename ==> disk.File(path) == old(disk.File(path))
    {
      if filename == "" || history.Empty() {
        return;
      }
      var lines := [];
      for i := 0 to history.Size()
        invariant lines == history.Contents()[..i]
      {
        lines := lines + [history.Get(i)];
      }
      assert history.Contents()[..history.Size()] == history.Contents();
      disk.files := disk.files[filename := JoinLines(lines)];
    }
  }
}
