# Rehlds-m launcher: a verified model of its state machines

The launcher of a dedicated game server keeps five pieces of real state, and
this project models and proves them together:

* the **command line**, stored as one flat string and edited with `rfind`,
  offset arithmetic and `erase`, and the handlers that rewrite it;
* the **console line editor**, which keeps a line, a cursor and a saved draft
  and separately prints an incremental stream of characters;
* the **input history** over a ring buffer, kept in a file between sessions;
* the **server loop**, one consumer thread of two queues that other threads
  fill;
* the **frame timer** of the target-FPS loop, an integer-truncated moving
  average.

The object list with its traversal cursor is a smaller sixth.

## How it is arranged

Each stateful class of the program is a Dafny class with the same fields and
loops. Its methods are proved equal to functions on values, and the theorems
are lemmas about those functions.

| file | contents |
|---|---|
| `Strings.dfy` | white space, `rfind`, trim, join, split, lines |
| `CmdLineText.dfy` | the string edits, and what they do to canonical text token by token |
| `CmdLinePairs.dfy` | the meaning: a list of arguments with optional options |
| `CmdLineLimits.dfy`, `CmdLineMentions.dfy`, `CmdLineLookups.dfy` | where removal and lookup are right, exactly, and what they do elsewhere |
| `CmdLineArgs.dfy`, `CmdLineProcessor.dfy` | the class that owns the string; the handlers |
| `ResponseFiles.dfy` | building the string from program arguments and `@file` references |
| `CircularBuffer.dfy` | the ring buffer and the bounded deque it refines |
| `UserInputHistory.dfy`, `Sessions.dfy` | the history, its file, and runs of whole sessions |
| `ThreadSafeQueue.dfy`, `ServerLoop.dfy` | the queue, the loop, and both as protocols of interleaved steps |
| `InputPresenter.dfy` | the presenter that joins history, file and server loop |
| `CommandMatches.dfy` | the sorted matches and the prefix they share |
| `LineEditor.dfy`, `ConsoleInput.dfy` | the terminal, the editor, the class that edits and prints |
| `FrameTimer.dfy` | the moving average and the sleeps |
| `ObjectList.dfy` | the list and its cursor |

Words used below. *Canonical* text is non-empty tokens without white space,
joined by exactly one blank (`Join`). It is *well-formed* when it is the text of
a list of arguments, each a `+` or `-` token and at most one plain token
(`Render`). It is *separated* for a name when every token that contains `+name`
or `-name` is that. A *name* is a token that does not start with a prefix
character.

## Where the code does not meet its obvious intent

The code is modelled as it is. Each of these has a lemma with the exact
condition, or the input that shows it.

* Lookup is by substring, so `+map` is found inside `+mapcycle`:
  `ContainsExactly`, `GetOptionExactly`, `LookupExactly`, `RemoveExactly`,
  `UpdateExactly`, `MapInMapcycle`. It is found inside the option of the argument
  itself as well: `RemoveMentionExactly`, `ExecTakesMap`.
* On text that is not well-formed, `remove` can delete an unrelated plain
  token: `RemoveCutsExactly`, `RemoveTakesNeighbour`.
* An empty response file, or white space at an end of an argument, can leave two
  blanks: `BuildCanonical`, `EmptyFileLeavesGap`.
* `back()` is read of an empty ring, so a cleared or reloaded history can drop
  the first line that is new to it: `ClearDropsNewest`, `ClearedExactly`,
  `ReloadExactly`.
* A single-match Tab prints at the cursor, wherever it is: `TabExactly`.
* Enter does not drop the saved draft: `StaleDraft`, `RecoveryExactly`.
* Testing `empty()` before `pop()` is enough only for one consumer, because no
  producer notifies: `NeverWaitsExactly`.
* The average may stay up to 9 ns below the overhead: `UpdateFixedExactly`. The
  factor 1.015 makes up for it: `SettledRate`.

## Model

| member | source | states |
|---|---|---|
| CmdLineText.FindLast | libs/core/src/core/cmdline_args.cpp:185-201 | the position found for a name is a hit of +name or -name, and no hit starts after it |
| CmdLineText.RemoveOnce | libs/core/src/core/cmdline_args.cpp:170-182 | on every text, whatever its shape, one round of the loop shortens the text |
| CmdLineText.RemoveAll | libs/core/src/core/cmdline_args.cpp:165-183 | the loop ends on every text, and afterwards the name is no longer found |
| CmdLineTokens.ContainsExactly | libs/core/include/core/cmdline_args.hpp:115-118 | on every canonical text, contains() holds if and only if some token has +name or -name as a substring |
| CmdLineTokens.FindJoin | libs/core/src/core/cmdline_args.cpp:185-201 | on separated canonical text the position is the offset of the last token that is +name or -name |
| CmdLineTokens.GetOptionJoin | libs/core/src/core/cmdline_args.cpp:203-230 | asked with or without a prefix, the option is the plain token after that last token, or none |
| CmdLineTokens.ScanNext | libs/core/src/core/cmdline_args.cpp:212-226 | a scan from the end of a token, or one past it, yields the next token if it is plain |
| CmdLineTokens.RemoveOnceJoin | libs/core/src/core/cmdline_args.cpp:170-182 | one round takes exactly the last token with the name, its plain successor and one blank out of the text |
| CmdLineTokens.RemoveJoin | libs/core/src/core/cmdline_args.cpp:165-183 | on all separated canonical text, well-formed or not, the result is the canonical text of the tokens that remain when read from the right |
| CmdLineLimits.RemainingExactly | libs/core/src/core/cmdline_args.cpp:165-183 | for all token lists, deleting from the right gives what deleting each name with its own option from the left gives, if and only if no plain token is orphaned behind a name without an option |
| CmdLineLimits.RemoveCutsExactly | libs/core/src/core/cmdline_args.cpp:165-183 | so on all separated canonical text, well-formed or not, remove yields what is meant if and only if no plain token is orphaned |
| CmdLineLimits.CutTokens | libs/core/src/core/cmdline_args.cpp:165-183 | on the tokens of a list of arguments nothing is orphaned, and what is meant is the list without the name |
| CmdLinePairs.RemoveRender | libs/core/src/core/cmdline_args.cpp:165-183 | on well-formed text separated for the name, remove yields the text of exactly the arguments without the name, in order, again well-formed and separated |
| CmdLineLimits.RemoveExactly | libs/core/src/core/cmdline_args.cpp:165-183 | on well-formed text, while no option to be deleted mentions the name, remove is right if and only if no argument that is to stay mentions the name in its key or option |
| CmdLineLimits.RightExcludes | libs/core/src/core/cmdline_args.cpp:165-183 | on all well-formed text, wherever remove is right, no argument that is to stay mentions the name |
| CmdLineMentions.RemoveMentionExactly | libs/core/src/core/cmdline_args.cpp:165-230 | of an argument to be deleted whose own option mentions the name once, remove deletes just that, and nothing else, if and only if the option survives: a condition on the characters beside the mention and on whether anything stays before or behind |
| CmdLineMentions.RemoveInner | libs/core/src/core/cmdline_args.cpp:170-182 | the round inside the option deletes the mention with the character before it, and, if more of the token follows as an option, that with the blank behind it |
| CmdLineMentions.RemoveGapped | libs/core/src/core/cmdline_args.cpp:170-182 | a second blank in the text stays through all rounds, whatever is deleted before it |
| CmdLineMentions.OptionTakesNext | libs/core/src/core/cmdline_args.cpp:170-182 | a whole family of failures: the argument behind such an option is lost and its own option stays as a lone token |
| CmdLineMentions.ExecTakesMap | libs/core/src/core/cmdline_args.cpp:170-182 | an instance: removing exec from "+exec my-exec.cfg +map x" leaves "x" |
| CmdLineMentions.ErrorsCancel | libs/core/src/core/cmdline_args.cpp:170-182 | two deleted options that each fail alone can give the right text together, so no condition on single arguments is exact |
| CmdLineLookups.LongerFound | libs/core/src/core/cmdline_args.cpp:185-230 | a longer name is found for the shorter one, and what is left of it behind the query is taken for the option |
| CmdLineMentions.LongerGlues | libs/core/src/core/cmdline_args.cpp:170-182 | removing the shorter name then glues what is before the longer one to what is behind it |
| CmdLineLookups.MapInMapcycle | libs/core/src/core/cmdline_args.cpp:170-230 | an instance: in "-game cstrike +mapcycle list.txt" map has the option "cycle", +map the option "ycle", and removing it leaves "-game cstrikelist.txt" |
| CmdLineLimits.RemoveTakesNeighbour | libs/core/src/core/cmdline_args.cpp:170-182 | with two plain tokens in a row, the second is lost when the name occurs twice before them, but not when it occurs once |
| CmdLinePairs.LookupRender | libs/core/src/core/cmdline_args.cpp:203-230 | on separated well-formed text, option and presence are those of the last argument with the name, asked with or without prefix |
| CmdLineLookups.GetOptionExactly | libs/core/src/core/cmdline_args.cpp:203-230 | on every canonical text, separated or not, and for every query, the option read is that at the last token that mentions the name: what is left of the token behind the mention if it is plain, or the next plain token if nothing is left |
| CmdLineLookups.LookupExactly | libs/core/src/core/cmdline_args.cpp:203-230 | on all well-formed text the option is the right one if and only if nothing mentions the name, or the last token that does is the name itself, or what is read inside another token happens to be the same |
| CmdLineLookups.ReadNamed | libs/core/src/core/cmdline_args.cpp:203-230 | where the last mention is the name itself, the read is the lookup, whatever mentions the name before it |
| CmdLinePairs.PushRender | libs/core/src/core/cmdline_args.cpp:129-163 | both pushes give the text of the new argument before, or after, all arguments with another name; the result is well-formed |
| CmdLineTokens.PushWords | libs/core/src/core/cmdline_args.cpp:129-163 | on any text, an argument that starts with +, - or @ and its option go as words in front of, or behind, all words that remove leaves |
| CmdLineTokens.PushIgnores | libs/core/src/core/cmdline_args.cpp:131-133 | anything else, a lone prefix included, changes nothing |
| CmdLinePairs.UpdateLaws | libs/core/src/core/cmdline_args.cpp:129-163 | after either edit the name occurs once with the new option, and all other arguments keep option, number and order |
| CmdLinePairs.UpdateText | libs/core/src/core/cmdline_args.cpp:129-163 | on the stored text, every query after a push gives the new option for the pushed name and the old answer for any other name |
| CmdLinePairs.UpdateExactly | libs/core/src/core/cmdline_args.cpp:129-163 | after a push with an option the name looks up to that option if and only if the option does not itself mention the name |
| CmdLineStore.CmdLineArgs.FindArgumentPos | libs/core/src/core/cmdline_args.cpp:185-201 | returns the last hit of the name in the stored text |
| CmdLineStore.CmdLineArgs.GetArgumentOptionAt | libs/core/src/core/cmdline_args.cpp:209-230 | the two index loops compute the option that the scan function defines, none without a position |
| CmdLineStore.CmdLineArgs.GetArgumentOption | libs/core/src/core/cmdline_args.cpp:203-207 | returns the option of the last hit |
| CmdLineStore.CmdLineArgs.Contains | libs/core/include/core/cmdline_args.hpp:115-118 | returns whether there is a hit |
| CmdLineStore.CmdLineArgs.Remove | libs/core/src/core/cmdline_args.cpp:165-183 | afterwards the name is not found, and if the old text was a separated list of arguments the new one is that list without the name |
| CmdLineStore.CmdLineArgs.RemoveNamed | libs/core/src/core/cmdline_args.cpp:170-182 | the loop over the string in place ends and equals the function on text |
| CmdLineStore.CmdLineArgs.RemoveAt | libs/core/src/core/cmdline_args.cpp:171-181 | the count and erase of one round equal one round on text |
| CmdLineStore.CmdLineArgs.PushFront | libs/core/src/core/cmdline_args.cpp:129-145 | the stored text becomes that of push_front on text; an invalid argument changes nothing |
| CmdLineStore.CmdLineArgs.PushBack | libs/core/src/core/cmdline_args.cpp:147-163 | the stored text becomes that of push_back on text; an invalid argument changes nothing |
| CmdLineProcessor.Handle | libs/core/src/core/cmdline_processor.cpp:29-65 | each handler's calls on the shared object have the effect of the handler on text |
| CmdLineProcessor.ApplyHandlers | libs/core/src/core/cmdline_processor.cpp:136-138 | the loop applies the handlers one after another to the one object |
| CmdLineProcessor.Process | libs/core/src/core/cmdline_processor.cpp:134-139 | on well-formed text separated for the names this run looks up, the stored text becomes that of the processed list of arguments |
| CmdLineProcessor.ProcessRender | libs/core/src/core/cmdline_processor.cpp:29-65 | all handlers together, through their string edits, equal one edit of the list: the fixed arguments in front, every rewritten name filtered out, sys_ticrate 0 behind if targetfps is present; the result is again well-formed and separated. Separation is asked only for the names looked up: console on Windows, pingboost and sys_ticrate with targetfps |
| CmdLineProcessor.ProcessKeepsOthers | libs/core/src/core/cmdline_processor.cpp:29-65 | every argument whose name no handler rewrites is kept with its option and in order |
| CmdLineProcessor.ProcessedHas | libs/core/src/core/cmdline_processor.cpp:29-65 | a name that is not rewritten keeps its option, its presence and its number of occurrences |
| CmdLineProcessor.ProcessedFixed | libs/core/src/core/cmdline_processor.cpp:29-65 | of the rewritten names exactly steam, console on Windows and sys_ticrate are present, and only sys_ticrate has an option, "0" |
| CmdLineProcessor.ProcessIdempotent | libs/core/src/core/cmdline_processor.cpp:134-139 | processing a processed command line does not change the text |
| CmdLineProcessor.ProcessLookups | libs/core/src/core/cmdline_processor.cpp:47-65 | queries on the processed text: steam, and console on Windows, are there without an option; condebug is gone; with targetfps, pingboost is gone and sys_ticrate looks up to "0"; every other name answers as before |
| CmdLineProcessor.ProcessOrder | libs/core/src/core/cmdline_processor.cpp:29-56 | the first words are -console on Windows and -steam, in this order; with targetfps the last two are +sys_ticrate 0 |
| ResponseFiles.BuildArgumentsString | libs/core/src/core/cmdline_args.cpp:69-96 | for acyclic references the recursion ends by rank, and splitting the result gives all arguments and file contents flattened in order |
| ResponseFiles.BuildFlattens | libs/core/src/core/cmdline_args.cpp:69-96 | the built text splits into the in-order flattening, with lone prefixes, empty arguments and unreadable files dropped |
| ResponseFiles.WordAdds | libs/core/src/core/cmdline_args.cpp:74-92 | one more argument that is not empty, "-", "+" or a reference adds its words to those of the result, however short it is |
| ResponseFiles.SkippedAdds | libs/core/src/core/cmdline_args.cpp:74-86 | one more argument that is empty, "-", "+", "@" or an unreadable reference adds none |
| ResponseFiles.FileAdds | libs/core/src/core/cmdline_args.cpp:78-82 | one more readable reference adds the words that the words of its file build |
| ResponseFiles.BuildCanonical | libs/core/src/core/cmdline_args.cpp:69-96 | for all arguments and files the built text is canonical if and only if nothing puts more than a blank between two tokens: no file that adds nothing, no white space at an end of an argument or inside it, here or in any file read |
| ResponseFiles.NoGapSnoc | libs/core/src/core/cmdline_args.cpp:73-93 | one more argument keeps the text free of gaps if and only if it has none itself and, when it adds tokens, fits behind the earlier ones |
| ResponseFiles.EmptyFileLeavesGap | libs/core/src/core/cmdline_args.cpp:78-92 | an empty file between two arguments leaves two blanks, so the text is not always canonical |
| RingBuffer.CircularBuffer.PushFront | libs/util/include/util/circular_buffer.hpp:198-209 | adds at the front of the contents; when full the last element goes |
| RingBuffer.CircularBuffer.EmplaceFront | libs/util/include/util/circular_buffer.hpp:211-225 | adds at the front, when full dropping the last element, and returns the element it added |
| RingBuffer.CircularBuffer.PushBack | libs/util/include/util/circular_buffer.hpp:227-238 | adds at the back of the contents; when full the first element goes; says what the slot before the front then holds |
| RingBuffer.CircularBuffer.EmplaceBack | libs/util/include/util/circular_buffer.hpp:240-254 | adds at the back, when full dropping the first element, and returns the element it added |
| RingBuffer.CircularBuffer.PopFront | libs/util/include/util/circular_buffer.hpp:256-263 | drops the first element, if there is one |
| RingBuffer.CircularBuffer.PopBack | libs/util/include/util/circular_buffer.hpp:265-272 | drops the last element, if there is one |
| RingBuffer.CircularBuffer.Front | libs/util/include/util/circular_buffer.hpp:274-284 | of a non-empty ring, the first element of the contents |
| RingBuffer.CircularBuffer.Back | libs/util/include/util/circular_buffer.hpp:286-296 | the last element of the contents, or of an empty ring what the slot before the front still holds |
| RingBuffer.CircularBuffer.Size | libs/util/include/util/circular_buffer.hpp:316-328 | between 0 and N, N exactly when full, 0 exactly when empty, and the distance from tail to head around the array |
| RingBuffer.CircularBuffer.Clear | libs/util/include/util/circular_buffer.hpp:330-335 | empties the contents and leaves the slot before the front as it was |
| RingBuffer.CircularBuffer.Get | libs/util/include/util/circular_buffer.hpp:337-347 | operator[] reads around the array for any index; below the size it is that element of the contents |
| RingBuffer.CircularBuffer.Run | libs/util/include/util/circular_buffer.hpp:198-347 | for every capacity, every sequence of pushes, emplaces, pops and clears at both ends leaves the contents of the bounded deque |
| BoundedDeque.PushAllKeepsLast | libs/util/include/util/circular_buffer.hpp:227-254 | however many elements are pushed at the back, the last N of the whole stream are kept |
| BoundedDeque.MirrorApplies | libs/util/include/util/circular_buffer.hpp:198-272 | the two ends behave alike: each operation does to the reversed elements what its counterpart does to the elements |
| BoundedDeque.PopsUndo | libs/util/include/util/circular_buffer.hpp:256-272 | a pop takes off what was pushed at the same end, and of an empty queue nothing |
| BoundedDeque.ClearForgets | libs/util/include/util/circular_buffer.hpp:330-335 | after a clear, the elements are those that are pushed then |
| HistoryModel.DoKeeps | libs/model/src/model/userinput_history.cpp:44-103 | every operation keeps: entries valid, no two neighbours equal, at most 100, cursor within the size |
| HistoryModel.RunKeeps | libs/model/src/model/userinput_history.cpp:44-103 | entries are valid, no two neighbours equal, at most 100 and the cursor within the size, over every run of append, clear, load, next and previous, whatever the leftover slot holds |
| HistoryModel.PushEachContents | libs/model/src/model/userinput_history.cpp:95-99 | the ring holds the last 100 of the unbounded stream of valid inputs, consecutive equal ones collapsed and a first one equal to the leftover slot dropped |
| HistoryModel.AppendsContents | libs/model/src/model/userinput_history.cpp:44-51 | from a fresh history, after any appends: exactly the last 100 of the valid inputs with consecutive equal ones collapsed |
| HistoryModel.AppendRecords | libs/model/src/model/userinput_history.cpp:44-51 | a printable input with a character that is not white space becomes the newest entry, unless it repeats what back() reads; only from a full history the oldest goes |
| HistoryModel.AppendIgnores | libs/model/src/model/userinput_history.cpp:44-51 | a blank or unprintable input, and one that repeats what back() reads, leaves the entries as they are; the cursor goes to the end |
| HistoryModel.ClearedExactly | libs/model/src/model/userinput_history.cpp:44-51 | from a cleared history that holds if and only if the stream is empty, or does not start with the leftover slot, or overflows |
| HistoryModel.FullSpare | libs/model/src/model/userinput_history.cpp:44-51 | a full history's leftover slot is its newest entry |
| HistoryModel.ClearDropsNewest | libs/model/src/model/userinput_history.cpp:76-79 | after a full history is cleared, its newest input is not recorded when it is entered again |
| HistoryModel.LoadSaved | libs/model/src/model/userinput_history.cpp:86-119 | loading what any history saved into a fresh one gives the same entries, with the cursor at the end |
| HistoryModel.SaveExactly | libs/model/src/model/userinput_history.cpp:88-119 | without a file nothing is loaded; without a name or an entry nothing is saved; otherwise the lines of the file are the entries |
| HistoryModel.ReloadExactly | libs/model/src/model/userinput_history.cpp:86-103 | loading into a used history agrees with a fresh load if and only if the first line kept is not in the leftover slot, or the file overflows |
| InputHistory.UserInputHistory.constructor | libs/model/src/model/userinput_history.cpp:39-42 | a new history is the fresh one |
| InputHistory.UserInputHistory.Push | libs/model/src/model/userinput_history.cpp:46-48 | over the ring, the input is added if it is valid and not what back() reads |
| InputHistory.UserInputHistory.Append | libs/model/src/model/userinput_history.cpp:44-51 | the input is added if it is valid and not what back() reads, and the cursor goes to the end |
| InputHistory.UserInputHistory.Next | libs/model/src/model/userinput_history.cpp:53-64 | the cursor moves on unless at the end; the answer is the entry there, if there is one |
| InputHistory.UserInputHistory.Previous | libs/model/src/model/userinput_history.cpp:66-74 | the cursor moves back unless at the start; the answer is the entry there |
| InputHistory.UserInputHistory.Clear | libs/model/src/model/userinput_history.cpp:76-84 | no entries are left and exactly the history's file is removed |
| InputHistory.UserInputHistory.Load | libs/model/src/model/userinput_history.cpp:86-103 | the loop over the lines equals the load of the history value; without a file nothing changes |
| InputHistory.UserInputHistory.Save | libs/model/src/model/userinput_history.cpp:105-119 | the file holds the entries line by line, is left alone for an empty history or name, and no other file changes |
| Sessions.StartPersists | libs/presenter/include/presenter/input_presenter.hpp:112 | for every initial file, a fresh load of the file gives the loaded history |
| Sessions.DoPersists | libs/presenter/include/presenter/input_presenter.hpp:112-120 | every operation keeps the agreement of file and history, and after an enqueue the cursor agrees too |
| Sessions.RunPersists | libs/presenter/include/presenter/input_presenter.hpp:112-120 | over every run of any number of sessions, from every initial file, a fresh load of the file gives the current history |
| Sessions.RestartAgrees | libs/presenter/include/presenter/input_presenter.hpp:115-120 | after any run, a session started after an enqueue has the same entries and the same cursor |
| Presenters.InputPresenter.constructor | libs/presenter/include/presenter/input_presenter.hpp:103-113 | the history is loaded from its file; over a fresh history the file and history then agree |
| Presenters.InputPresenter.EnqueueInput | libs/presenter/include/presenter/input_presenter.hpp:115-120 | the input goes to the queue with a line break, into the history and to the file, and the agreement of file and history is kept |
| Presenters.InputPresenter.FindCommandMatches | libs/presenter/include/presenter/input_presenter.hpp:122-129 | a task is enqueued, and the answer is the sorted list of usable matches |
| Presenters.InputPresenter.HistoryPrevious | libs/presenter/include/presenter/input_presenter.hpp:131-134 | moves the cursor of the history back and answers with its entry |
| Presenters.InputPresenter.HistoryNext | libs/presenter/include/presenter/input_presenter.hpp:136-139 | moves the cursor of the history on and answers with its entry |
| ThreadSafe.ThreadSafeQueue.Emplace | libs/util/include/util/threadsafe_queue.hpp:363-369 | adds at the back |
| ThreadSafe.ThreadSafeQueue.Empty | libs/util/include/util/threadsafe_queue.hpp:450-455 | whether there are no elements |
| ThreadSafe.ThreadSafeQueue.Pop | libs/util/include/util/threadsafe_queue.hpp:371-384 | takes the first element; on an empty queue none, where the program waits |
| ThreadSafe.ThreadSafeQueue.Clear | libs/util/include/util/threadsafe_queue.hpp:386-393 | leaves no elements |
| QueueProtocol.AloneNeverParks | libs/util/include/util/threadsafe_queue.hpp:363-384 | with at most one consumer, in every interleaving nobody waits and a committed consumer finds an element |
| QueueProtocol.TwoCanPark | libs/util/include/util/threadsafe_queue.hpp:363-384 | with two consumers or more there is a run after which one waits in every continuation, whatever producers do |
| QueueProtocol.NeverWaitsExactly | libs/util/include/util/threadsafe_queue.hpp:363-384 | no run waits if and only if there is at most one consumer |
| ServerLoops.ServerLoop.EnqueueInput | libs/model/include/model/server_loop.hpp:166-170 | the input goes to the back of its queue with a line break, which is a step of the protocol at any place of the server thread |
| ServerLoops.ServerLoop.EnqueueTask | libs/model/include/model/server_loop.hpp:177-188 | the task goes to the back of its queue, which is a step of the protocol at any place of the server thread |
| ServerLoops.ServerLoop.ProcessTasks | libs/model/src/model/server_loop.cpp:112-118 | what was done followed by the queue is unchanged; one task is done unless the queue was empty; the object goes through the steps of a task turn of the protocol |
| ServerLoops.ServerLoop.ProcessInput | libs/model/src/model/server_loop.cpp:120-126 | what was handed over followed by the queue is unchanged; one input is handed over unless the queue was empty; the object goes through the steps of an input turn of the protocol |
| ServerProtocol.TaskTurn | libs/model/src/model/server_loop.cpp:112-118 | the protocol steps of process_tasks, without interleaving, do the first task in the queue, or none |
| ServerProtocol.InputTurn | libs/model/src/model/server_loop.cpp:120-126 | the protocol steps of process_input, without interleaving, hand over the first input, or none, and end the loop |
| ServerProtocol.NextKeeps | libs/model/src/model/server_loop.cpp:112-126 | every step of any thread keeps: done, in hand and queued make up all that was sent, in order; a pop finds an element; the loop is not waiting |
| ServerProtocol.RunKeeps | libs/model/src/model/server_loop.cpp:112-126 | that invariant holds over every interleaving of the threads |
| ServerProtocol.Conservation | libs/model/src/model/server_loop.cpp:112-126 | from the start, in every interleaving: what is done, in hand and queued is all that was sent, in order, for tasks and inputs alike, and no pop waits |
| ServerProtocol.TaskAnswered | libs/model/src/model/server_loop.cpp:88-118 | a task with k ahead of it is done by the end of the (k+1)-th full loop after it was sent |
| ServerProtocol.InputAnswered | libs/model/src/model/server_loop.cpp:88-126 | an input with k ahead of it is handed over by the end of the (k+1)-th full loop after it was sent |
| ServerProtocol.ServerAdvances | libs/model/src/model/server_loop.cpp:88-126 | while run_frame returns true every step of the server thread is progress: seven steps complete a loop |
| ServerProtocol.RequestReleased | libs/presenter/include/presenter/input_presenter.hpp:122-129 | a thread blocked on the future of its task is released after at most 7 (k + 2) server steps, however others interleave |
| ServerProtocol.StopsForGood | libs/model/src/model/server_loop.cpp:88 | when run_frame returns false nothing more is done or handed over, whatever is sent then, and what is queued stays |
| ServerProtocol.StopsOnly | libs/model/src/model/server_loop.cpp:88 | the loop stops at that point only |
| FrameTimer.Run | libs/model/src/model/server_loop.cpp:73-110 | the loop's average is the moving average of the overheads, and each sleep is that of the average before it |
| FrameTimer.CoefficientRange | libs/model/src/model/server_loop.cpp:56-69 | the coefficient is in [0.1, 1], and exactly 0.1 while the overhead is positive and below twice the average, the quotient being an integer one |
| FrameTimer.CoefficientExactly | libs/model/src/model/server_loop.cpp:66-68 | for every quotient k of change and average, on either side, the coefficient is 1 - 0.9 e^-k |
| FrameTimer.UpdateFromZero | libs/model/src/model/server_loop.cpp:62-64 | the first overhead is taken as it is |
| FrameTimer.UpdateRounds | libs/model/src/model/server_loop.cpp:107-108 | the update is the blend by the coefficient, rounded down to the nanosecond |
| FrameTimer.UpdateAdapts | libs/model/src/model/server_loop.cpp:66-68 | for a growing exponential, an overhead of k+1 averages or more moves the average at least 1 - 0.9 e^-k of the way, less 1 ns, at once |
| FrameTimer.UpdateLands | libs/model/src/model/server_loop.cpp:103-108 | where one update lands to the nanosecond: between the ends, and at least a tenth of the way less truncation |
| FrameTimer.UpdateBetween | libs/model/src/model/server_loop.cpp:107-108 | each update is between the old average and the new overhead |
| FrameTimer.UpdateShrinks | libs/model/src/model/server_loop.cpp:107-108 | the distance to the overhead shrinks by a tenth, strictly from above, and from below while it is 10 ns or more |
| FrameTimer.UpdateFixedExactly | libs/model/src/model/server_loop.cpp:107-108 | for every average the update leaves it unchanged if and only if it is not above the overhead and its step is below 1 ns; from 10 ns on, or above half the overhead, that is a distance of at most 9 ns, and at 0 no distance |
| FrameTimer.AveragesBounded | libs/model/src/model/server_loop.cpp:80-109 | in every run the average is between 0 and the largest overhead seen |
| FrameTimer.SleepBounded | libs/model/src/model/server_loop.cpp:97 | in every run each sleep is between 1 ns and the larger of 1 ns and the target |
| FrameTimer.Settles | libs/model/src/model/server_loop.cpp:88-109 | under a constant overhead the average never crosses it, reaches it exactly from above and comes within 9 ns from below, in at most as many frames as the distance |
| FrameTimer.SettlesFast | libs/model/src/model/server_loop.cpp:88-109 | what is more than 9 ns of the distance falls geometrically, to nine tenths with every frame: after n frames it is within 9 ns once the n-th power of 9/10 has taken the rest below 1 ns |
| FrameTimer.SettlesEnough | libs/model/src/model/server_loop.cpp:88-109 | the average is at most 9 ns below the overhead and not above it once the n-th power of 9/10 has taken the distance below 1 ns, or after as many frames as the distance |
| FrameTimer.SettledPeriod | libs/model/src/model/server_loop.cpp:97-108 | then, after geometrically few frames, sleep and overhead together are between the target and 9 ns more |
| FrameTimer.OverloadedSleep | libs/model/src/model/server_loop.cpp:97-108 | an overhead of the target and 9 ns or more settles to the shortest sleep, after geometrically few frames |
| FrameTimer.AveragesSteady | libs/model/src/model/server_loop.cpp:88-109 | any run followed by frames of one overhead is such a settling run |
| FrameTimer.SettledRate | libs/model/src/model/server_loop.cpp:77-80 | up to 1,644,736 frames per second the factor 1.015 leaves room for the 9 ns if and only if the rate is 67 or more |
| FrameTimer.TargetExactly | libs/model/src/model/server_loop.cpp:77-80 | the target is the longest whole number of nanoseconds that 1.015 times the rate, less its fraction, leaves room for |
| FrameTimer.TooFast | libs/model/src/model/server_loop.cpp:77-80 | at the next rate it does not |
| Traversal.StartOnCourse | libs/common/src/common/object_list.cpp:66-79 | after first(), returned and pending elements together are the list |
| Traversal.RemoveOnCourse | libs/common/src/common/object_list.cpp:37-52 | remove keeps the traversal on course: only an object not yet returned is missed |
| Traversal.HeadOnCourse | libs/common/src/common/object_list.cpp:130-144 | remove_head keeps it on course |
| Traversal.AddOnCourse | libs/common/src/common/object_list.cpp:113-128 | add_head and add_tail of a new object keep it on course |
| Traversal.DoOnCourse | libs/common/src/common/object_list.cpp:37-144 | each of these and next() keep it on course |
| Traversal.RunOnCourse | libs/common/src/common/object_list.cpp:37-144 | over every run of these operations the traversal stays on course |
| Traversal.TraversalComplete | libs/common/src/common/object_list.cpp:37-144 | when next() returns null, every original object not removed before its turn was returned exactly once, in order; the cursor never exceeds the size |
| Traversal.TailReturned | libs/common/src/common/object_list.cpp:37-144 | with distinct objects, those added at the tail meanwhile are returned as well, after the original ones and in the order of adding, unless removed before their turn |
| Traversal.RunInLine | libs/common/src/common/object_list.cpp:37-144 | what every run keeps for that: returned and pending objects are the line of original and added ones without those missed |
| Traversal.TailLaws | libs/common/src/common/object_list.cpp:124-128 | add_tail adds just the object, behind all others, and it is pending |
| Traversal.HeadLaws | libs/common/src/common/object_list.cpp:113-122 | add_head adds just the object, before all others, and it is pending only before the traversal starts |
| Traversal.RemoveLaws | libs/common/src/common/object_list.cpp:37-52 | remove takes away just the first occurrence and keeps the order of the rest |
| Traversal.RemoveTurn | libs/common/src/common/object_list.cpp:45-47 | what is pending loses the object exactly if it was still pending |
| Traversal.EndLaws | libs/common/src/common/object_list.cpp:130-160 | remove_head and remove_tail take away just the object at their end |
| Traversal.HeadTurn | libs/common/src/common/object_list.cpp:136-138 | remove_head takes from what is pending only before the traversal starts |
| Traversal.StepLaws | libs/common/src/common/object_list.cpp:66-91 | first() and next() answer with the first pending object and leave the list as it is |
| Traversal.NothingLaws | libs/common/src/common/object_list.cpp:41-43 | an object that is not in the list, and an empty list, change nothing |
| Traversal.RemoveTailExactly | libs/common/src/common/object_list.cpp:146-160 | remove_tail keeps the cursor in range if and only if the traversal has not ended, and its place if and only if the cursor is not at the last element |
| Traversal.ContainsExactly | libs/common/src/common/object_list.cpp:98-106 | contains leaves what is pending alone if and only if the object is absent or next in turn; next() then returns the object found |
| ObjectLists.ObjectList.First | libs/common/src/common/object_list.cpp:66-79 | the cursor goes behind the first object, which is returned; on an empty list to the start, and null is returned |
| ObjectLists.ObjectList.Next | libs/common/src/common/object_list.cpp:81-91 | returns the object at the cursor and moves behind it; null at the end, where the cursor stays |
| ObjectLists.ObjectList.Remove | libs/common/src/common/object_list.cpp:37-52 | the first occurrence found by the search loop goes and nothing else, and the cursor moves back if that was before it; true if and only if the object was there |
| ObjectLists.ObjectList.AddHead | libs/common/src/common/object_list.cpp:113-122 | the object is first, and a cursor that has started moves with its element |
| ObjectLists.ObjectList.AddTail | libs/common/src/common/object_list.cpp:124-128 | the object is last and the cursor stays |
| ObjectLists.ObjectList.RemoveHead | libs/common/src/common/object_list.cpp:130-144 | the first object goes and is returned, and a cursor that has started moves with its element; null on an empty list |
| ObjectLists.ObjectList.RemoveTail | libs/common/src/common/object_list.cpp:146-160 | the last object goes and is returned, and the cursor moves back only if it was at that object; null on an empty list |
| ObjectLists.ObjectList.Contains | libs/common/src/common/object_list.cpp:98-106 | true if and only if the object is there; the cursor moves to it |
| CommandMatches.FindCommandMatches | libs/model/src/model/console_commands.cpp:33-60 | the usable matches, trimmed and in lower case, in lexicographic order; none if detached or nothing was typed |
| CommandMatches.MatchesExactly | libs/model/src/model/console_commands.cpp:33-60 | every usable object is among the matches as often as it was given, and nothing else is; none if detached or nothing was typed |
| CommandMatches.LowerExactly | libs/model/src/model/console_commands.cpp:52 | the matches have no capital letter and differ from the objects only where there was one |
| CommandMatches.LexExactly | libs/model/src/model/console_commands.cpp:57 | the order of two strings is that of their first difference, a prefix coming first |
| CommandMatches.SortSorts | libs/model/src/model/console_commands.cpp:57 | the sorted list is in order and has the same elements |
| CommandMatches.CommonPrefixLongest | libs/view/src/view/console_input.cpp:51-60 | the mismatch gives the longest prefix of both strings |
| CommandMatches.PrefixBetween | libs/view/src/view/console_input.cpp:50-60 | whatever is between two strings in order has every prefix they share |
| CommandMatches.CommonPrefixOfAll | libs/view/src/view/console_input.cpp:44-61 | of a sorted list, the prefix common to first and last is a prefix of every entry, and a string is a prefix of it if and only if it is one of every entry |
| CommandMatches.TypedKeptLower | libs/model/src/model/console_commands.cpp:51-57 | if the engine matches without regard to case, the completion extends what was typed up to case |
| LineEditor.StepShows | libs/view/src/view/console_input.cpp:124-281 | for every key, replaying what it prints keeps the row equal to the line and the column equal to the cursor |
| LineEditor.StepGood | libs/view/src/view/console_input.cpp:124-281 | every key keeps the cursor within the line, and line and draft printable |
| LineEditor.ClearShows | libs/view/src/view/console_input.cpp:272-281 | clear_input leaves a blank row with the column at its start, from any cursor position |
| LineEditor.RecallShows | libs/view/src/view/console_input.cpp:131-134 | clearing and printing another line shows that line, however long the old one was |
| LineEditor.TailShows | libs/view/src/view/console_input.cpp:184-189 | reprinting the rest with a blank and going back shows the shortened line |
| LineEditor.InsertShows | libs/view/src/view/console_input.cpp:263-269 | reprinting the rest and going back shows the line with the new character |
| LineEditor.TabExactly | libs/view/src/view/console_input.cpp:230-234 | after a single-match Tab the screen agrees with the line if and only if the cursor was at the end of the line |
| LineEditor.LastRowShows | libs/view/src/view/console_input.cpp:238-243 | whatever is printed before the last line break, the row then shows what is printed after it |
| LineEditor.TabResyncs | libs/view/src/view/console_input.cpp:235-244 | a multi-match Tab leaves the screen right whatever was on it and whatever the listing prints |
| LineEditor.TabKeepsTyped | libs/view/src/view/console_input.cpp:235-244 | after a multi-match Tab the line extends what was typed if and only if every match does |
| LineEditor.TabCompletes | libs/view/src/view/console_input.cpp:235-246 | after a multi-match Tab a text is a prefix of the line if and only if it is one of every match, and the cursor is at the end |
| LineEditor.TabSingle | libs/view/src/view/console_input.cpp:226-234 | a single match that extends the line completes it to the match and a blank, with the cursor at the end; without a match nothing happens |
| LineEditor.MovesStop | libs/view/src/view/console_input.cpp:154-172 | Left and Right n times move the cursor n places and stop at the ends |
| LineEditor.EditAnywhere | libs/view/src/view/console_input.cpp:154-270 | every place of the line is reached from either end by Home or End and moves, and there a typed character is inserted, and Delete and Backspace take just the character behind and before it |
| LineEditor.EditNothing | libs/view/src/view/console_input.cpp:174-270 | at the ends, and for an unprintable character, nothing is done or printed |
| LineEditor.TypedErased | libs/view/src/view/console_input.cpp:174-270 | printable text typed anywhere in a line stands there with the cursor behind it, and as many Backspaces restore line and cursor |
| Console.PressAgrees | libs/view/src/view/console_input.cpp:124-281 | with the history answering Up, Down and Enter, each key keeps screen, line and history in agreement |
| Console.ScreenAgrees | libs/view/src/view/console_input.cpp:124-281 | over every sequence of keys screen, line and history stay in agreement |
| Console.ScreenAgreesFromEmpty | libs/view/src/view/console_input.cpp:124-281 | from an empty line, over every sequence of keys, single-match Tab only at the end of the line, the row is the line and blanks and the column the cursor |
| Console.BrowsingShows | libs/view/src/view/console_input.cpp:124-152 | over any mix of Up and Down the line is the entry at the history cursor, or the draft exactly when that is at its end |
| Console.UpsAndDowns | libs/view/src/view/console_input.cpp:124-152 | Up k times and Down k times, for every k, brings back the draft |
| Console.RecoveryExactly | libs/view/src/view/console_input.cpp:124-152 | they bring back the line itself if and only if no other draft is still saved |
| Console.StaleDraft | libs/view/src/view/console_input.cpp:249-255 | Up, Enter and Down bring back a draft from before Enter |
| ConsoleInputs.ConsoleInput.HandleUpArrow | libs/view/src/view/console_input.cpp:124-136 | the history moves back; if it has an entry there, line and cursor become it, the first line left is saved, and the output is that of the key for which the screen is proved to agree |
| ConsoleInputs.ConsoleInput.HandleDownArrow | libs/view/src/view/console_input.cpp:138-152 | the history moves on; the line becomes its entry, or the saved draft, which is then dropped, with the output of that key |
| ConsoleInputs.ConsoleInput.HandleLeftArrow | libs/view/src/view/console_input.cpp:154-162 | the cursor and the printed backspace are those of the key; nothing at the start of the line |
| ConsoleInputs.ConsoleInput.HandleRightArrow | libs/view/src/view/console_input.cpp:164-172 | the cursor and the printed character are those of the key; nothing at the end of the line |
| ConsoleInputs.ConsoleInput.HandleBackspace | libs/view/src/view/console_input.cpp:174-190 | the character before the cursor goes, and the whole output of the printing loop is that of the key |
| ConsoleInputs.ConsoleInput.HandleDelete | libs/view/src/view/console_input.cpp:192-205 | the character at the cursor goes, and the whole output of the printing loop is that of the key |
| ConsoleInputs.ConsoleInput.HandleHome | libs/view/src/view/console_input.cpp:207-213 | the cursor goes to the start and a return is printed, only if it was not there |
| ConsoleInputs.ConsoleInput.HandleEnd | libs/view/src/view/console_input.cpp:215-220 | the loop prints the rest of the line, one step to the right each |
| ConsoleInputs.ConsoleInput.HandleTab | libs/view/src/view/console_input.cpp:222-247 | the request is enqueued as a task; nothing changes without matches; the rest of a single match is appended, and substr throws if and only if it is shorter than the line; of several sorted matches the common prefix becomes the line, behind the cleared row and the listing |
| ConsoleInputs.ConsoleInput.HandleNewline | libs/view/src/view/console_input.cpp:249-255 | the line is enqueued with a line break and appended to the history, then emptied; the draft stays |
| ConsoleInputs.ConsoleInput.HandleChar | libs/view/src/view/console_input.cpp:257-270 | a printable character is inserted and the rest reprinted; others change nothing |
| ConsoleInputs.ConsoleInput.ClearInput | libs/view/src/view/console_input.cpp:272-281 | prints to the end of the line and rubs all of it out; the cursor is left at the end |
| ConsoleInputs.ConsoleInput.PrintBack | libs/view/src/view/console_input.cpp:187-189 | the loop prints one backspace for each position |
| ConsoleInputs.ConsoleInput.PrintTail | libs/view/src/view/console_input.cpp:184-189 | prints the rest, a blank and the way back |

## Left out

* Command line: the search over `argv`, `get_argument_option_as` (number
  conversion), and a name that is empty, where the program reads the first
  character of an empty string.
* RemoveMentionExactly: one deleted argument with one mention in its option,
  and a name without `+` and `-` in it, as all names in the program are. For
  several such options there is only the one direction of `RightExcludes`,
  because their errors can cancel (`ErrorsCancel`).
* RemoveExactly: its hypothesis leaves out deleted options that mention the
  name; `ExecTakesMap` shows that without it the law is false.
* Process: the laws are stated for well-formed text that is separated for the
  names the handlers look up; the four handlers that only read the arguments and
  act on the process (log file, pid file, signals, crash dumps) are one case
  without effect on the text.
* BuildArgumentsString: requires acyclic references, because the program does
  not end on cyclic ones; read errors are files that are not there, and the size
  limit of a read is not modelled.
* Strings: the string library is not part of this model. Trimming, splitting,
  lines and printable characters are defined over fixed character sets, and
  lower case over ASCII only.
* History files: reads and writes succeed, and the translation of line ends on
  Windows is not modelled.
* CircularBuffer: `max_size`, and the second overload of each accessor.
* ThreadSafeQueue: `front`, `back`, copies and moves; each operation is one step.
  Spurious wake-ups of the condition variable are not modelled.
* ServerLoop: the variant without a target rate and its sleep selection, the
  status line and its observers, start and end of threads. The bounds on
  response hold while `run_frame` returns true.
* RequestReleased: counts steps of the server thread, not time.
* FrameTimer: real numbers stand for doubles, the exponential is a parameter
  that is 1 at 0 and in (0, 1] up to there, and overflow of an extreme rate is
  not modelled. The Windows sleep and its interval are left out, and so is the
  time in `run_frame`, which the loop does not measure.
* Terminal: rows are as wide as needed, a character takes one cell, and no log
  output comes between. Reading keys and escape sequences is left out.
* FindCommandMatches: computes the answer at once; that the task it enqueued is
  done first, and when, is what `TaskAnswered` and `RequestReleased` say.
* HandleTab: what the engine answers is an input, and the wait for it is not a
  step of the class (`RequestReleased` bounds it); the column layout of the list
  is opaque text on rows above. Matches are taken to be printable.
* SettledRate: ends at the last rate before the first that fails.
* TraversalComplete: `remove_tail` and `contains` are not among its operations,
  because they move the cursor; `RemoveTailExactly` and `ContainsExactly` say
  how. Objects added meanwhile are not original ones.
* ObjectList: sorting, erasing and iterators, and freeing of memory.
* Modules, interfaces, the engine, the file system, the logger and the process
  utilities: calls into code outside this repository.
