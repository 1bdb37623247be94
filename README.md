# Battleships AI tester: game loop and result summary

This project models two parts of the battleships AI tester in Dafny and proves their properties.

**The game loop** (`GameSequence.Run`, in `game_sequence.dfy`) plays up to `GamesCount` games against one AI:
- It adds every game's bad shots to a running total.
- It records the turn count of every game the AI finished without crashing.
- It counts crashes and repairs the AI after a crash.
- It stops early once the crash count exceeds `CrashLimit`.
- At the end it disposes the AI and reports one `GameSequenceResult`.

A game is represented by the counters it ends with (`GameOutcome`). The i-th element of the `games` input is what playing game i to its end yields. The observable actions of the loop come out as a trace of `Event`s, in order: each `RepairAi`, each per-game report (verbose mode), the disposal of the AI and the final report. The method is proved against a declarative description:
- `Stops` says how many games are played.
- `Summary` gives the totals over the games played.
- `SequenceTrace` gives the events.

Lemmas derive the promised properties from these: the crash bound, the accounting of games, the repair count and the report contents.

**The result summary** (`AiTester`, in `ai_tester.dfy`) covers the integer and string part of `AiTester.WriteTotal`:
- An empty list of turn counts is replaced by the sentinel `[1000000]`.
- The caller's list is sorted in place. `IntList` stands for the C# `List<int>`.
- The median is computed with C#'s 32-bit wrap-around and truncating division written out.
- Fixed-width table cells (`FormatValue`) and rows (`FormatTableRow`) are built.

For an even count, line 35 reads the elements at `Count / 2` and `(Count + 1) / 2`. Under integer division these are the same index. So the "median" is always the upper of the two central elements, not their average as a conventional median would be. The model follows the code: `Median` is the element at `Count / 2` whenever doubling it does not overflow. `MedianOfEvenCountIsUpperMiddle` gives two examples.

## Model

| member | source | states |
|---|---|---|
| `GameSequence.Run` | HomeTask/battleships/GameSequence.cs:55-86 | the number of games played satisfies the stopping rule; the result holds the turn counts of the non-crashed games in order, the crash count, and the bad shots of every game played (including crashed games and the one that breaks the loop); the actions happen in exactly the order of `SequenceTrace` |
| `GameSequence.SummaryAppend` | HomeTask/battleships/GameSequence.cs:71-80 | crashes, bad shots and recorded turn counts of two consecutive stretches of play add up; turn counts keep the order of play |
| `GameSequence.GamesAccounted` | HomeTask/battleships/GameSequence.cs:71-80 | every game played is either a crash or contributes exactly one turn count: `shots.Count + crashes == gamesPlayed` |
| `GameSequence.BadShotsMonotone` | HomeTask/battleships/GameSequence.cs:72 | the running bad-shot total never decreases from one game to the next |
| `GameSequence.CrashesBeforeBreak` | HomeTask/battleships/GameSequence.cs:73-77 | while no crash has broken the loop, the crash count is at most `CrashLimit` (0 for a negative limit) |
| `GameSequence.CrashLimitRespected` | HomeTask/battleships/GameSequence.cs:66-76 | at most `max(CrashLimit, 0) + 1` games crash (1 for a negative limit); stopping before `GamesCount` happens only through the break; the breaking game crashed and its crash is number `max(CrashLimit, 0) + 1` |
| `GameSequence.GamesPlayedDetermined` | HomeTask/battleships/GameSequence.cs:66-76 | the stopping rule admits exactly one number of games played |
| `GameSequence.NoGames` | HomeTask/battleships/GameSequence.cs:60-85 | with `GamesCount <= 0` no game is played; the AI is disposed, then a result with no shots, no crashes, no bad shots and no games is reported |
| `GameSequence.GameEventsCounts` | HomeTask/battleships/GameSequence.cs:73-82 | a game that does not break the loop repairs the AI exactly when it crashed, and is reported exactly when verbose |
| `GameSequence.EventsBeforeCounts` | HomeTask/battleships/GameSequence.cs:66-83 | over the first k completed games there is one repair per crash and, when verbose, one report per game |
| `GameSequence.EventsBeforeShape` | HomeTask/battleships/GameSequence.cs:77-82 | before disposal only repairs and reports occur; each repair names a game already played that crashed; each report names a game already played, with its own turn count and crash flag and the bad shots accumulated up to and including it |
| `GameSequence.RunTraceShape` | HomeTask/battleships/GameSequence.cs:73-85 | repairs equal crashes minus the breaking crash; no report is made for the breaking game; the AI is disposed exactly once, after all games and immediately before the sequence result is reported |
| `AiTester.IntList.Add` | HomeTask/battleships/AiTester.cs:33 | appending puts the value at the end of the caller's list and keeps everything else |
| `AiTester.IntList.Sort` | HomeTask/battleships/AiTester.cs:34 | after sorting, the caller's list is in non-decreasing order and a permutation of what it held |
| `AiTester.SortSeq` | HomeTask/battleships/AiTester.cs:34 | the sorted list is in non-decreasing order and has the same elements with the same multiplicities |
| `AiTester.Insert` | HomeTask/battleships/AiTester.cs:34 | inserting into a sorted list keeps it sorted and adds exactly that element |
| `AiTester.SortedPermutationUnique` | HomeTask/battleships/AiTester.cs:34 | two sorted permutations of the same list are equal, so the result of the sort does not depend on the sorting algorithm |
| `AiTester.AddWrap` | HomeTask/battleships/AiTester.cs:35 | the 32-bit sum agrees with the true sum modulo 2^32, and equals it when it fits |
| `AiTester.HalfTowardZero` | HomeTask/battleships/AiTester.cs:35 | halving rounds toward zero: the remainder is 0 or has the sign of the dividend |
| `AiTester.Median` | HomeTask/battleships/AiTester.cs:35 | for an odd count the median is the middle element, whatever its value; for an even count it is also the element at `Count / 2` whenever that element lies in [-2^30, 2^30) |
| `AiTester.MedianWithinRange` | HomeTask/battleships/AiTester.cs:34-35 | for an odd count, or for an even count whose element at `Count / 2` lies in [-2^30, 2^30), the median of a sorted list is one of its elements and lies between its first (least) and last (greatest) element |
| `AiTester.MedianOfEvenCountIsUpperMiddle` | HomeTask/battleships/AiTester.cs:35 | for an even count the upper central element is taken, not the average (`[1, 3]` gives 3) |
| `AiTester.MedianWrapsOnHugeTurnCounts` | HomeTask/battleships/AiTester.cs:35 | for two central elements of 2^30 the doubled sum wraps, and the median falls below the list's minimum |
| `AiTester.WriteTotal` | HomeTask/battleships/AiTester.cs:31-35 | afterwards the caller's list is non-empty and sorted: it is exactly `[1000000]` if it was empty, and otherwise a permutation of its old contents; the median is `Median` of the sorted list; it lies between the minimum and maximum for every odd count, and for an even count when the element at `Count / 2` lies in [-2^30, 2^30) |
| `AiTester.ReplaceTabs` | HomeTask/battleships/AiTester.cs:60 | same length; every tab becomes a space and every other character is kept |
| `AiTester.PadRight` | HomeTask/battleships/AiTester.cs:60 | the text is kept as a prefix and spaces are added up to the width; longer text is unchanged |
| `AiTester.FormatValue` | HomeTask/battleships/AiTester.cs:58-61 | a cell is always exactly `width` characters long and never contains a tab |
| `AiTester.FormatValueChars` | HomeTask/battleships/AiTester.cs:60 | character i of a cell is character i of the text with tabs made spaces, or a space past the text's end |
| `AiTester.FormatValuePads` | HomeTask/battleships/AiTester.cs:60 | text shorter than the width becomes the text (tabs made spaces) followed by spaces |
| `AiTester.FormatValueCuts` | HomeTask/battleships/AiTester.cs:60 | text at least as long as the width is cut to its first `width` characters (tabs made spaces) |
| `AiTester.FormatValueIdempotent` | HomeTask/battleships/AiTester.cs:60 | formatting a cell again to the same width leaves it unchanged |
| `AiTester.Join` | HomeTask/battleships/AiTester.cs:55 | the first part opens the joined string |
| `AiTester.JoinCells` | HomeTask/battleships/AiTester.cs:55 | joining 7-wide cells with single spaces gives length `8k - 1`; cell j sits at offset `8j` and is followed by a space unless it is the last |
| `AiTester.JoinLeavesOut` | HomeTask/battleships/AiTester.cs:55 | a character absent from the separator and from every part is absent from the joined string |
| `AiTester.JoinAppend` | HomeTask/battleships/AiTester.cs:55 | joining one more part appends the separator and that part |
| `AiTester.FormatTableRow` | HomeTask/battleships/AiTester.cs:52-56 | the row has the 15-wide first cell at offset 0 and value j as a 7-wide cell at offset `8j + 7`; its length is 15 for one value and `8k + 6` for k >= 2 values (70 for the eight-column rows of lines 42-43); it never contains a tab |
| `AiTester.TableRowGrows` | HomeTask/battleships/AiTester.cs:52-56 | adding a value appends its 7-wide cell: directly after the first cell, and after one space otherwise |

## Left out

- HomeTask/battleships/Program.cs is not part of this model. It checks arguments and files, sets the culture and wires logging.
- `Ai`, `ProcessMonitor` and the AI process's lifecycle are not modelled. This includes the time and memory budget (GameSequence.cs:59) and the `ProcessCreated` subscription (line 65). They are OS processes and background supervision, and their code is not shown. Disposal and repair appear only as the `Disposed` and `Repaired` events.
- `MapGenerator`, `GameVisualizer` and `Game` are not modelled: map generation, steps, `IsOver`, `RepairAi` internals and `LastError`. Their code is not shown. The outcome of each game is an input.
- `RunGameToEnd` (GameSequence.cs:88-101) is not modelled: neither its loop, its termination nor interactive visualisation and console output. Each game's end counters are taken as given.
- Run: requires that at least `GamesCount` game outcomes are supplied. This is a requirement on the environment, not a check the C# code makes.
- Run: models only the `GamesCount`, `CrashLimit` and `Verbose` settings. The others feed the parts left out.
- Run: assumes that every step of the loop returns normally. The C# `Run` has no try/finally (GameSequence.cs:66-85). An exception from map generation, `new Game`, `RunGameToEnd`, `RepairAi` or a `ProvideGameResult` subscriber skips both `ai.Dispose()` (line 84) and the final report (line 85). The model does not capture these exit paths. So "the AI is disposed exactly once" (`RunTraceShape`) holds only for runs in which nothing throws.
- Run: counters are unbounded naturals. The 32-bit overflow of the C# `int` counters `badShots`, `crashes` and `gamesPlayed` is not modelled.
- The `ProvideGameResult` and `ProvideSequanceResults` events appear only as the `GameReported` and `SequenceReported` entries of the trace. Nothing is modelled of their subscribers.
- `TestSingleFile` (AiTester.cs:19-29) and the `Info` event (AiTester.cs:44) are not modelled. This covers the console subscriber that prints each game's result and the wiring of the sequence result into `WriteTotal`.
- WriteTotal: covers lines 33-35 only. Mean, sigma, bad fraction, crash penalty, efficiency score and score (AiTester.cs:36-41) are double-precision arithmetic with `Math.Sqrt`. The message row and the printing (lines 43-49) are left out too.
- FormatValue: a Dafny `char` is a Unicode scalar value, while C#'s `Length`, `PadRight` and `Substring` count UTF-16 code units. The model matches C# only for text inside the Basic Multilingual Plane. For text with characters outside it, C# keeps fewer characters per cell and can split a surrogate pair at the cell's edge. The model does not capture this.
- Join: its own contract states only that the first part opens the result. The layout of joined cells is stated by `JoinCells`, `JoinAppend` and `JoinLeavesOut`.
- FormatValue: takes the value's text as a string. `object.ToString()` of ints and doubles depends on the culture and on float formatting.
- In C#, `GameSequenceResult.Shots` and the list that `WriteTotal` changes are the same object, so the sentinel and the sort also show in the result object. In the model the sequence result holds a value, and `WriteTotal` works on a separate `IntList`.
- `List<int>.Sort` is modelled by an insertion sort. `SortedPermutationUnique` shows that any sort yields the same list.
