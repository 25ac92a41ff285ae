# thread_race: the time-trial race resolver in Dafny

This project models the race at the heart of `thread_race`'s `main.py`.
Every competitor (a `ThreadCompetitor`) runs the same workload in its own
thread. Each thread appends a (duration, competitor) pair to a shared list,
and after the threads have joined, every competitor's `time` is overwritten
with its duration. The field is then ordered stably by time, and the minimum
time and the number of competitors at it are computed. The round is a win
when the minimum is unique and a draw otherwise. On a draw, only the tied
competitors race again. Every round's status and positions are appended to
the history, and the race returns that history at the first win.

The model has four modules:

- `Ordering` (`ordering.dfy`): the stable sort behind
  `ThreadCompetitor.order_by_time`, Python's `min` and `list.count` on the
  list of times, and the facts about ties they rest on.
- `Rounds` (`rounds.dfy`): one round on values. Competitors' times are a map.
  It covers the write-back of the threads' results, the evaluation
  (`Classify`, `Positions`, `Narrow`) and `PlayRound`, with `Settles` stating
  what every round guarantees.
- `Tournament` (`tournament.dfy`): the `while True` loop as the recursive
  function `RaceFrom`. It is written over the round function it plays, so its
  lemmas need only what a round guarantees. `Race` is that loop playing
  `PlayRound`, starting from an empty history.
- `ThreadRace` (`race.dfy`): the same race on objects. `Competitor` is a class
  with a mutable `time` field. `RecordTimes`, `EvaluateRound`, `RunRound` and
  `ExecuteRace` are methods that update those fields. Each is proved to agree
  with the value-level functions, read through `TimeMap`.

The threads are not modelled as threads. Each round's input is the list they
produce, and `schedule[k]` is the list appended in round `k`. Durations are
integer clock ticks compared by exact equality, as the source compares floats.

## Model

| member | source | states |
|---|---|---|
| `Ordering.SortByTime` | main.py:58-59 | `sorted(var, key=lambda x: x.time)`, an insertion of each entry into the sorted rest, keeps the list's length; its order, contents and stability are the three lemmas below |
| `Ordering.SortByTimeSorted` | main.py:57-59 | `order_by_time` returns its entries non-decreasing by time |
| `Ordering.SortByTimePermutation` | main.py:57-59 | `order_by_time` returns a permutation of its input (same multiset of entries) |
| `Ordering.SortByTimeKeepsCompetitors` | main.py:57-59 | the sorted list holds the same competitors, none dropped or duplicated |
| `Ordering.SortByTimeStable` | main.py:57-59 | the sort is stable: for every time, the entries at that time keep their input order |
| `Ordering.MinTime` | main.py:92 | `min` of a non-empty list of times is one of them and at most every one |
| `Ordering.CountTime` | main.py:93 | `count` is at most the list's length, and zero exactly when the value is absent |
| `Ordering.CountTimeIsTies` | main.py:91-93 | counting a time in the list of times counts the entries at that time |
| `Rounds.WriteBack` | main.py:86-87 | the times after the write-back loop over the appended pairs are defined for the competitors that had a time and for every competitor named in a pair |
| `Rounds.WriteBackMeasured` | main.py:86-87 | after the write-back of a measurement, each measured competitor holds its duration and every other competitor keeps its time |
| `Rounds.WriteBackOrderIndependent` | main.py:86-87 | the order in which threads appended their results does not change the resulting times |
| `Rounds.Appended` | main.py:37-39 | the list the threads build holds one (duration, competitor) pair per finished thread, the `i`th being the `i`th to finish with its own duration |
| `Rounds.ThreadAppendsMeasure` | main.py:37-39 | one appended (duration, competitor) pair per thread, in any finishing order, is a measurement of the field, and its write-back gives each racer its own duration whatever that order |
| `Rounds.Classify` | main.py:93-101 | on a non-empty field the status is a win exactly when a single entry holds the minimum time, and a draw exactly when `count(min) > 1` |
| `Rounds.Positions` | main.py:89-97 | the recorded positions have the field's length and hold exactly the field's competitors |
| `Rounds.Narrow` | main.py:100-102 | on a non-empty field the next field, `ordered_comp[:time_min_count]`, is exactly the competitors holding the minimum time, in their pre-round order |
| `Rounds.MinCount` | main.py:91-93 | on a non-empty field at least one and at most all competitors share the minimum |
| `Rounds.WinnerIsUniqueMinimum` | main.py:92-101 | `positions[0]` holds the minimum time, and the round is a win exactly when every other position is strictly slower (a draw exactly when the minimum is shared) |
| `Rounds.TiedPrefix` | main.py:89-102 | the narrowed field is exactly the competitors at the minimum, in their pre-round order, and it is a prefix of the positions whose length is the count |
| `Rounds.DrawNarrows` | main.py:100-102 | a draw keeps at least two competitors, all from the round's field, never more than it had |
| `Rounds.NarrowKeepsAllIffAllTied` | main.py:100-102 | the narrowed field equals the whole field exactly when every competitor tied |
| `Rounds.TwoOfThreeTie` | main.py:89-102 | times 5, 3, 3 give a draw that narrows to the two competitors at 3 |
| `Rounds.DistinctDurationsWin` | main.py:86-101 | with pairwise distinct measured durations the round is a win |
| `Rounds.PlayRound` | main.py:86-102 | one pass of the loop body on values: write-back, evaluation and narrowing. It has no contract of its own; what every round guarantees is `Rounds.PlayRoundSettles` |
| `Rounds.PlayRoundSettles` | main.py:86-102 | every round on a non-empty field settles: positions reorder the field and are non-decreasing by the times the round left; a draw keeps the prefix of the positions whose time equals that of the first, at least two of them; a win keeps the field and its first position is strictly fastest |
| `Rounds.WinnerTimeIsMinimum` | main.py:86-98 | in every round, `positions[0]` ends with the smallest duration the threads measured |
| `Tournament.RaceFrom` | main.py:74-108 | the loop from a field, times and a history: a success adds at least one entry to the history and at most one per scheduled measurement. When it fails for an empty field (`min` of an empty list) or for a field listing a competitor twice (its thread started twice) is stated by `Tournament.FailsOnlyWhenEmpty` and `Tournament.DuplicatesOnlyAtStart` |
| `Tournament.Race` | main.py:71-110 | `execute_race`: the loop playing `PlayRound` from an empty history. It has no contract of its own; the `Tournament.Race*` lemmas below state what it guarantees |
| `Tournament.HistoryExtends` | main.py:72-110 | the history only grows: earlier entries stay, one entry is added per round played, at most one per scheduled measurement |
| `Tournament.EndsWithWin` | main.py:105-108 | the returned history is draws followed by exactly one win, its last entry |
| `Tournament.RoundsNarrow` | main.py:100-105 | for any round that settles: the first round played races the whole field, and every later round races a reordering of a prefix of the previous round's positions, at least two and never more than before |
| `Tournament.EntryOrderedByTimes` | main.py:86-105 | for any round that settles and leaves its write-back: every recorded entry's positions are non-decreasing by the times its round left, which are the write-backs of every measurement used up to and including its own |
| `Tournament.DrawsKeepTheTied` | main.py:86-105 | for any round that settles and leaves its write-back: each recorded draw that is followed by another entry hands on exactly its positions tied with the first, by the times that round left |
| `Tournament.WinnerStrictlyFastest` | main.py:95-108 | for any round that settles: the winner, `positions[0]` of the last entry, exists, and its final time is strictly below every other competitor's of that round |
| `Tournament.FailsOnlyWhenEmpty` | main.py:91-92 | for any round that settles: the race fails for lack of competitors (the error of `min` on an empty list) exactly when it starts with none |
| `Tournament.DuplicatesOnlyAtStart` | main.py:77-102 | for any round that settles: the race fails because a competitor is listed twice (its thread would be started twice) exactly when the field it starts from lists one twice; narrowing never repeats a competitor |
| `Tournament.FinalTimesReplayRounds` | main.py:86-110 | for any round that leaves its write-back: competitors are shared between rounds: the final times are all the rounds' write-backs replayed in order, so later rounds overwrite the times earlier positions were ordered by |
| `Tournament.RaceEndsWithWin` | main.py:72-108 | `execute_race` returns draws followed by one win, at most one entry per scheduled measurement |
| `Tournament.RaceRoundsNarrow` | main.py:100-105 | in `execute_race`, the first round races the whole field, and every later round races a reordering of a prefix of the previous round's positions, at least two and never more than before |
| `Tournament.RaceRoundOrderedByTimes` | main.py:86-105 | in `execute_race`, the positions of the `k`th round are non-decreasing by the times it left, the write-backs of the first `k + 1` measurements |
| `Tournament.RaceDrawKeepsTheTied` | main.py:86-105 | in `execute_race`, a draw in round `k` followed by another round hands on exactly its positions tied with the first by the times it left, which are those holding its minimum time |
| `Tournament.RaceWinnerStrictlyFastest` | main.py:95-108 | in `execute_race`, the winner exists and its final time is strictly below every other competitor's of the last round |
| `Tournament.RaceFailsOnlyWhenEmpty` | main.py:91-92 | `execute_race` fails on `min` of an empty list exactly when it is given no competitors |
| `Tournament.RaceFinalTimes` | main.py:86-110 | the times `execute_race` leaves are the write-backs of every round it played, in order |
| `Tournament.RaceRejectsRepeatedCompetitor` | main.py:77-81 | `execute_race` fails because a competitor is listed twice exactly when it is given a field that lists one twice |
| `Tournament.LoneCompetitorWins` | main.py:74-108 | a single competitor still runs one round, which it wins, and the history is that one win |
| `Tournament.DistinctDurationsDecideFirstRound` | main.py:86-108 | if the first measurement has pairwise distinct durations, the race ends after one win whose `positions[0]` has the smallest duration, and the times are that round's write-back |
| `ThreadRace.Competitor.constructor` | main.py:49-55 | a new competitor has the given identity and the default time 0 |
| `ThreadRace.Competitor.OrderByTime` | main.py:57-59 | the competitors are returned as a permutation sorted by their current `time` |
| `ThreadRace.RecordTimes` | main.py:86-87 | the write-back loop changes only the measured competitors, and leaves the times `WriteBack` gives |
| `ThreadRace.EvaluateRound` | main.py:89-102 | ordering, `min`, `count`, status and narrowing on the objects agree with `Classify`, `Positions` and `Narrow` on their times |
| `ThreadRace.RunRound` | main.py:75-102 | one pass of the loop gives `PlayRound`'s result, next field and times |
| `ThreadRace.ExecuteRace` | main.py:71-110 | `execute_race` changes only the competitors' times, and its history and the times it leaves are those of `Race` |

## Left out

- Threads, `start` and `join`: a round's input is the list the threads
  produce, in any finishing order (`Rounds.ThreadAppendsMeasure`).
  Interleaving and the thread-safety of `list.append` are not modelled.
- `get_function_time` and `perf_counter`: durations are inputs, supplied by
  the schedule as integer ticks. Float subtraction and rounding are not
  modelled; ties use exact equality as in the source.
- `run_list` (the workload), `main`, `print_header`, the HTTP requests and
  the betting dialogue: outside the race resolver.
- `ThreadCompetitor.new_thread` and the `thread` field: these only wire a
  thread to `store_value`. Their one visible effect is kept: a competitor
  listed twice gets its thread started twice, which raises before any
  duration is written back, and the model returns `DuplicateCompetitors`
  there.
- `store_value`'s defaulting of `args` and `kwargs`, its return value, and its
  branch for a falsy `return_append` (a bare append). The race always passes
  the competitor itself, which is truthy.
- The unbounded `while True` loop: the model runs on a finite schedule of
  measurements. When the schedule runs out before a win, the result is
  `OutOfMeasurements`; the source has no such outcome.
- The `.copy()` calls and `del ordered_comp`: sequences are values in Dafny,
  so the positions and the returned history are copies by construction. The
  competitors in them stay shared objects (`Tournament.FinalTimesReplayRounds`,
  `ThreadRace.ExecuteRace`).
- With no competitors, `execute_race` starts no thread, writes nothing back,
  and `min` raises. The model returns `EmptyCompetitors` before using that
  round's measurement, which leaves the same state.
- ThreadRace.Competitor.OrderByTime: stability is proved for the value-level
  sort it returns (`Ordering.SortByTimeStable`) rather than restated on the
  objects.

## Notes on the code's behaviour

- After a draw in which every competitor tied, the next field is the whole
  field in the same order (`Rounds.NarrowKeepsAllIffAllTied`).
- The positions recorded in an earlier draw were ordered by that round's
  times, which later rounds overwrite on the shared objects
  (`Tournament.FinalTimesReplayRounds`, `Tournament.RaceRoundOrderedByTimes`).
