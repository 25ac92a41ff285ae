/**
 The race as a whole, on values: rounds are played until one ends in a win,
 each draw narrowing the field to the competitors tied at the minimum, and
 every round's result is appended to the history.

 The race has no bound on the number of rounds; here it is driven by a finite
 schedule holding, for each round, the list of (duration, competitor) pairs
 the racing threads appended. Running out of that schedule is reported as
 `OutOfMeasurements`.

 The loop is written over the round it plays, `play`, so that its lemmas
 rest only on what a round guarantees (`Settles`); the race itself plays
 `PlayRound`. Each property of a run is named by a predicate over the run,
 which the lemma about the loop establishes for any round that settles and
 the lemma about the race for `PlayRound`.
 */
module Tournament {
  import opened Ordering
  import opened Rounds

  datatype RaceError =
    | EmptyCompetitors       // `min` of an empty list of times
    | DuplicateCompetitors   // a competitor listed twice: its thread is started twice
    | OutOfMeasurements      // the schedule ended before a round was won

  datatype Result<T> = Success(value: T) | Failure(error: RaceError)

  /** What a race leaves behind: its outcome and every competitor's time. */
  datatype RaceRun<T> = RaceRun(result: Result<seq<RaceResult<T>>>, times: map<T, int>)

  /** The `while True` loop of the race, from a field `active`, competitors'
      times `times` and the results `history` recorded so far. A field that
      lists one competitor twice fails before its threads have run, since
      that competitor's thread is started twice. A success records at least
      one round and at most one per scheduled measurement. */
  function RaceFrom<T(==)>(play: (seq<T>, map<T, int>, seq<Timed<T>>) -> Round<T>,
                           active: seq<T>, times: map<T, int>, schedule: seq<seq<Timed<T>>>,
                           history: seq<RaceResult<T>>): (run: RaceRun<T>)
    ensures run.result.Success? ==> |history| < |run.result.value| <= |history| + |schedule|
    decreases |schedule|
  {
    if active == [] then RaceRun(Failure(EmptyCompetitors), times)
    else if !Distinct(active) then RaceRun(Failure(DuplicateCompetitors), times)
    else if schedule == [] then RaceRun(Failure(OutOfMeasurements), times)
    else
      var round := play(active, times, schedule[0]);
      var recorded := history + [round.result];
      if round.result.status == Win then RaceRun(Success(recorded), round.measured)
      else RaceFrom(play, round.next, round.measured, schedule[1..], recorded)
  }

  /** `execute_race(competitors)`, starting with an empty history. */
  function Race<T(==)>(competitors: seq<T>, times: map<T, int>, schedule: seq<seq<Timed<T>>>): RaceRun<T>
  {
    RaceFrom(PlayRound, competitors, times, schedule, [])
  }

  /** `PlayRound` settles every round on a non-empty field. */
  lemma PlayRoundSound<T>()
    ensures forall a: seq<T>, t: map<T, int>, rs: seq<Timed<T>> :: a != [] ==> Settles(a, PlayRound(a, t, rs))
  {
    forall a: seq<T>, t: map<T, int>, rs: seq<Timed<T>> | a != []
      ensures Settles(a, PlayRound(a, t, rs))
    {
      PlayRoundSettles(a, t, rs);
    }
  }

  /** Every round leaves the times its write-back gives. */
  lemma PlayRoundMeasures<T>()
    ensures forall a: seq<T>, t: map<T, int>, rs: seq<Timed<T>> :: PlayRound(a, t, rs).measured == WriteBack(t, rs)
  {
  }

  /** The times after writing back the first `n` measurements of `rounds`,
      one after the other (all of them when there are fewer). */
  function Replay<T(==)>(times: map<T, int>, rounds: seq<seq<Timed<T>>>, n: nat): map<T, int>
    decreases n
  {
    if n == 0 || rounds == [] then times else Replay(WriteBack(times, rounds[0]), rounds[1..], n - 1)
  }

  ghost predicate AllDraws<T>(h: seq<RaceResult<T>>)
  {
    forall k :: 0 <= k < |h| ==> h[k].status == Draw
  }

  /** Each draw's successor field is a reordering of a prefix of the draw's
      positions, of at least two competitors. */
  ghost predicate Narrowing<T>(h: seq<RaceResult<T>>)
  {
    forall k :: 1 <= k < |h| ==>
      && 2 <= |h[k].positions| <= |h[k - 1].positions|
      && multiset(h[k].positions) == multiset(h[k - 1].positions[..|h[k].positions|])
  }

  // Properties of a run. `from` is the length of the history when the run
  // started from the field `field`, the times `times` and the measurements
  // `rounds`; a race starts from an empty history.

  /** A successful run recorded at least one round and at most one per
      measurement, and its history is draws followed by exactly one win. */
  ghost predicate DrawsThenWin<T>(run: RaceRun<T>, from: nat, rounds: nat)
  {
    var r := run.result;
    r.Success? ==>
      && from < |r.value| <= from + rounds
      && r.value[|r.value| - 1].status == Win
      && AllDraws(r.value[..|r.value| - 1])
  }

  /** A successful run first raced the whole field, and then each round a
      reordering of a prefix of the previous round's positions. */
  ghost predicate NarrowsFrom<T>(run: RaceRun<T>, from: nat, field: seq<T>)
  {
    var r := run.result;
    r.Success? ==>
      && from < |r.value|
      && multiset(r.value[from].positions) == multiset(field)
      && Narrowing(r.value)
  }

  /** The run's `k`th entry, if it recorded one, has its positions ordered by
      the times its round left: the write-backs of the measurements up to
      and including its own. */
  ghost predicate EntryOrdered<T>(run: RaceRun<T>, from: nat, times: map<T, int>, rounds: seq<seq<Timed<T>>>, k: nat)
  {
    var r := run.result;
    r.Success? && from <= k < |r.value| ==> OrderedBy(r.value[k].positions, Replay(times, rounds, k - from + 1))
  }

  /** A draw the run recorded as its `k`th entry, followed by another entry,
      kept as the next field exactly its positions tied with its first by the
      times its round left. */
  ghost predicate DrawKeepsTied<T>(run: RaceRun<T>, from: nat, times: map<T, int>, rounds: seq<seq<Timed<T>>>, k: nat)
  {
    var r := run.result;
    r.Success? && from <= k < |r.value| - 1 ==>
      TiedFirst(r.value[k].positions, |r.value[k + 1].positions|, Replay(times, rounds, k - from + 1))
  }

  /** A successful run's last entry has a first position, the winner, whose
      final time is strictly below that of every other competitor of that
      round. */
  ghost predicate WinnerFastest<T>(run: RaceRun<T>)
  {
    var r := run.result;
    r.Success? ==>
      && |r.value| > 0
      && var w := r.value[|r.value| - 1].positions;
         |w| >= 1 && FastestFirst(w, run.times)
  }

  /** A successful run leaves the times that the write-backs of the rounds it
      played give, one after the other. */
  ghost predicate TimesReplayed<T>(run: RaceRun<T>, from: nat, times: map<T, int>, rounds: seq<seq<Timed<T>>>)
  {
    run.result.Success? ==>
      && from < |run.result.value| <= from + |rounds|
      && run.times == Replay(times, rounds, |run.result.value| - from)
  }

  /** The run fails for lack of competitors exactly when its field is empty. */
  ghost predicate EmptyFailsExactly<T>(run: RaceRun<T>, field: seq<T>)
  {
    run.result == Failure(EmptyCompetitors) <==> field == []
  }

  /** The run fails because a competitor is listed twice exactly when its
      field lists one twice. */
  ghost predicate RepeatFailsExactly<T>(run: RaceRun<T>, field: seq<T>)
  {
    run.result == Failure(DuplicateCompetitors) <==> field != [] && !Distinct(field)
  }

  /** The history only grows: the results recorded so far stay, and at most one
      result is added per scheduled round. This holds whatever a round does. */
  lemma {:induction false} HistoryExtends<T>(play: (seq<T>, map<T, int>, seq<Timed<T>>) -> Round<T>,
                                             active: seq<T>, times: map<T, int>, schedule: seq<seq<Timed<T>>>,
                                             history: seq<RaceResult<T>>)
    ensures var r := RaceFrom(play, active, times, schedule, history).result;
      r.Success? ==> |history| < |r.value| <= |history| + |schedule| && r.value[..|history|] == history
    decreases |schedule|
  {
    if active != [] && Distinct(active) && schedule != [] {
      var round := play(active, times, schedule[0]);
      var recorded := history + [round.result];
      if round.result.status == Draw {
        HistoryExtends(play, round.next, round.measured, schedule[1..], recorded);
        var r := RaceFrom(play, active, times, schedule, history).result;
        if r.Success? {
          assert r.value[..|history|] == r.value[..|history| + 1][..|history|];
        }
      } else {
        assert recorded[..|history|] == history;
      }
    }
  }

  /** The entry the loop records next is the result of the round it plays on
      the current field with the next measurement. This holds whatever a
      round does. */
  lemma NextEntryIsRound<T>(play: (seq<T>, map<T, int>, seq<Timed<T>>) -> Round<T>,
                            active: seq<T>, times: map<T, int>, schedule: seq<seq<Timed<T>>>,
                            history: seq<RaceResult<T>>)
    ensures var r := RaceFrom(play, active, times, schedule, history).result;
      r.Success? ==>
        && active != [] && Distinct(active) && schedule != []
        && |history| < |r.value|
        && r.value[|history|] == play(active, times, schedule[0]).result
  {
    if active != [] && Distinct(active) && schedule != [] {
      var round := play(active, times, schedule[0]);
      if round.result.status == Draw {
        HistoryExtends(play, round.next, round.measured, schedule[1..], history + [round.result]);
      }
    }
  }

  /** The loop stops at the first win: after a history of draws, the returned
      history is draws followed by exactly one win, its last entry. This holds
      whatever a round does. */
  lemma {:induction false} EndsWithWin<T>(play: (seq<T>, map<T, int>, seq<Timed<T>>) -> Round<T>,
                                          active: seq<T>, times: map<T, int>, schedule: seq<seq<Timed<T>>>,
                                          history: seq<RaceResult<T>>)
    requires AllDraws(history)
    ensures DrawsThenWin(RaceFrom(play, active, times, schedule, history), |history|, |schedule|)
    decreases |schedule|
  {
    if active != [] && Distinct(active) && schedule != [] {
      var round := play(active, times, schedule[0]);
      var recorded := history + [round.result];
      if round.result.status == Draw {
        EndsWithWin(play, round.next, round.measured, schedule[1..], recorded);
      } else {
        assert recorded[..|history|] == history;
      }
    }
  }

  /** With rounds that settle: the first round played races the whole field,
      and every later round races a reordering of a prefix of the previous
      round's positions, at least two competitors and never more than that
      round had. */
  lemma {:induction false} RoundsNarrow<T>(play: (seq<T>, map<T, int>, seq<Timed<T>>) -> Round<T>,
                                           active: seq<T>, times: map<T, int>, schedule: seq<seq<Timed<T>>>,
                                           history: seq<RaceResult<T>>)
    requires forall a: seq<T>, t: map<T, int>, rs: seq<Timed<T>> :: a != [] ==> Settles(a, play(a, t, rs))
    requires Narrowing(history)
    requires history != [] ==>
      && 2 <= |active| <= |history[|history| - 1].positions|
      && active == history[|history| - 1].positions[..|active|]
    ensures NarrowsFrom(RaceFrom(play, active, times, schedule, history), |history|, active)
    decreases |schedule|
  {
    if active != [] && Distinct(active) && schedule != [] {
      var round := play(active, times, schedule[0]);
      assert Settles(active, round);
      var recorded := history + [round.result];
      NarrowingExtends(history, round.result);
      if round.result.status == Draw {
        HistoryExtends(play, round.next, round.measured, schedule[1..], recorded);
        RoundsNarrow(play, round.next, round.measured, schedule[1..], recorded);
        var r := RaceFrom(play, active, times, schedule, history).result;
        if r.Success? {
          assert r.value[..|history| + 1] == recorded;
          assert r.value[|history|] == round.result;
        }
      }
    }
  }

  /** A narrowing history stays narrowing when the next entry races a
      reordering of a prefix of the last entry's positions, of at least two. */
  lemma NarrowingExtends<T>(history: seq<RaceResult<T>>, next: RaceResult<T>)
    requires Narrowing(history)
    requires history != [] ==>
      && 2 <= |next.positions| <= |history[|history| - 1].positions|
      && multiset(next.positions) == multiset(history[|history| - 1].positions[..|next.positions|])
    ensures Narrowing(history + [next])
  {
    var recorded := history + [next];
    forall k | 1 <= k < |recorded|
      ensures 2 <= |recorded[k].positions| <= |recorded[k - 1].positions|
      ensures multiset(recorded[k].positions) == multiset(recorded[k - 1].positions[..|recorded[k].positions|])
    {
      if k == |history| {
        assert recorded[k - 1] == history[|history| - 1] && recorded[k] == next;
      } else {
        assert recorded[k - 1] == history[k - 1] && recorded[k] == history[k];
      }
    }
  }

  /** With rounds that settle and leave their write-backs, every entry the
      loop records is ordered by the times its round left. */
  lemma {:induction false} EntryOrderedByTimes<T>(play: (seq<T>, map<T, int>, seq<Timed<T>>) -> Round<T>,
                                                  active: seq<T>, times: map<T, int>, schedule: seq<seq<Timed<T>>>,
                                                  history: seq<RaceResult<T>>, k: nat)
    requires forall a: seq<T>, t: map<T, int>, rs: seq<Timed<T>> :: a != [] ==> Settles(a, play(a, t, rs))
    requires forall a: seq<T>, t: map<T, int>, rs: seq<Timed<T>> :: play(a, t, rs).measured == WriteBack(t, rs)
    ensures EntryOrdered(RaceFrom(play, active, times, schedule, history), |history|, times, schedule, k)
    decreases |schedule|
  {
    if active != [] && Distinct(active) && schedule != [] {
      var round := play(active, times, schedule[0]);
      if k == |history| {
        EntryOrderedNow(play, active, times, schedule, history);
      } else if round.result.status == Draw {
        EntryOrderedByTimes(play, round.next, round.measured, schedule[1..], history + [round.result], k);
      }
    }
  }

  /** The step of `EntryOrderedByTimes` for the entry recorded next: the round
      played on the current field with the next measurement. */
  lemma EntryOrderedNow<T>(play: (seq<T>, map<T, int>, seq<Timed<T>>) -> Round<T>,
                           active: seq<T>, times: map<T, int>, schedule: seq<seq<Timed<T>>>,
                           history: seq<RaceResult<T>>)
    requires forall a: seq<T>, t: map<T, int>, rs: seq<Timed<T>> :: a != [] ==> Settles(a, play(a, t, rs))
    requires forall a: seq<T>, t: map<T, int>, rs: seq<Timed<T>> :: play(a, t, rs).measured == WriteBack(t, rs)
    ensures EntryOrdered(RaceFrom(play, active, times, schedule, history), |history|, times, schedule, |history|)
  {
    NextEntryIsRound(play, active, times, schedule, history);
    if active != [] && Distinct(active) && schedule != [] {
      assert Settles(active, play(active, times, schedule[0]));
    }
  }

  /** With rounds that settle and leave their write-backs, every draw the
      loop records keeps exactly its positions tied with the first. */
  lemma {:induction false} DrawsKeepTheTied<T>(play: (seq<T>, map<T, int>, seq<Timed<T>>) -> Round<T>,
                                               active: seq<T>, times: map<T, int>, schedule: seq<seq<Timed<T>>>,
                                               history: seq<RaceResult<T>>, k: nat)
    requires forall a: seq<T>, t: map<T, int>, rs: seq<Timed<T>> :: a != [] ==> Settles(a, play(a, t, rs))
    requires forall a: seq<T>, t: map<T, int>, rs: seq<Timed<T>> :: play(a, t, rs).measured == WriteBack(t, rs)
    ensures DrawKeepsTied(RaceFrom(play, active, times, schedule, history), |history|, times, schedule, k)
    decreases |schedule|
  {
    if active != [] && Distinct(active) && schedule != [] {
      var round := play(active, times, schedule[0]);
      if round.result.status == Draw {
        if k == |history| {
          DrawKeepsTheTiedNow(play, active, times, schedule, history);
        } else {
          DrawsKeepTheTied(play, round.next, round.measured, schedule[1..], history + [round.result], k);
        }
      }
    }
  }

  /** The step of `DrawsKeepTheTied` for a draw played on the current field:
      the entry after it is the round played on the field the draw left. */
  lemma DrawKeepsTheTiedNow<T>(play: (seq<T>, map<T, int>, seq<Timed<T>>) -> Round<T>,
                               active: seq<T>, times: map<T, int>, schedule: seq<seq<Timed<T>>>,
                               history: seq<RaceResult<T>>)
    requires forall a: seq<T>, t: map<T, int>, rs: seq<Timed<T>> :: a != [] ==> Settles(a, play(a, t, rs))
    requires forall a: seq<T>, t: map<T, int>, rs: seq<Timed<T>> :: play(a, t, rs).measured == WriteBack(t, rs)
    requires active != [] && Distinct(active) && schedule != []
    requires play(active, times, schedule[0]).result.status == Draw
    ensures DrawKeepsTied(RaceFrom(play, active, times, schedule, history), |history|, times, schedule, |history|)
  {
    var round := play(active, times, schedule[0]);
    var recorded := history + [round.result];
    NextEntryIsRound(play, round.next, round.measured, schedule[1..], recorded);
    var r := RaceFrom(play, round.next, round.measured, schedule[1..], recorded).result;
    assert RaceFrom(play, active, times, schedule, history).result == r;
    if r.Success? {
      assert r.value[|history|] == r.value[..|history| + 1][|history|] == round.result by {
        HistoryExtends(play, round.next, round.measured, schedule[1..], recorded);
      }
      assert Settles(active, round);
      assert Settles(round.next, play(round.next, round.measured, schedule[1..][0]));
    }
  }

  /** With rounds that settle, the winner, `positions[0]` of the last round,
      is there, and its final time is strictly below that of every other
      competitor of that round. */
  lemma {:induction false} WinnerStrictlyFastest<T>(play: (seq<T>, map<T, int>, seq<Timed<T>>) -> Round<T>,
                                                    active: seq<T>, times: map<T, int>, schedule: seq<seq<Timed<T>>>,
                                                    history: seq<RaceResult<T>>)
    requires forall a: seq<T>, t: map<T, int>, rs: seq<Timed<T>> :: a != [] ==> Settles(a, play(a, t, rs))
    ensures WinnerFastest(RaceFrom(play, active, times, schedule, history))
    decreases |schedule|
  {
    if active != [] && Distinct(active) && schedule != [] {
      var round := play(active, times, schedule[0]);
      assert Settles(active, round);
      if round.result.status == Draw {
        WinnerStrictlyFastest(play, round.next, round.measured, schedule[1..], history + [round.result]);
      }
    }
  }

  /** Competitors are shared between rounds: with rounds whose times are
      their write-backs, once the race is won every competitor's time is what
      the write-backs of all the rounds played left, one after the other, so
      a later round overwrites the time an earlier round's positions were
      ordered by. */
  lemma {:induction false} FinalTimesReplayRounds<T>(play: (seq<T>, map<T, int>, seq<Timed<T>>) -> Round<T>,
                                                     active: seq<T>, times: map<T, int>, schedule: seq<seq<Timed<T>>>,
                                                     history: seq<RaceResult<T>>)
    requires forall a: seq<T>, t: map<T, int>, rs: seq<Timed<T>> :: play(a, t, rs).measured == WriteBack(t, rs)
    ensures TimesReplayed(RaceFrom(play, active, times, schedule, history), |history|, times, schedule)
    decreases |schedule|
  {
    if active != [] && Distinct(active) && schedule != [] {
      var round := play(active, times, schedule[0]);
      if round.result.status == Draw {
        FinalTimesReplayRounds(play, round.next, round.measured, schedule[1..], history + [round.result]);
      }
    }
  }

  /** With rounds that settle, the race fails for lack of competitors exactly
      when it starts with none (`min` of an empty list): a draw never leaves
      the field empty. */
  lemma {:induction false} FailsOnlyWhenEmpty<T>(play: (seq<T>, map<T, int>, seq<Timed<T>>) -> Round<T>,
                                                 active: seq<T>, times: map<T, int>, schedule: seq<seq<Timed<T>>>,
                                                 history: seq<RaceResult<T>>)
    requires forall a: seq<T>, t: map<T, int>, rs: seq<Timed<T>> :: a != [] ==> Settles(a, play(a, t, rs))
    ensures EmptyFailsExactly(RaceFrom(play, active, times, schedule, history), active)
    decreases |schedule|
  {
    if active != [] && Distinct(active) && schedule != [] {
      var round := play(active, times, schedule[0]);
      assert Settles(active, round);
      if round.result.status == Draw {
        FailsOnlyWhenEmpty(play, round.next, round.measured, schedule[1..], history + [round.result]);
      }
    }
  }

  /** With rounds that settle, a field without repetitions never gains one:
      the race fails because a competitor is listed twice exactly when the
      field it starts from lists one twice. */
  lemma {:induction false} DuplicatesOnlyAtStart<T>(play: (seq<T>, map<T, int>, seq<Timed<T>>) -> Round<T>,
                                                    active: seq<T>, times: map<T, int>, schedule: seq<seq<Timed<T>>>,
                                                    history: seq<RaceResult<T>>)
    requires forall a: seq<T>, t: map<T, int>, rs: seq<Timed<T>> :: a != [] ==> Settles(a, play(a, t, rs))
    ensures RepeatFailsExactly(RaceFrom(play, active, times, schedule, history), active)
    decreases |schedule|
  {
    if active != [] && Distinct(active) && schedule != [] {
      var round := play(active, times, schedule[0]);
      assert Settles(active, round);
      if round.result.status == Draw {
        var p := round.result.positions;
        DistinctReordered(p, active);
        assert Distinct(round.next) by {
          forall i, j | 0 <= i < j < |round.next|
            ensures round.next[i] != round.next[j]
          {
            assert round.next[i] == p[i] && round.next[j] == p[j];
          }
        }
        DuplicatesOnlyAtStart(play, round.next, round.measured, schedule[1..], history + [round.result]);
      }
    }
  }

  /** A single remaining competitor still runs one more round, which it wins. */
  lemma LoneCompetitorWins<T>(competitors: seq<T>, times: map<T, int>, schedule: seq<seq<Timed<T>>>)
    requires |competitors| == 1 && |schedule| >= 1
    ensures Race(competitors, times, schedule).result == Success([RaceResult(Win, competitors)])
  {
    var round := PlayRound(competitors, times, schedule[0]);
    PlayRoundSettles(competitors, times, schedule[0]);
    assert Classify(Keyed(competitors, WriteBack(times, schedule[0]))) == Win;
    var p := round.result.positions;
    assert p[0] in multiset(competitors);
    assert p == competitors;
    assert Race(competitors, times, schedule) == RaceRun(Success([] + [round.result]), round.measured);
    assert [] + [round.result] == [RaceResult(Win, competitors)];
  }

  /** When the first round's measurement gives every competitor a different
      duration, the race ends after that round with a win, every competitor
      keeps the duration measured for it, and the winner's time is the
      smallest of them. */
  lemma DistinctDurationsDecideFirstRound<T>(competitors: seq<T>, times: map<T, int>, schedule: seq<seq<Timed<T>>>)
    requires competitors != [] && |schedule| >= 1
    requires IsMeasurement(schedule[0], competitors)
    requires forall i, j :: 0 <= i < j < |schedule[0]| ==> schedule[0][i].time != schedule[0][j].time
    ensures var run := Race(competitors, times, schedule);
      && run.result.Success?
      && |run.result.value| == 1
      && run.result.value[0].status == Win
      && run.times == WriteBack(times, schedule[0])
      && |run.result.value[0].positions| == |competitors|
      && TimeOf(run.times, run.result.value[0].positions[0]) == MinTime(Times(schedule[0]))
  {
    DistinctDurationsWin(times, schedule[0], competitors);
    PlayRoundSettles(competitors, times, schedule[0]);
    WinnerTimeIsMinimum(times, schedule[0], competitors);
  }

  /** The race's history is draws followed by one win, at most one entry per
      scheduled measurement. */
  lemma RaceEndsWithWin<T>(competitors: seq<T>, times: map<T, int>, schedule: seq<seq<Timed<T>>>)
    ensures DrawsThenWin(Race(competitors, times, schedule), 0, |schedule|)
  {
    EndsWithWin(PlayRound, competitors, times, schedule, []);
  }

  /** The race's rounds narrow: the first round races the whole field and
      every later round races a reordering of a prefix of the previous
      round's positions. */
  lemma RaceRoundsNarrow<T>(competitors: seq<T>, times: map<T, int>, schedule: seq<seq<Timed<T>>>)
    ensures NarrowsFrom(Race(competitors, times, schedule), 0, competitors)
  {
    PlayRoundSound<T>();
    RoundsNarrow(PlayRound, competitors, times, schedule, []);
  }

  /** The race's `k`th round has its positions ordered by the times it left,
      the write-backs of the first `k + 1` measurements. */
  lemma RaceRoundOrderedByTimes<T>(competitors: seq<T>, times: map<T, int>, schedule: seq<seq<Timed<T>>>, k: nat)
    ensures EntryOrdered(Race(competitors, times, schedule), 0, times, schedule, k)
  {
    PlayRoundSound<T>();
    PlayRoundMeasures<T>();
    EntryOrderedByTimes(PlayRound, competitors, times, schedule, [], k);
  }

  /** A draw in the race's `k`th round is followed by a round on exactly its
      positions tied with the first, by the times that draw left: those
      holding its minimum time. */
  lemma RaceDrawKeepsTheTied<T>(competitors: seq<T>, times: map<T, int>, schedule: seq<seq<Timed<T>>>, k: nat)
    ensures DrawKeepsTied(Race(competitors, times, schedule), 0, times, schedule, k)
  {
    PlayRoundSound<T>();
    PlayRoundMeasures<T>();
    DrawsKeepTheTied(PlayRound, competitors, times, schedule, [], k);
  }

  /** The race's winner, `positions[0]` of its last entry, has a final time
      strictly below every other competitor's of that round. */
  lemma RaceWinnerStrictlyFastest<T>(competitors: seq<T>, times: map<T, int>, schedule: seq<seq<Timed<T>>>)
    ensures WinnerFastest(Race(competitors, times, schedule))
  {
    PlayRoundSound<T>();
    WinnerStrictlyFastest(PlayRound, competitors, times, schedule, []);
  }

  /** The times the race leaves are the write-backs of every round it played,
      in order. */
  lemma RaceFinalTimes<T>(competitors: seq<T>, times: map<T, int>, schedule: seq<seq<Timed<T>>>)
    ensures TimesReplayed(Race(competitors, times, schedule), 0, times, schedule)
  {
    PlayRoundMeasures<T>();
    FinalTimesReplayRounds(PlayRound, competitors, times, schedule, []);
  }

  /** The race fails for lack of competitors exactly when it starts with none. */
  lemma RaceFailsOnlyWhenEmpty<T>(competitors: seq<T>, times: map<T, int>, schedule: seq<seq<Timed<T>>>)
    ensures EmptyFailsExactly(Race(competitors, times, schedule), competitors)
  {
    PlayRoundSound<T>();
    FailsOnlyWhenEmpty(PlayRound, competitors, times, schedule, []);
  }

  /** The race fails because a competitor is listed twice exactly when it is
      given a field that lists one twice; narrowing never repeats anyone. */
  lemma RaceRejectsRepeatedCompetitor<T>(competitors: seq<T>, times: map<T, int>, schedule: seq<seq<Timed<T>>>)
    ensures RepeatFailsExactly(Race(competitors, times, schedule), competitors)
  {
    PlayRoundSound<T>();
    DuplicatesOnlyAtStart(PlayRound, competitors, times, schedule, []);
  }
}
