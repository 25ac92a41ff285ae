/**
 The race on competitor objects: `ThreadCompetitor` as a class whose `time`
 field the race overwrites round after round, `order_by_time` over those
 objects, and `execute_race` as a loop that mutates them. Every operation is
 proved against the value-level definitions of the `Tournament` and `Rounds`
 modules, read on the competitors' times (`TimeMap`).
 */
module ThreadRace {
  import opened Ordering
  import opened Rounds
  import opened Tournament

  /** `ThreadCompetitor`: who races, and the time of the last round it ran. */
  class Competitor {
    const id: int
    const name: string
    const username: string
    var time: int

    /** A new competitor has the default time 0. */
    constructor (id: int, name: string, username: string)
      ensures this.id == id && this.name == name && this.username == username
      ensures time == 0
    {
      this.id := id;
      this.name := name;
      this.username := username;
      time := 0;
    }

    /** `order_by_time`: the competitors sorted by their current time, stably. */
    static function OrderByTime(cs: seq<Competitor>): (r: seq<Competitor>)
      reads Members(cs)
      ensures multiset(r) == multiset(cs)
      ensures forall i, j :: 0 <= i < j < |r| ==> r[i].time <= r[j].time
    {
      var e := Snapshot(cs);
      PositionsCarryTimes(e);
      SnapshotTimes(cs, SortByTime(e));
      Positions(e)
    }
  }

  /** Each competitor paired with its current time. */
  function Snapshot(cs: seq<Competitor>): (es: seq<Timed<Competitor>>)
    reads Members(cs)
    ensures Who(es) == cs
    ensures forall i :: 0 <= i < |es| ==> es[i].time == cs[i].time
  {
    if cs == [] then [] else [Timed(cs[0].time, cs[0])] + Snapshot(cs[1..])
  }

  /** Entries drawn from a snapshot carry their competitor's current time. */
  lemma SnapshotTimes(cs: seq<Competitor>, p: seq<Timed<Competitor>>)
    requires forall j :: 0 <= j < |p| ==> p[j] in Snapshot(cs)
    ensures forall j :: 0 <= j < |p| ==> p[j].time == p[j].who.time
  {
  }

  function Members(cs: seq<Competitor>): set<Competitor>
  {
    set c | c in cs
  }

  /** The competitors' times, read from the objects. */
  function TimeMap(field: set<Competitor>): map<Competitor, int>
    reads field
  {
    map c | c in field :: c.time
  }

  /** A snapshot of competitors of `field` is the round's entries keyed from
      their times. */
  lemma SnapshotIsKeyed(cs: seq<Competitor>, field: set<Competitor>)
    requires forall i :: 0 <= i < |cs| ==> cs[i] in field
    ensures Snapshot(cs) == Keyed(cs, TimeMap(field))
  {
  }

  /** The write-back loop of `execute_race`: every entry of the round's
      result list sets its competitor's `time` to the measured duration. */
  method RecordTimes(threadsResults: seq<Timed<Competitor>>, ghost field: set<Competitor>)
    requires forall i :: 0 <= i < |threadsResults| ==> threadsResults[i].who in field
    modifies set i | 0 <= i < |threadsResults| :: threadsResults[i].who
    ensures TimeMap(field) == WriteBack(old(TimeMap(field)), threadsResults)
  {
    ghost var before := TimeMap(field);
    for n := 0 to |threadsResults|
      invariant TimeMap(field) == WriteBack(before, threadsResults[..n])
    {
      var entry := threadsResults[n];
      ghost var prior := TimeMap(field);
      entry.who.time := entry.time;
      assert threadsResults[..n + 1][..n] == threadsResults[..n];
      assert TimeMap(field) == prior[entry.who := entry.time];
    }
    assert threadsResults[..|threadsResults|] == threadsResults;
  }

  /** The step the loop of `execute_race` takes in one round. */
  lemma RaceStep(active: seq<Competitor>, times: map<Competitor, int>, schedule: seq<seq<Timed<Competitor>>>,
                 history: seq<RaceResult<Competitor>>)
    requires active != [] && Distinct(active) && schedule != []
    ensures var round := PlayRound(active, times, schedule[0]);
      RaceFrom(PlayRound, active, times, schedule, history)
        == if round.result.status == Win then RaceRun(Success(history + [round.result]), round.measured)
           else RaceFrom(PlayRound, round.next, round.measured, schedule[1..], history + [round.result])
  {
  }

  /** The evaluation of a round once the times are written back: the stable
      order of the field, the minimum of its times and how many share it; a
      win unless the minimum is shared, in which case the field narrows to the
      tied prefix of the order. It reads the competitors and changes nothing. */
  method EvaluateRound(active: seq<Competitor>, ghost field: set<Competitor>)
      returns (raceResults: RaceResult<Competitor>, next: seq<Competitor>)
    requires active != []
    requires forall i :: 0 <= i < |active| ==> active[i] in field
    ensures var e := Keyed(active, TimeMap(field));
      && raceResults == RaceResult(Classify(e), Positions(e))
      && next == if Classify(e) == Draw then Narrow(e) else active
    ensures forall i :: 0 <= i < |next| ==> next[i] in field
  {
    ghost var e := Keyed(active, TimeMap(field));
    SnapshotIsKeyed(active, field);
    var ordered := Competitor.OrderByTime(active);
    var timeCounts := Times(Snapshot(active));
    var timeMin := MinTime(timeCounts);
    var timeMinCount := CountTime(timeCounts, timeMin);
    raceResults := RaceResult(Win, ordered);
    next := active;
    if timeMinCount > 1 {
      raceResults := raceResults.(status := Draw);
      PositionsFromField(active, ordered, timeMinCount, field);
      next := ordered[..timeMinCount];
    }
  }

  /** One pass of the loop of `execute_race` on the field `active`: the
      threads' results written back, then the round evaluated. */
  method RunRound(active: seq<Competitor>, threadsResults: seq<Timed<Competitor>>, ghost field: set<Competitor>)
      returns (raceResults: RaceResult<Competitor>, next: seq<Competitor>)
    requires active != []
    requires forall i :: 0 <= i < |active| ==> active[i] in field
    requires forall i :: 0 <= i < |threadsResults| ==> threadsResults[i].who in field
    modifies set i | 0 <= i < |threadsResults| :: threadsResults[i].who
    ensures var round := PlayRound(active, old(TimeMap(field)), threadsResults);
      raceResults == round.result && next == round.next && TimeMap(field) == round.measured
    ensures forall i :: 0 <= i < |next| ==> next[i] in field
  {
    RecordTimes(threadsResults, field);
    raceResults, next := EvaluateRound(active, field);
  }

  /** `execute_race(competitors)`, with `schedule[k]` the list the threads of
      round `k` append to. It changes nothing but the competitors' times, and
      both its outcome and the times it leaves are those of `Race`. */
  method ExecuteRace(competitors: seq<Competitor>, schedule: seq<seq<Timed<Competitor>>>)
      returns (results: Result<seq<RaceResult<Competitor>>>)
    requires forall k, i :: 0 <= k < |schedule| && 0 <= i < |schedule[k]| ==> schedule[k][i].who in competitors
    modifies set c | c in competitors
    ensures var run := Race(competitors, old(TimeMap(Members(competitors))), schedule);
      results == run.result && TimeMap(Members(competitors)) == run.times
  {
    ghost var field := Members(competitors);
    ghost var run := Race(competitors, TimeMap(field), schedule);
    var active := competitors;
    var finalResults: seq<RaceResult<Competitor>> := [];
    var k := 0;
    while true
      invariant 0 <= k <= |schedule|
      invariant forall i :: 0 <= i < |active| ==> active[i] in field
      invariant RaceFrom(PlayRound, active, TimeMap(field), schedule[k..], finalResults) == run
      decreases |schedule| - k
    {
      if active == [] {
        // `min` of an empty `time_counts`: no thread ran, nothing changed
        return Failure(EmptyCompetitors);
      }
      if !Distinct(active) {
        // the repeated competitor's thread is started twice
        return Failure(DuplicateCompetitors);
      }
      if k == |schedule| {
        return Failure(OutOfMeasurements);
      }
      ghost var times := TimeMap(field);
      RaceStep(active, times, schedule[k..], finalResults);
      assert schedule[k..][0] == schedule[k] && schedule[k..][1..] == schedule[k + 1..];
      var raceResults;
      raceResults, active := RunRound(active, schedule[k], field);
      finalResults := finalResults + [raceResults];
      k := k + 1;
      if raceResults.status == Win {
        return Success(finalResults);
      }
    }
  }

  /** The narrowed field is drawn from the field it narrows. */
  lemma PositionsFromField(active: seq<Competitor>, ordered: seq<Competitor>, n: nat, field: set<Competitor>)
    requires forall i :: 0 <= i < |active| ==> active[i] in field
    requires multiset(ordered) == multiset(active) && n <= |ordered|
    ensures forall i :: 0 <= i < n ==> ordered[..n][i] in field
  {
    forall i | 0 <= i < n
      ensures ordered[..n][i] in field
    {
      assert ordered[i] in multiset(active);
    }
  }
}
