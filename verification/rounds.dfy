/**
 One round of the race, on values: the write-back of the measured durations
 onto the competitors' `time` slots, and the outcome evaluation that orders
 the active competitors, finds the minimum time, counts the ties at it and
 either declares a win or narrows the field to the tied competitors.

 The `time` fields of the competitors are modelled here as a map from
 competitor to its current time; the class-based model in module ThreadRace
 is proved to follow these functions.
 */
module Rounds {
  import opened Ordering

  datatype Status = Win | Draw

  /** One entry of the race history: the round's status and its positions,
      a copy of the ordered competitor list. The competitors themselves are
      shared with later rounds. */
  datatype RaceResult<T> = RaceResult(status: Status, positions: seq<T>)

  predicate Distinct<T(==)>(s: seq<T>)
  {
    forall i, j :: 0 <= i < j < |s| ==> s[i] != s[j]
  }

  /** A competitor's current time; one never measured keeps the default 0. */
  function TimeOf<T(==)>(times: map<T, int>, c: T): int
  {
    if c in times then times[c] else 0
  }

  /** The competitors named by a list of results. */
  function Named<T>(rs: seq<Timed<T>>): set<T>
  {
    set i | 0 <= i < |rs| :: rs[i].who
  }

  /** The write-back of a round's results: each (duration, competitor) entry
      sets that competitor's time, in list order, so a later entry for the
      same competitor overwrites an earlier one. */
  function WriteBack<T(==)>(times: map<T, int>, rs: seq<Timed<T>>): (r: map<T, int>)
    ensures r.Keys == times.Keys + Named(rs)
    decreases |rs|
  {
    if rs == [] then times
    else
      var last := rs[|rs| - 1];
      assert Named(rs) == Named(rs[..|rs| - 1]) + {last.who};
      WriteBack(times, rs[..|rs| - 1])[last.who := last.time]
  }

  /** What the racing threads deliver in one round: every active competitor
      appends exactly one (duration, competitor) pair, in whatever order the
      threads finish, and nobody else appends. */
  predicate IsMeasurement<T(==)>(rs: seq<Timed<T>>, active: seq<T>)
  {
    && Distinct(active)
    && Distinct(Who(rs))
    && (forall i :: 0 <= i < |active| ==> active[i] in Who(rs))
    && (forall i :: 0 <= i < |rs| ==> rs[i].who in active)
  }

  lemma {:induction false} WriteBackUntouched<T>(times: map<T, int>, rs: seq<Timed<T>>, c: T)
    requires c !in Who(rs)
    ensures TimeOf(WriteBack(times, rs), c) == TimeOf(times, c)
    decreases |rs|
  {
    if rs != [] {
      assert Who(rs[..|rs| - 1]) == Who(rs)[..|rs| - 1];
      WriteBackUntouched(times, rs[..|rs| - 1], c);
    }
  }

  lemma {:induction false} WriteBackEntry<T>(times: map<T, int>, rs: seq<Timed<T>>, i: nat)
    requires Distinct(Who(rs)) && i < |rs|
    ensures TimeOf(WriteBack(times, rs), rs[i].who) == rs[i].time
    decreases |rs|
  {
    if i < |rs| - 1 {
      var front, last := rs[..|rs| - 1], rs[|rs| - 1];
      assert Who(front) == Who(rs)[..|rs| - 1];
      assert last.who != rs[i].who && front[i] == rs[i];
      WriteBackEntry(times, front, i);
      assert WriteBack(times, rs) == WriteBack(times, front)[last.who := last.time];
    }
  }

  /** After the write-back of a measurement, each active competitor holds the
      duration measured for it, and every other competitor keeps its time. */
  lemma WriteBackMeasured<T>(times: map<T, int>, rs: seq<Timed<T>>, active: seq<T>)
    requires IsMeasurement(rs, active)
    ensures forall i :: 0 <= i < |rs| ==> TimeOf(WriteBack(times, rs), rs[i].who) == rs[i].time
    ensures forall c :: c !in active ==> TimeOf(WriteBack(times, rs), c) == TimeOf(times, c)
  {
    forall i | 0 <= i < |rs|
      ensures TimeOf(WriteBack(times, rs), rs[i].who) == rs[i].time
    {
      WriteBackEntry(times, rs, i);
    }
    forall c | c !in active
      ensures TimeOf(WriteBack(times, rs), c) == TimeOf(times, c)
    {
      WriteBackUntouched(times, rs, c);
    }
  }

  /** Two measurements of one field name the same competitors. */
  lemma SameNames<T>(rs: seq<Timed<T>>, qs: seq<Timed<T>>, active: seq<T>)
    requires IsMeasurement(rs, active) && IsMeasurement(qs, active)
    ensures Named(rs) == Named(qs)
  {
  }

  /** The order in which the threads appended their results does not matter:
      two measurements of the same field carrying the same pairs leave the
      same times. */
  lemma WriteBackOrderIndependent<T>(times: map<T, int>, rs: seq<Timed<T>>, qs: seq<Timed<T>>, active: seq<T>)
    requires IsMeasurement(rs, active) && IsMeasurement(qs, active)
    requires multiset(rs) == multiset(qs)
    ensures WriteBack(times, rs) == WriteBack(times, qs)
  {
    var a, b := WriteBack(times, rs), WriteBack(times, qs);
    SameNames(rs, qs, active);
    forall c | c in a
      ensures c in b && a[c] == b[c]
    {
      SameTimeEither(times, rs, qs, active, c);
    }
    SameMaps(a, b);
  }

  lemma SameMaps<T>(a: map<T, int>, b: map<T, int>)
    requires a.Keys == b.Keys
    requires forall c :: c in a ==> a[c] == b[c]
    ensures a == b
  {
  }

  lemma SameTimeEither<T>(times: map<T, int>, rs: seq<Timed<T>>, qs: seq<Timed<T>>, active: seq<T>, c: T)
    requires IsMeasurement(rs, active) && IsMeasurement(qs, active)
    requires multiset(rs) == multiset(qs)
    ensures TimeOf(WriteBack(times, rs), c) == TimeOf(WriteBack(times, qs), c)
  {
    if c in active {
      var i :| 0 <= i < |rs| && Who(rs)[i] == c;
      assert rs[i] in multiset(qs);
      var j :| 0 <= j < |qs| && qs[j] == rs[i];
      WriteBackEntry(times, rs, i);
      WriteBackEntry(times, qs, j);
    } else {
      WriteBackMeasured(times, rs, active);
      WriteBackMeasured(times, qs, active);
    }
  }

  /** The list the threads build by appending, one after the other in the
      order they finish, their (duration, competitor) pairs. */
  function Appended<T(==)>(finished: seq<T>, duration: map<T, int>): (rs: seq<Timed<T>>)
    ensures |rs| == |finished|
    ensures forall i :: 0 <= i < |finished| ==> rs[i] == Timed(TimeOf(duration, finished[i]), finished[i])
    decreases |finished|
  {
    if finished == [] then []
    else
      var last := finished[|finished| - 1];
      Appended(finished[..|finished| - 1], duration) + [Timed(TimeOf(duration, last), last)]
  }

  /** One append per active competitor, in any finishing order, is a
      measurement, and its write-back gives each active competitor its own
      duration whatever the order was. */
  lemma ThreadAppendsMeasure<T>(times: map<T, int>, active: seq<T>, finished: seq<T>, duration: map<T, int>)
    requires Distinct(active) && Distinct(finished)
    requires forall c :: c in finished <==> c in active
    ensures IsMeasurement(Appended(finished, duration), active)
    ensures forall c :: c in active ==> TimeOf(WriteBack(times, Appended(finished, duration)), c) == TimeOf(duration, c)
    ensures forall c :: c !in active ==> TimeOf(WriteBack(times, Appended(finished, duration)), c) == TimeOf(times, c)
  {
    var rs := Appended(finished, duration);
    assert Who(rs) == finished;
    WriteBackMeasured(times, rs, active);
    forall c | c in active
      ensures TimeOf(WriteBack(times, rs), c) == TimeOf(duration, c)
    {
      var i :| 0 <= i < |finished| && finished[i] == c;
      assert rs[i].who == c;
    }
  }

  /** The round's entries: every active competitor with its current time. */
  function Keyed<T(==)>(active: seq<T>, times: map<T, int>): (es: seq<Timed<T>>)
    ensures Who(es) == active
  {
    seq(|active|, i requires 0 <= i < |active| => Timed(TimeOf(times, active[i]), active[i]))
  }

  /** `time_min_count`: how many entries share the minimum time (none when
      there are no entries). */
  function MinCount<T>(e: seq<Timed<T>>): (n: nat)
    ensures n <= |e|
    ensures |e| > 0 ==> 1 <= n
  {
    if e == [] then 0
    else
      var ts := Times(e);
      CountTime(ts, MinTime(ts))
  }

  /** The status of the round: a win unless the minimum is shared. On a
      non-empty field it is a win exactly when one entry alone has the
      minimum time. */
  function Classify<T>(e: seq<Timed<T>>): (s: Status)
    ensures |e| > 0 ==> (s == Win <==> |WithTime(e, MinTime(Times(e)))| == 1)
  {
    if e == [] then Win
    else
      CountTimeIsTies(e, MinTime(Times(e)));
      if MinCount(e) > 1 then Draw else Win
  }

  /** `positions`: the competitors in stable time order. */
  function Positions<T>(e: seq<Timed<T>>): (p: seq<T>)
    ensures |p| == |e|
    ensures multiset(p) == multiset(Who(e))
  {
    SortByTimeKeepsCompetitors(e);
    Who(SortByTime(e))
  }

  /** The field of the next round after a draw: the first `MinCount` positions.
      These are exactly the competitors at the minimum time, in the order they
      had before the round. */
  function Narrow<T>(e: seq<Timed<T>>): (n: seq<T>)
    ensures |e| > 0 ==> n == Who(WithTime(e, MinTime(Times(e))))
  {
    if e == [] then []
    else
      TiesLeadTheOrder(e);
      Positions(e)[..MinCount(e)]
  }

  /** The time of every position reads the same as in the round's entries. */
  lemma PositionsCarryTimes<T>(e: seq<Timed<T>>)
    ensures forall j :: 0 <= j < |e| ==> SortByTime(e)[j] in e
    ensures SortedByTime(SortByTime(e))
  {
    SortByTimeMembers(e);
    SortByTimeSorted(e);
  }

  /** The tied prefix of the stable order is exactly the competitors whose time
      equals the minimum, in the order they had before the round; its length
      is the count of the minimum. */
  lemma TiedPrefix<T>(e: seq<Timed<T>>)
    requires |e| > 0
    ensures var m := MinTime(Times(e));
      && Narrow(e) == Who(WithTime(e, m))
      && |WithTime(e, m)| == MinCount(e)
      && forall j :: 0 <= j < |e| ==> (SortByTime(e)[j].time == m <==> j < MinCount(e))
  {
    TiesLeadTheOrder(e);
  }

  /** The first `MinCount` entries of the stable order are the entries at the
      minimum, in their pre-round order, and no other entry is at it. */
  lemma TiesLeadTheOrder<T>(e: seq<Timed<T>>)
    requires |e| > 0
    ensures var m := MinTime(Times(e));
      && Who(SortByTime(e))[..MinCount(e)] == Who(WithTime(e, m))
      && |WithTime(e, m)| == MinCount(e)
      && forall j :: 0 <= j < |e| ==> (SortByTime(e)[j].time == m <==> j < MinCount(e))
  {
    var m := MinTime(Times(e));
    var p := SortByTime(e);
    SortByTimeStable(e, m);
    CountTimeIsTies(e, m);
    PositionsCarryTimes(e);
    forall i | 0 <= i < |p|
      ensures m <= p[i].time
    {
      var j :| 0 <= j < |e| && e[j] == p[i];
      assert Times(e)[j] == e[j].time;
    }
    SortedTiesArePrefix(p, m);
    var n := MinCount(e);
    assert WithTime(p, m) == WithTime(e, m);
    assert |WithTime(e, m)| == n;
    assert p[..n] == WithTime(e, m);
    assert Who(p)[..n] == Who(p[..n]);
  }

  /** `positions[0]` holds the minimum time, and the round is a win exactly when
      every other position is strictly slower. */
  lemma WinnerIsUniqueMinimum<T>(e: seq<Timed<T>>)
    requires |e| > 0
    ensures var p := SortByTime(e);
      && p[0].time == MinTime(Times(e))
      && (Classify(e) == Win <==> forall j :: 1 <= j < |p| ==> p[0].time < p[j].time)
  {
    var m := MinTime(Times(e));
    var p := SortByTime(e);
    TiedPrefix(e);
    PositionsCarryTimes(e);
    assert p[0].time == m;
    if Classify(e) == Win {
      forall j | 1 <= j < |p|
        ensures p[0].time < p[j].time
      {
        assert p[j].time != m;
      }
    } else {
      assert p[1].time == m;
    }
  }

  /** A draw keeps at least two competitors, all taken from this round's
      field (a sub-multiset of it), and never more than it had. */
  lemma DrawNarrows<T>(e: seq<Timed<T>>)
    requires Classify(e) == Draw
    ensures 2 <= |Narrow(e)| <= |e|
    ensures multiset(Narrow(e)) <= multiset(Who(e))
  {
    TiedPrefix(e);
    WithTimeSubset(e, MinTime(Times(e)));
  }

  /** The narrowed field is the whole field, even in the same order, exactly
      when every competitor tied. */
  lemma NarrowKeepsAllIffAllTied<T>(e: seq<Timed<T>>)
    requires |e| > 0
    ensures Narrow(e) == Who(e) <==> forall i :: 0 <= i < |e| ==> e[i].time == e[0].time
  {
    var m := MinTime(Times(e));
    TiedPrefix(e);
    WithTimeKeepsAll(e, m);
    if forall i :: 0 <= i < |e| ==> e[i].time == e[0].time {
      assert m == e[0].time by {
        var j :| 0 <= j < |e| && Times(e)[j] == m;
      }
      WithTimeAll(e, m);
    }
    if Narrow(e) == Who(e) {
      assert |WithTime(e, m)| == |e|;
      assert e[0].time == m;
    }
  }

  /** Three competitors with times 5, 3 and 3: the round is a draw and the
      field narrows to the two competitors at 3, in their original order. */
  lemma TwoOfThreeTie()
    ensures Classify([Timed(5, 1), Timed(3, 2), Timed(3, 3)]) == Draw
    ensures Narrow([Timed(5, 1), Timed(3, 2), Timed(3, 3)]) == [2, 3]
  {
    var e := [Timed(5, 1), Timed(3, 2), Timed(3, 3)];
    assert e[1..] == [Timed(3, 2), Timed(3, 3)] && e[1..][1..] == [Timed(3, 3)];
    assert SortByTime(e[1..]) == [Timed(3, 2), Timed(3, 3)];
    assert SortByTime(e) == [Timed(3, 2), Timed(3, 3), Timed(5, 1)];
    assert Times(e) == [5, 3, 3];
    assert MinTime(Times(e)) == 3;
    assert CountTime(Times(e), 3) == 2;
  }

  /** With pairwise distinct durations measured, the round is a win. */
  lemma DistinctDurationsWin<T>(times: map<T, int>, rs: seq<Timed<T>>, active: seq<T>)
    requires active != [] && IsMeasurement(rs, active)
    requires forall i, j :: 0 <= i < j < |rs| ==> rs[i].time != rs[j].time
    ensures Classify(Keyed(active, WriteBack(times, rs))) == Win
  {
    var e := Keyed(active, WriteBack(times, rs));
    WriteBackMeasured(times, rs, active);
    forall i, j | 0 <= i < j < |e|
      ensures e[i].time != e[j].time
    {
      var a :| 0 <= a < |rs| && Who(rs)[a] == active[i];
      var b :| 0 <= b < |rs| && Who(rs)[b] == active[j];
      assert e[i].time == rs[a].time && e[j].time == rs[b].time;
    }
    DistinctTimesNoTies(e, MinTime(Times(e)));
    TiedPrefix(e);
  }

  /** One round played on the field `active`: the write-back of the threads'
      results, then the evaluation. */
  datatype Round<T> = Round(result: RaceResult<T>, next: seq<T>, measured: map<T, int>)

  /** A round's result and the field of the next round: on a draw the tied
      prefix of the positions, on a win the field as it was. */
  function PlayRound<T(==)>(active: seq<T>, times: map<T, int>, rs: seq<Timed<T>>): Round<T>
  {
    var measured := WriteBack(times, rs);
    var e := Keyed(active, measured);
    var status := Classify(e);
    Round(RaceResult(status, Positions(e)), if status == Draw then Narrow(e) else active, measured)
  }

  /** The first competitor's time is strictly below every other's. */
  ghost predicate FastestFirst<T>(p: seq<T>, times: map<T, int>)
  {
    forall j :: 1 <= j < |p| ==> TimeOf(times, p[0]) < TimeOf(times, p[j])
  }

  /** The first `n` of `p` are exactly the competitors whose time equals that
      of `p[0]`. */
  ghost predicate TiedFirst<T>(p: seq<T>, n: nat, times: map<T, int>)
  {
    forall j :: 0 <= j < |p| ==> (TimeOf(times, p[j]) == TimeOf(times, p[0]) <==> j < n)
  }

  /** Non-decreasing by the given times. */
  ghost predicate OrderedBy<T>(p: seq<T>, times: map<T, int>)
  {
    forall i, j :: 0 <= i < j < |p| ==> TimeOf(times, p[i]) <= TimeOf(times, p[j])
  }

  /** What a round played on a non-empty field guarantees: its positions
      reorder the field and are ordered by the times the round leaves; a draw
      keeps the prefix of the positions tied with the first, at least two of
      them; a win keeps the field and its first position is strictly
      fastest. */
  ghost predicate Settles<T>(active: seq<T>, round: Round<T>)
  {
    var p := round.result.positions;
    && |p| == |active|
    && multiset(p) == multiset(active)
    && OrderedBy(p, round.measured)
    && (round.result.status == Draw ==>
          && 2 <= |round.next| <= |active|
          && round.next == p[..|round.next|]
          && TiedFirst(p, |round.next|, round.measured))
    && (round.result.status == Win ==> round.next == active && FastestFirst(p, round.measured))
  }

  /** Every position carries its competitor's time in the given map. */
  lemma KeyedPositionsTimes<T>(active: seq<T>, times: map<T, int>)
    ensures var p := SortByTime(Keyed(active, times));
      forall j :: 0 <= j < |p| ==> p[j].time == TimeOf(times, p[j].who)
  {
    var e := Keyed(active, times);
    var p := SortByTime(e);
    PositionsCarryTimes(e);
    forall j | 0 <= j < |p|
      ensures p[j].time == TimeOf(times, p[j].who)
    {
      var i :| 0 <= i < |e| && e[i] == p[j];
      assert e[i].who == active[i];
    }
  }

  /** Every round on a non-empty field settles as `Settles` says. */
  lemma PlayRoundSettles<T>(active: seq<T>, times: map<T, int>, rs: seq<Timed<T>>)
    requires active != []
    ensures Settles(active, PlayRound(active, times, rs))
  {
    var measured := WriteBack(times, rs);
    var e := Keyed(active, measured);
    KeyedPositionsTimes(active, measured);
    PositionsCarryTimes(e);
    if Classify(e) == Draw {
      DrawNarrows(e);
      TiedPrefix(e);
      KeyedPositionsTimes(active, measured);
    } else {
      WinnerIsUniqueMinimum(e);
      KeyedPositionsTimes(active, measured);
    }
  }

  /** Two non-empty lists holding the same values have the same minimum. */
  lemma SameValuesSameMin(ts: seq<int>, us: seq<int>)
    requires |ts| > 0 && |us| > 0
    requires forall i :: 0 <= i < |ts| ==> ts[i] in us
    requires forall i :: 0 <= i < |us| ==> us[i] in ts
    ensures MinTime(ts) == MinTime(us)
  {
  }

  /** In every round, `positions[0]` ends with the smallest duration the
      threads measured. */
  lemma WinnerTimeIsMinimum<T>(times: map<T, int>, rs: seq<Timed<T>>, active: seq<T>)
    requires active != [] && IsMeasurement(rs, active)
    ensures var round := PlayRound(active, times, rs);
      TimeOf(round.measured, round.result.positions[0]) == MinTime(Times(rs))
  {
    var measured := WriteBack(times, rs);
    var e := Keyed(active, measured);
    WinnerIsUniqueMinimum(e);
    KeyedPositionsTimes(active, measured);
    WriteBackMeasured(times, rs, active);
    forall i | 0 <= i < |e|
      ensures Times(e)[i] in Times(rs)
    {
      var a :| 0 <= a < |rs| && Who(rs)[a] == active[i];
      assert Times(rs)[a] == rs[a].time;
    }
    forall a | 0 <= a < |rs|
      ensures Times(rs)[a] in Times(e)
    {
      var i :| 0 <= i < |active| && active[i] == rs[a].who;
      assert Times(e)[i] == e[i].time;
    }
    SameValuesSameMin(Times(e), Times(rs));
  }

  /** A competitor occurs at most once in a list without repetitions. */
  lemma {:induction false} DistinctAtMostOnce<T>(a: seq<T>, x: T)
    requires Distinct(a)
    ensures multiset(a)[x] <= 1
  {
    if a != [] {
      assert a == [a[0]] + a[1..];
      assert Distinct(a[1..]) by {
        forall i, j | 0 <= i < j < |a| - 1
          ensures a[1..][i] != a[1..][j]
        {
          assert a[1..][i] == a[i + 1] && a[1..][j] == a[j + 1];
        }
      }
      DistinctAtMostOnce(a[1..], x);
      if x == a[0] {
        assert x !in a[1..];
      }
    }
  }

  /** A reordering of a list without repetitions has none either. */
  lemma DistinctReordered<T>(p: seq<T>, a: seq<T>)
    requires Distinct(a) && multiset(p) == multiset(a)
    ensures Distinct(p)
  {
    forall i, j | 0 <= i < j < |p|
      ensures p[i] != p[j]
    {
      var x := p[i];
      assert p == p[..j] + [p[j]] + p[j + 1..];
      assert x in multiset(p[..j]) by {
        assert p[..j][i] == x;
      }
      DistinctAtMostOnce(a, x);
    }
  }
}
