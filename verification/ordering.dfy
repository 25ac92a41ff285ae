/**
 The ordering side of a race round: the stable sort by measured time behind
 `ThreadCompetitor.order_by_time`, and the `min` and `count` that the race
 applies to the list of times.

 Durations are abstract clock ticks (`int`). Ties are decided by exact
 equality, as the race does with `min` and `list.count`.
 */
module Ordering {

  /** A duration paired with the competitor it belongs to. This is both the
      (key, element) pair of a keyed sort and the (result, competitor) pair a
      racing thread appends to the round's result list. */
  datatype Timed<T> = Timed(time: int, who: T)

  /** The times of a list of entries, in order. */
  function Times<T>(es: seq<Timed<T>>): (ts: seq<int>)
    ensures |ts| == |es|
    ensures forall i :: 0 <= i < |es| ==> ts[i] == es[i].time
  {
    if es == [] then [] else [es[0].time] + Times(es[1..])
  }

  /** The competitors of a list of entries, in order. */
  function Who<T>(es: seq<Timed<T>>): (ws: seq<T>)
    ensures |ws| == |es|
    ensures forall i :: 0 <= i < |es| ==> ws[i] == es[i].who
  {
    if es == [] then [] else [es[0].who] + Who(es[1..])
  }

  /** Non-decreasing by time. */
  ghost predicate SortedByTime<T>(es: seq<Timed<T>>)
  {
    forall i, j :: 0 <= i < j < |es| ==> es[i].time <= es[j].time
  }

  /** The entries of `es` whose time is exactly `t`, in their order in `es`.
      Two lists agree on `WithTime` for every `t` exactly when they keep the
      relative order of entries with equal times. */
  function WithTime<T>(es: seq<Timed<T>>, t: int): (r: seq<Timed<T>>)
  {
    if es == [] then []
    else (if es[0].time == t then [es[0]] else []) + WithTime(es[1..], t)
  }

  /** Places `x` before the first entry of `s` whose time is not smaller. */
  function Insert<T>(x: Timed<T>, s: seq<Timed<T>>): (r: seq<Timed<T>>)
    ensures |r| == |s| + 1
  {
    if s == [] || x.time <= s[0].time then [x] + s
    else [s[0]] + Insert(x, s[1..])
  }

  /** Stable sort by time: an entry placed earlier in `es` stays ahead of every
      later entry with the same time, as with `sorted(..., key=...)`. */
  function SortByTime<T>(es: seq<Timed<T>>): (r: seq<Timed<T>>)
    ensures |r| == |es|
  {
    if es == [] then [] else Insert(es[0], SortByTime(es[1..]))
  }

  lemma {:induction false} InsertPermutation<T>(x: Timed<T>, s: seq<Timed<T>>)
    ensures multiset(Insert(x, s)) == multiset(s) + multiset{x}
  {
    if s == [] || x.time <= s[0].time {
    } else {
      InsertPermutation(x, s[1..]);
      assert s == [s[0]] + s[1..];
    }
  }

  lemma {:induction false} InsertSorted<T>(x: Timed<T>, s: seq<Timed<T>>)
    requires SortedByTime(s)
    ensures SortedByTime(Insert(x, s))
  {
    if s == [] || x.time <= s[0].time {
    } else {
      var rest := Insert(x, s[1..]);
      InsertSorted(x, s[1..]);
      InsertPermutation(x, s[1..]);
      forall j | 0 <= j < |rest|
        ensures s[0].time <= rest[j].time
      {
        assert rest[j] in multiset(rest);
        if rest[j] != x {
          assert rest[j] in multiset(s[1..]);
        }
      }
    }
  }

  /** `order_by_time` returns its input non-decreasing by time. */
  lemma {:induction false} SortByTimeSorted<T>(es: seq<Timed<T>>)
    ensures SortedByTime(SortByTime(es))
  {
    if es != [] {
      SortByTimeSorted(es[1..]);
      InsertSorted(es[0], SortByTime(es[1..]));
    }
  }

  /** `order_by_time` returns a permutation of its input. */
  lemma {:induction false} SortByTimePermutation<T>(es: seq<Timed<T>>)
    ensures multiset(SortByTime(es)) == multiset(es)
  {
    if es != [] {
      SortByTimePermutation(es[1..]);
      InsertPermutation(es[0], SortByTime(es[1..]));
      assert es == [es[0]] + es[1..];
    }
  }

  lemma {:induction false} InsertWithTime<T>(x: Timed<T>, s: seq<Timed<T>>, t: int)
    ensures WithTime(Insert(x, s), t) == (if x.time == t then [x] else []) + WithTime(s, t)
  {
    if s == [] || x.time <= s[0].time {
      assert ([x] + s)[1..] == s;
    } else {
      var rest := Insert(x, s[1..]);
      var r := Insert(x, s);
      assert r == [s[0]] + rest;
      assert r[0] == s[0] && r[1..] == rest;
      InsertWithTime(x, s[1..], t);
      assert WithTime(r, t) == (if s[0].time == t then [s[0]] else []) + WithTime(rest, t);
      assert WithTime(s, t) == (if s[0].time == t then [s[0]] else []) + WithTime(s[1..], t);
      if s[0].time == t {
        assert x.time != t;
      }
    }
  }

  /** `order_by_time` is stable: for every time `t`, the entries with time `t`
      appear in the output in the order they had in the input. */
  lemma {:induction false} SortByTimeStable<T>(es: seq<Timed<T>>, t: int)
    ensures WithTime(SortByTime(es), t) == WithTime(es, t)
  {
    if es != [] {
      SortByTimeStable(es[1..], t);
      InsertWithTime(es[0], SortByTime(es[1..]), t);
    }
  }

  /** The competitors are rearranged, never dropped or duplicated. */
  lemma {:induction false} SortByTimeKeepsCompetitors<T>(es: seq<Timed<T>>)
    ensures multiset(Who(SortByTime(es))) == multiset(Who(es))
  {
    if es != [] {
      SortByTimeKeepsCompetitors(es[1..]);
      InsertKeepsCompetitors(es[0], SortByTime(es[1..]));
    }
  }

  lemma {:induction false} InsertKeepsCompetitors<T>(x: Timed<T>, s: seq<Timed<T>>)
    ensures multiset(Who(Insert(x, s))) == multiset(Who(s)) + multiset{x.who}
  {
    if s == [] || x.time <= s[0].time {
      assert Who([x] + s) == [x.who] + Who(s);
    } else {
      InsertKeepsCompetitors(x, s[1..]);
      assert Who([s[0]] + Insert(x, s[1..])) == [s[0].who] + Who(Insert(x, s[1..]));
      assert Who(s) == [s[0].who] + Who(s[1..]);
    }
  }

  /** Every entry of the sorted list is an entry of the input. */
  lemma SortByTimeMembers<T>(es: seq<Timed<T>>)
    ensures forall j :: 0 <= j < |es| ==> SortByTime(es)[j] in es
  {
    SortByTimePermutation(es);
    forall j | 0 <= j < |es|
      ensures SortByTime(es)[j] in es
    {
      assert SortByTime(es)[j] in multiset(SortByTime(es));
    }
  }

  /** Python's `min` over a non-empty list of times (the first smallest one). */
  function MinTime(ts: seq<int>): (m: int)
    requires |ts| > 0
    ensures m in ts
    ensures forall i :: 0 <= i < |ts| ==> m <= ts[i]
  {
    if |ts| == 1 then ts[0]
    else
      var rest := MinTime(ts[1..]);
      if ts[0] <= rest then ts[0] else rest
  }

  /** Python's `list.count`: how many times equal `v` exactly. */
  function CountTime(ts: seq<int>, v: int): (n: nat)
    ensures n <= |ts|
    ensures n == 0 <==> v !in ts
  {
    if ts == [] then 0
    else (if ts[0] == v then 1 else 0) + CountTime(ts[1..], v)
  }

  /** Counting a time in the list of times counts the entries at that time. */
  lemma {:induction false} CountTimeIsTies<T>(es: seq<Timed<T>>, t: int)
    ensures CountTime(Times(es), t) == |WithTime(es, t)|
  {
    if es != [] {
      CountTimeIsTies(es[1..], t);
      assert Times(es)[1..] == Times(es[1..]);
    }
  }

  lemma {:induction false} WithTimeNoneAt<T>(es: seq<Timed<T>>, t: int)
    requires forall i :: 0 <= i < |es| ==> es[i].time != t
    ensures WithTime(es, t) == []
  {
    if es != [] {
      WithTimeNoneAt(es[1..], t);
    }
  }

  /** In a sorted list whose times are all at least `m`, the entries at `m`
      are exactly a prefix. */
  lemma {:induction false} SortedTiesArePrefix<T>(p: seq<Timed<T>>, m: int)
    requires SortedByTime(p)
    requires forall i :: 0 <= i < |p| ==> m <= p[i].time
    ensures |WithTime(p, m)| <= |p|
    ensures WithTime(p, m) == p[..|WithTime(p, m)|]
    ensures forall j :: 0 <= j < |p| ==> (p[j].time == m <==> j < |WithTime(p, m)|)
  {
    if p != [] {
      if p[0].time == m {
        SortedTiesArePrefix(p[1..], m);
        assert p == [p[0]] + p[1..];
      } else {
        WithTimeNoneAt(p, m);
      }
    }
  }

  /** Filtering by time keeps a sub-multiset of the competitors. */
  lemma {:induction false} WithTimeSubset<T>(es: seq<Timed<T>>, t: int)
    ensures multiset(Who(WithTime(es, t))) <= multiset(Who(es))
  {
    if es != [] {
      var rest := WithTime(es[1..], t);
      WithTimeSubset(es[1..], t);
      assert multiset(Who(es)) == multiset{es[0].who} + multiset(Who(es[1..]));
      if es[0].time == t {
        assert WithTime(es, t) == [es[0]] + rest;
        assert ([es[0]] + rest)[1..] == rest;
        assert multiset(Who(WithTime(es, t))) == multiset{es[0].who} + multiset(Who(rest));
      } else {
        assert WithTime(es, t) == rest;
      }
    }
  }

  /** Filtering by time keeps every entry exactly when all share that time. */
  lemma {:induction false} WithTimeKeepsAll<T>(es: seq<Timed<T>>, t: int)
    ensures |WithTime(es, t)| <= |es|
    ensures |WithTime(es, t)| == |es| <==> forall i :: 0 <= i < |es| ==> es[i].time == t
  {
    if es != [] {
      WithTimeKeepsAll(es[1..], t);
      if forall i :: 1 <= i < |es| ==> es[i].time == t {
        assert forall i :: 0 <= i < |es| - 1 ==> es[1..][i].time == t;
      }
    }
  }

  lemma {:induction false} WithTimeAll<T>(es: seq<Timed<T>>, t: int)
    requires forall i :: 0 <= i < |es| ==> es[i].time == t
    ensures WithTime(es, t) == es
  {
    if es != [] {
      WithTimeAll(es[1..], t);
    }
  }

  /** With pairwise distinct times, at most one entry sits at any time. */
  lemma {:induction false} DistinctTimesNoTies<T>(es: seq<Timed<T>>, t: int)
    requires forall i, j :: 0 <= i < j < |es| ==> es[i].time != es[j].time
    ensures |WithTime(es, t)| <= 1
  {
    if es != [] {
      if es[0].time == t {
        WithTimeNoneAt(es[1..], t);
      } else {
        DistinctTimesNoTies(es[1..], t);
      }
    }
  }
}
