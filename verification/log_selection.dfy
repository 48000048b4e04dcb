/**
 * The exercise query of `getUserLogs`:
 *   Exercise.find({ user, date: { $gte: from, $lte: to } }).limit(limit).sort({ date: 'desc' })
 * MongoDB sorts before it limits, whatever the order of the calls, so the query is
 * filter, then sort newest first, then keep the first `limit` (0 keeps all).
 */
module LogSelection {
  import opened Wrappers
  import opened Host
  import opened ExerciseModel

  /** The query's filter: the exercise references the user and its date lies in [lo, hi]. */
  predicate InRange(e: Exercise, user: Id, lo: Instant, hi: Instant) {
    e.user == Some(user) && lo <= e.date <= hi
  }

  /** The documents the filter matches, in store order, each as often as it is stored. */
  function Filter(exercises: seq<Exercise>, user: Id, lo: Instant, hi: Instant): (r: seq<Exercise>)
    ensures forall i :: 0 <= i < |r| ==> InRange(r[i], user, lo, hi)
    ensures forall e :: InRange(e, user, lo, hi) ==> multiset(r)[e] == multiset(exercises)[e]
    ensures multiset(r) <= multiset(exercises)
  {
    if exercises == [] then []
    else
      assert exercises == [exercises[0]] + exercises[1..];
      if InRange(exercises[0], user, lo, hi)
      then [exercises[0]] + Filter(exercises[1..], user, lo, hi)
      else Filter(exercises[1..], user, lo, hi)
  }

  /** Newest first: dates never increase along the sequence. */
  predicate SortedDesc(s: seq<Exercise>) {
    forall i, j :: 0 <= i < j < |s| ==> s[i].date >= s[j].date
  }

  /** Every element of a permutation of `s` plus `e` is no newer than `bound` when all of them are. */
  lemma BoundedByHead(t: seq<Exercise>, s: seq<Exercise>, e: Exercise, bound: Instant)
    requires multiset(t) == multiset(s) + multiset{e}
    requires e.date <= bound
    requires forall i :: 0 <= i < |s| ==> s[i].date <= bound
    ensures forall i :: 0 <= i < |t| ==> t[i].date <= bound
  {
    forall i | 0 <= i < |t| ensures t[i].date <= bound {
      assert t[i] in multiset(t);
      if t[i] != e {
        assert t[i] in multiset(s);
      }
    }
  }

  /** Inserts `e` before the first element that is not newer, keeping store order among equal dates. */
  function InsertDesc(e: Exercise, s: seq<Exercise>): (r: seq<Exercise>)
    requires SortedDesc(s)
    ensures SortedDesc(r)
    ensures multiset(r) == multiset(s) + multiset{e}
  {
    if s == [] || e.date >= s[0].date then [e] + s
    else
      var t := InsertDesc(e, s[1..]);
      ConsSorted(s, t, e);
      [s[0]] + t
  }

  /** Putting the head of `s` back in front of the sorted insertion into its tail keeps both contracts. */
  lemma ConsSorted(s: seq<Exercise>, t: seq<Exercise>, e: Exercise)
    requires s != [] && SortedDesc(s) && e.date < s[0].date
    requires SortedDesc(t) && multiset(t) == multiset(s[1..]) + multiset{e}
    ensures SortedDesc([s[0]] + t)
    ensures multiset([s[0]] + t) == multiset(s) + multiset{e}
  {
    assert s == [s[0]] + s[1..];
    BoundedByHead(t, s[1..], e, s[0].date);
    var r := [s[0]] + t;
    forall i, j | 0 <= i < j < |r| ensures r[i].date >= r[j].date {
      assert r[j] == t[j - 1];
      if i > 0 {
        assert r[i] == t[i - 1];
      }
    }
  }

  /** The `sort({ date: 'desc' })` step, as a stable insertion sort. */
  function SortDesc(s: seq<Exercise>): (r: seq<Exercise>)
    ensures SortedDesc(r)
    ensures multiset(r) == multiset(s)
  {
    if s == [] then []
    else
      assert s == [s[0]] + s[1..];
      InsertDesc(s[0], SortDesc(s[1..]))
  }

  /**
   * The `limit(limit)` step: a prefix of `s` that is all of `s` when `limit` is 0,
   * never longer than a positive `limit`, and shorter than `s` only when cut at `limit`.
   */
  function Take(s: seq<Exercise>, limit: nat): (r: seq<Exercise>)
    ensures |r| <= |s| && r == s[..|r|]
    ensures limit == 0 ==> r == s
    ensures limit > 0 ==> |r| <= limit
    ensures |r| < |s| ==> |r| == limit
  {
    if limit == 0 || |s| <= limit then s else s[..limit]
  }

  /** The documents the log query returns. */
  function Select(exercises: seq<Exercise>, user: Id, lo: Instant, hi: Instant, limit: nat): seq<Exercise> {
    Take(SortDesc(Filter(exercises, user, lo, hi)), limit)
  }

  /** Keeping a prefix of a sorted sequence keeps it sorted and keeps only its elements. */
  lemma TakeSound(t: seq<Exercise>, limit: nat)
    requires SortedDesc(t)
    ensures var r := Take(t, limit);
      SortedDesc(r) && (limit > 0 ==> |r| <= limit) && multiset(r) <= multiset(t)
      && forall i :: 0 <= i < |r| ==> r[i] in multiset(t)
  {
    var r := Take(t, limit);
    if r != t {
      assert t == r + t[limit..];
      assert multiset(t) == multiset(r) + multiset(t[limit..]);
    }
    forall i | 0 <= i < |r| ensures r[i] in multiset(t) {
      assert r[i] == t[i];
    }
  }

  /** An element the prefix drops lies after the cut, so it is no newer than anything kept. */
  lemma TakeDropsOnlyOlder(t: seq<Exercise>, limit: nat, e: Exercise)
    requires SortedDesc(t)
    requires multiset(Take(t, limit))[e] < multiset(t)[e]
    ensures var r := Take(t, limit);
      |r| == limit && forall i :: 0 <= i < |r| ==> e.date <= r[i].date
  {
    var r := Take(t, limit);
    assert r != t;
    assert t == r + t[limit..];
    assert multiset(t) == multiset(r) + multiset(t[limit..]);
    assert e in multiset(t[limit..]);
    var k :| 0 <= k < |t[limit..]| && t[limit..][k] == e;
    assert t[limit + k] == e;
  }

  /**
   * The query returns stored exercises of the user within the inclusive range,
   * newest first, and at most `limit` of them when `limit` is positive.
   */
  lemma {:induction false} SelectSound(exercises: seq<Exercise>, user: Id, lo: Instant, hi: Instant, limit: nat)
    ensures var r := Select(exercises, user, lo, hi, limit);
      && (forall i :: 0 <= i < |r| ==> InRange(r[i], user, lo, hi))
      && SortedDesc(r)
      && (limit > 0 ==> |r| <= limit)
      && multiset(r) <= multiset(exercises)
  {
    var m := Filter(exercises, user, lo, hi);
    var t := SortDesc(m);
    TakeSound(t, limit);
    var r := Take(t, limit);
    forall i | 0 <= i < |r| ensures InRange(r[i], user, lo, hi) {
      assert r[i] in multiset(m);
    }
  }

  /**
   * A matching stored exercise is left out only when the cap was reached, and then
   * every returned exercise is at least as new as it.
   */
  lemma {:induction false} SelectComplete(exercises: seq<Exercise>, user: Id, lo: Instant, hi: Instant, limit: nat, e: Exercise)
    requires InRange(e, user, lo, hi)
    requires multiset(Select(exercises, user, lo, hi, limit))[e] < multiset(exercises)[e]
    ensures var r := Select(exercises, user, lo, hi, limit);
      |r| == limit && forall i :: 0 <= i < |r| ==> e.date <= r[i].date
  {
    var m := Filter(exercises, user, lo, hi);
    var t := SortDesc(m);
    assert multiset(t)[e] == multiset(exercises)[e];
    TakeDropsOnlyOlder(t, limit, e);
  }

  /** The selection is empty exactly when no stored exercise matches the filter. */
  lemma SelectEmptyIff(exercises: seq<Exercise>, user: Id, lo: Instant, hi: Instant, limit: nat)
    ensures Select(exercises, user, lo, hi, limit) == []
        <==> forall e :: e in exercises ==> !InRange(e, user, lo, hi)
  {
  }

  /** With `limit` 0 the query returns every matching stored exercise, as often as it is stored. */
  lemma NoLimitKeepsEveryMatch(exercises: seq<Exercise>, user: Id, lo: Instant, hi: Instant, e: Exercise)
    requires InRange(e, user, lo, hi)
    ensures multiset(Select(exercises, user, lo, hi, 0))[e] == multiset(exercises)[e]
  {
  }
}
