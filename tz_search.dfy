/**
 * `TZInfo.__search_transition_index`: the recursive bisection that maps a
 * timestamp to the index of the transition in force at that instant, over a
 * table of transition times (read-only fields in the Python class, a
 * sequence here).
 */
module TzSearch {

  /** Section 3.2 of RFC 8536: transition times are in strictly ascending order. */
  predicate StrictlyAscending(times: seq<int>)
  {
    forall i, j | 0 <= i < j < |times| :: times[i] < times[j]
  }

  /**
   * Reference definition: the last index whose transition time is at or before
   * `t`, or -1 when there is none.
   */
  function Floor(times: seq<int>, t: int): (r: int)
    ensures -1 <= r < |times|
    ensures r >= 0 ==> times[r] <= t
    ensures forall j | r < j < |times| :: t < times[j]
  {
    if |times| == 0 then -1
    else if times[|times| - 1] <= t then |times| - 1
    else Floor(times[..|times| - 1], t)
  }

  /**
   * The search between `begin` and `end` (inclusive), with `timecnt == |times|`.
   * The boundary tests come first, on every call; the midpoint is the floor of
   * `(begin + end) / 2`, and a call that recurses has `end - begin >= 2`, so
   * each call narrows the range.
   */
  function SearchTransitionIndex(times: seq<int>, t: int, begin: nat, end: nat): (r: int)
    requires begin <= end < |times|
    ensures -1 <= r < |times|
    ensures r == -1 <==> t < times[0] && t < times[|times| - 1]
    decreases end - begin
  {
    var n := |times|;
    if t >= times[n - 1] then n - 1
    else if t < times[0] then -1
    else if begin + 1 == end then (if t < times[end] then begin else end)
    else if begin == end then begin
    else
      var mid := (begin + end) / 2;
      if t < times[mid] then SearchTransitionIndex(times, t, begin, mid - 1)
      else if t > times[mid] then SearchTransitionIndex(times, t, mid, end)
      else mid
  }

  /** In an ascending table, an index that brackets `t` is the reference answer. */
  lemma FloorUnique(times: seq<int>, t: int, i: int)
    requires StrictlyAscending(times)
    requires 0 <= i < |times| && times[i] <= t && (i + 1 < |times| ==> t < times[i + 1])
    ensures Floor(times, t) == i
  {
  }

  lemma FloorBeforeFirst(times: seq<int>, t: int)
    requires StrictlyAscending(times) && |times| > 0 && t < times[0]
    ensures Floor(times, t) == -1
  {
  }

  /**
   * The invariant of the recursion: `times[begin] <= t` (or `begin` is 0 and
   * the boundary test decides) and the answer lies in `[begin, end]`. Under
   * it, every call returns the reference answer.
   */
  lemma SearchFindsFloor(times: seq<int>, t: int, begin: nat, end: nat)
    requires StrictlyAscending(times)
    requires begin <= end < |times|
    requires begin == 0 || times[begin] <= t
    requires end + 1 < |times| ==> t < times[end + 1]
    ensures SearchTransitionIndex(times, t, begin, end) == Floor(times, t)
  {
    var n := |times|;
    if t >= times[n - 1] {
      FloorUnique(times, t, n - 1);
    } else if t < times[0] {
      FloorBeforeFirst(times, t);
    } else {
      BisectionFindsFloor(times, t, begin, end);
    }
  }

  /** The bisection proper, for a `t` inside the table's range. */
  lemma {:induction false} BisectionFindsFloor(times: seq<int>, t: int, begin: nat, end: nat)
    requires StrictlyAscending(times)
    requires begin <= end < |times| && times[0] <= t < times[|times| - 1]
    requires times[begin] <= t
    requires end + 1 < |times| ==> t < times[end + 1]
    ensures SearchTransitionIndex(times, t, begin, end) == Floor(times, t)
    decreases end - begin
  {
    if begin + 1 == end {
      if t < times[end] {
        FloorUnique(times, t, begin);
      } else {
        FloorUnique(times, t, end);
      }
    } else if begin == end {
      FloorUnique(times, t, begin);
    } else {
      var mid := (begin + end) / 2;
      if t < times[mid] {
        BisectionFindsFloor(times, t, begin, mid - 1);
      } else if t > times[mid] {
        BisectionFindsFloor(times, t, mid, end);
      } else {
        FloorUnique(times, t, mid);
      }
    }
  }

  /** The search over the whole table agrees with the reference definition. */
  lemma TransitionIndexIsFloor(times: seq<int>, t: int)
    requires |times| > 0 && StrictlyAscending(times)
    ensures SearchTransitionIndex(times, t, 0, |times| - 1) == Floor(times, t)
  {
    SearchFindsFloor(times, t, 0, |times| - 1);
  }

  /**
   * The cases of the search: before the first transition there is no index;
   * at or after the last one the last index; otherwise the index `i` with
   * `times[i] <= t < times[i + 1]`.
   */
  lemma TransitionIndexCases(times: seq<int>, t: int)
    requires |times| > 0 && StrictlyAscending(times)
    ensures var r := SearchTransitionIndex(times, t, 0, |times| - 1);
      && (t < times[0] ==> r == -1)
      && (t >= times[|times| - 1] ==> r == |times| - 1)
      && (times[0] <= t < times[|times| - 1] ==> 0 <= r < |times| - 1 && times[r] <= t < times[r + 1])
  {
    TransitionIndexIsFloor(times, t);
  }

  /** A timestamp equal to a transition time finds that transition. */
  lemma TransitionIndexExact(times: seq<int>, k: nat)
    requires StrictlyAscending(times) && k < |times|
    ensures SearchTransitionIndex(times, times[k], 0, |times| - 1) == k
  {
    TransitionIndexIsFloor(times, times[k]);
    FloorUnique(times, times[k], k);
  }

  /**
   * Why the table must be strictly ascending: with a repeated time the search
   * stops at the first copy it probes, not at the last transition at or
   * before `t`.
   */
  lemma RepeatedTimeNotFloor()
    ensures SearchTransitionIndex([0, 5, 5, 10], 5, 0, 3) == 1
    ensures Floor([0, 5, 5, 10], 5) == 2
  {
  }
}
