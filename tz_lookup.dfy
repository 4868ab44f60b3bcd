/**
 * What a reader answers for a timestamp: `get_transition_index` followed by
 * `get_local_time_type`, over a table that section 3.2 of RFC 8536 calls
 * valid (strictly ascending times, every type index naming a record).
 */
module TzLookup {
  import opened TzFormat
  import opened TzSearch
  import opened TzInfo

  /** Every transition names one of the `typecnt` records. */
  predicate TypesInRange(z: TZInfo)
    reads z
    requires StateDecoded(z.Snapshot())
  {
    forall i | 0 <= i < z.timecnt :: z.transitionTypes.value[i] < z.typecnt
  }

  /**
   * The record in force at `t`: before the first transition the index is -1
   * and the lookup fails (there is no default record); from the first
   * transition on, it is the record of the last transition at or before `t`.
   */
  lemma LookupAtTimestamp(z: TZInfo, t: int)
    requires StateDecoded(z.Snapshot()) && z.timecnt > 0 && z.typecnt > 0
    requires StrictlyAscending(z.transitionTimes.value) && TypesInRange(z)
    ensures var times, i := z.transitionTimes.value, z.GetTransitionIndex(t);
      && (t < times[0] ==> i == -1 && z.GetLocalTimeType(i) == Err(InvalidTransitionIndex))
      && (times[0] <= t ==>
            && 0 <= i < z.timecnt && times[i] <= t && (i + 1 < z.timecnt ==> t < times[i + 1])
            && z.GetLocalTimeType(i) == Ok(Some(z.localTimeTypeRecords.value[z.transitionTypes.value[i]])))
  {
    var times := z.transitionTimes.value;
    TransitionIndexCases(times, t);
  }

  /** The offset reported at a transition time is that transition's record's offset. */
  lemma OffsetAtTransition(z: TZInfo, k: nat)
    requires StateDecoded(z.Snapshot()) && k < z.timecnt && z.typecnt > 0
    requires StrictlyAscending(z.transitionTimes.value) && TypesInRange(z)
    ensures z.GetTransitionIndex(z.transitionTimes.value[k]) == k
    ensures z.GetTransitionOffset(k) == Ok(z.localTimeTypeRecords.value[z.transitionTypes.value[k]].utoff)
  {
    TransitionIndexExact(z.transitionTimes.value, k);
  }
}
