/**
 * Setting the retention period of every log group of one region
 * (retention.py, update_retention_period). The outcome of each
 * put_retention_policy call is an input: outcomes[i] is true when the call for
 * the i-th log group returned and false when it raised.
 */
module Mutation {
  import opened Regions
  import opened Dicts
  import opened Pagination

  /** The per-region result record `{'success': …, 'failed': …}`. */
  datatype Counts = Counts(success: nat, failed: nat)

  /** The arguments of one put_retention_policy call. */
  datatype PutCall = PutCall(logGroupName: LogGroup, retentionInDays: int)

  /** The counters after the calls whose outcomes are given, in call order, starting from zero. */
  function Tally(outcomes: seq<bool>): Counts {
    if outcomes == [] then Counts(0, 0)
    else
      var c := Tally(outcomes[..|outcomes| - 1]);
      if outcomes[|outcomes| - 1] then c.(success := c.success + 1) else c.(failed := c.failed + 1)
  }

  /**
   * Every call is counted exactly once: success is the number of calls that
   * succeeded, failed the number that raised, and together they are the
   * number of log groups.
   */
  lemma {:induction false} TallyCounts(outcomes: seq<bool>)
    ensures Tally(outcomes).success == multiset(outcomes)[true]
    ensures Tally(outcomes).failed == multiset(outcomes)[false]
    ensures Tally(outcomes).success + Tally(outcomes).failed == |outcomes|
    decreases |outcomes|
  {
    if outcomes != [] {
      var init := outcomes[..|outcomes| - 1];
      TallyCounts(init);
      assert outcomes == init + [outcomes[|outcomes| - 1]];
    }
  }

  /** The counters only ever go up as the loop proceeds. */
  lemma {:induction false} TallyMonotone(outcomes: seq<bool>, i: nat, j: nat)
    requires i <= j <= |outcomes|
    ensures Tally(outcomes[..i]).success <= Tally(outcomes[..j]).success
    ensures Tally(outcomes[..i]).failed <= Tally(outcomes[..j]).failed
    decreases j - i
  {
    if i < j {
      TallyMonotone(outcomes, i, j - 1);
      assert outcomes[..j][..j - 1] == outcomes[..j - 1];
    }
  }

  /**
   * The update loop: one put_retention_policy call per log group, in list
   * order, each with the configured number of days; a failed call is counted
   * and the loop goes on.
   */
  method UpdateRetentionPeriod(logGroups: seq<LogGroup>, region: Region, days: int, outcomes: seq<bool>)
    returns (result: Dict<Region, Counts>, calls: seq<PutCall>)
    requires |outcomes| == |logGroups|
    ensures result == Single(region, Tally(outcomes))
    ensures |calls| == |logGroups|
    ensures forall i :: 0 <= i < |calls| ==> calls[i] == PutCall(logGroups[i], days)
  {
    var logGroupResult := Counts(0, 0);
    calls := [];
    for i := 0 to |logGroups|
      invariant logGroupResult == Tally(outcomes[..i])
      invariant |calls| == i
      invariant forall j :: 0 <= j < i ==> calls[j] == PutCall(logGroups[j], days)
    {
      calls := calls + [PutCall(logGroups[i], days)];
      assert outcomes[..i + 1][..i] == outcomes[..i];
      if outcomes[i] {
        logGroupResult := logGroupResult.(success := logGroupResult.success + 1);
      } else {
        logGroupResult := logGroupResult.(failed := logGroupResult.failed + 1);
      }
    }
    assert outcomes[..|logGroups|] == outcomes;
    result := Single(region, logGroupResult);
  }
}
