/**
 * The retention script's main(): parse AWS_REGIONS, drop invalid regions,
 * list the log groups of every region (phase 1), set the retention period of
 * every listed log group (phase 2), and report one row per region.
 *
 * The two thread pools become sequential loops over the tasks in submission
 * order, and each merge loop folds the single-key task results in that order.
 * Every task result is keyed by its own region and determined by it, so the
 * merged mapping is the same for every completion order (Dicts.PutAllOrderFree);
 * only the order of the keys, and with it the order of the report rows,
 * follows the completion order.
 */
module Retention {
  import opened Seqs
  import opened Regions
  import opened Dicts
  import opened LenientValidation
  import opened Pagination
  import opened Mutation

  /** One line of the final table: region, success count, failed count. */
  datatype Row = Row(region: Region, success: nat, failed: nat)

  /** The final result: the "Regions processed" header and the table rows. */
  datatype Report = Report(regionsProcessed: nat, rows: seq<Row>)

  /** cwRegions once parsing and (unless "all") lenient validation are done. */
  function Selected(spec: string, active: seq<Region>): seq<Region> {
    if IsAll(spec) then ResolveSpec(spec, active) else Sweep(ResolveSpec(spec, active), 0, active)
  }

  /** The log groups phase 1 finds in each region. */
  function ListedIn(listing: Region -> seq<Response>): Region -> seq<LogGroup> {
    r => Collected(listing(r))
  }

  /** The outcomes of the n put calls made in region r. */
  function Outcomes(putOk: (Region, int) -> bool, r: Region, n: nat): (o: seq<bool>)
    ensures |o| == n
    ensures forall i :: 0 <= i < n ==> o[i] == putOk(r, i)
  {
    seq(n, i => putOk(r, i))
  }

  /** The counts phase 2 produces for each region of the phase-1 result. */
  function TalliedIn(logGroups: Dict<Region, seq<LogGroup>>, putOk: (Region, int) -> bool): Region -> Counts {
    r => if r in logGroups.vals then Tally(Outcomes(putOk, r, |logGroups.vals[r]|)) else Counts(0, 0)
  }

  /**
   * Phase 1: one listing task per region, then the merge loop
   * `logGroups = {**logGroups, **f.result()}`. The result has one entry per
   * distinct region, in order of first occurrence, holding that region's
   * listed log groups.
   */
  method FetchPhase(regions: seq<Region>, listing: Region -> seq<Response>)
    returns (logGroups: Dict<Region, seq<LogGroup>>)
    requires forall r :: Terminates(listing(r))
    ensures logGroups == PutAll(regions, ListedIn(listing))
    ensures logGroups.keys == Dedup(regions)
    ensures logGroups.vals == map r | r in regions :: Collected(listing(r))
  {
    var results: seq<Dict<Region, seq<LogGroup>>> := [];
    for i := 0 to |regions|
      invariant |results| == i
      invariant forall j :: 0 <= j < i ==> results[j] == Single(regions[j], Collected(listing(regions[j])))
    {
      var res, requests := FetchAllLogGroups(regions[i], listing(regions[i]));
      results := results + [res];
    }
    logGroups := MergeResults(regions, results, ListedIn(listing));
  }

  /**
   * Phase 2: one update task per key of the phase-1 result, then the merge
   * loop `logGroupsResult = {**logGroupsResult, **f.result()}`. The result
   * has exactly the phase-1 keys, each with the counts of its own log groups.
   */
  method MutatePhase(logGroups: Dict<Region, seq<LogGroup>>, putOk: (Region, int) -> bool, days: int)
    returns (results: Dict<Region, Counts>)
    requires Valid(logGroups)
    ensures results == PutAll(logGroups.keys, TalliedIn(logGroups, putOk))
    ensures results.keys == logGroups.keys
    ensures forall r :: r in results.vals <==> r in logGroups.vals
    ensures forall r :: r in logGroups.vals ==>
      results.vals[r] == Tally(Outcomes(putOk, r, |logGroups.vals[r]|))
  {
    var keys := logGroups.keys;
    var tasks: seq<Dict<Region, Counts>> := [];
    for i := 0 to |keys|
      invariant |tasks| == i
      invariant forall j :: 0 <= j < i ==> tasks[j] == Single(keys[j], TalliedIn(logGroups, putOk)(keys[j]))
    {
      var k := keys[i];
      var groups := logGroups.vals[k];
      var res, calls := UpdateRetentionPeriod(groups, k, days, Outcomes(putOk, k, |groups|));
      tasks := tasks + [res];
    }
    results := MergeResults(keys, tasks, TalliedIn(logGroups, putOk));
    DedupProperties(keys);
  }

  /**
   * The report: the header count as given, and a row for every region of the
   * merged result, zero counts included, each region in exactly one row, with
   * that region's counts, in key order.
   */
  function Render(regionsProcessed: nat, results: Dict<Region, Counts>): (report: Report)
    requires Valid(results)
    ensures report.regionsProcessed == regionsProcessed
    ensures forall r :: r in results.vals <==> exists i :: 0 <= i < |report.rows| && report.rows[i].region == r
    ensures forall i, j :: 0 <= i < j < |report.rows| ==> report.rows[i].region != report.rows[j].region
    ensures forall i :: 0 <= i < |report.rows| ==>
      && report.rows[i].region in results.vals
      && report.rows[i].success == results.vals[report.rows[i].region].success
      && report.rows[i].failed == results.vals[report.rows[i].region].failed
    ensures |report.rows| == |results.keys|
    ensures forall i :: 0 <= i < |report.rows| ==> report.rows[i].region == results.keys[i]
  {
    var rows := seq(|results.keys|, i requires 0 <= i < |results.keys| =>
      Row(results.keys[i], results.vals[results.keys[i]].success, results.vals[results.keys[i]].failed));
    assert forall r :: r in results.vals ==> exists i :: 0 <= i < |rows| && rows[i].region == r by {
      forall r | r in results.vals ensures exists i :: 0 <= i < |rows| && rows[i].region == r {
        var i :| 0 <= i < |results.keys| && results.keys[i] == r;
        assert rows[i].region == r;
      }
    }
    Report(regionsProcessed, rows)
  }

  /**
   * The whole run. The header counts cwRegions after validation, so it is
   * larger than the number of rows exactly when a region is listed twice;
   * there is one row per distinct surviving region, and each row's counts
   * add up to the number of log groups listed in that region, success being
   * the number of put calls that succeeded.
   */
  method Run(spec: string, active: seq<Region>, listing: Region -> seq<Response>,
             putOk: (Region, int) -> bool, days: int)
    returns (report: Report)
    requires forall r :: Terminates(listing(r))
    ensures report.regionsProcessed == |Selected(spec, active)|
    ensures |report.rows| == |Dedup(Selected(spec, active))| <= report.regionsProcessed
    ensures |report.rows| == report.regionsProcessed <==> Distinct(Selected(spec, active))
    ensures forall r :: r in Selected(spec, active) <==> exists i :: 0 <= i < |report.rows| && report.rows[i].region == r
    ensures forall i :: 0 <= i < |report.rows| ==>
      && report.rows[i].region == Dedup(Selected(spec, active))[i]
      && report.rows[i].success == multiset(Outcomes(putOk, report.rows[i].region, |Collected(listing(report.rows[i].region))|))[true]
      && report.rows[i].failed == multiset(Outcomes(putOk, report.rows[i].region, |Collected(listing(report.rows[i].region))|))[false]
      && report.rows[i].success + report.rows[i].failed == |Collected(listing(report.rows[i].region))|
  {
    var cwRegions := ResolveSpec(spec, active);
    if !IsAll(spec) {
      cwRegions := ValidateLenient(cwRegions, active);
    }
    var logGroups := FetchPhase(cwRegions, listing);
    var results := MutatePhase(logGroups, putOk, days);
    report := Render(|cwRegions|, results);
    assert cwRegions == Selected(spec, active);
    assert forall r :: r in cwRegions <==> r in logGroups.vals;
    assert forall r :: r in logGroups.vals <==> r in results.vals;
    DedupProperties(cwRegions);
    forall i | 0 <= i < |report.rows|
      ensures report.rows[i].region == Dedup(cwRegions)[i]
      ensures var r := report.rows[i].region;
        var o := Outcomes(putOk, r, |Collected(listing(r))|);
        && report.rows[i].success == multiset(o)[true]
        && report.rows[i].failed == multiset(o)[false]
        && report.rows[i].success + report.rows[i].failed == |Collected(listing(r))|
    {
      var r := report.rows[i].region;
      assert r in logGroups.vals;
      assert logGroups.vals[r] == Collected(listing(r));
      TallyCounts(Outcomes(putOk, r, |Collected(listing(r))|));
    }
  }
}
