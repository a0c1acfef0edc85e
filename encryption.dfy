/**
 * The encryption script's strict region check (encryption.py): parse
 * AWS_REGIONS exactly as the retention script does, then, unless it says
 * "all", look for the first requested region that is not active and stop the
 * run with exit status 1 if there is one.
 *
 * validate_aws_regions returns the offending region itself or the string
 * 'ok', and main compares that string with 'ok'. A requested region literally
 * named "ok" that is not active is therefore taken for success. The model
 * returns a Verdict instead, so that the two outcomes cannot be confused;
 * ProceedsAsWritten keeps the string comparison to show the difference.
 */
module Encryption {
  import opened Regions

  /** The result of the search: every region is active, or the first one that is not. */
  datatype Verdict = Ok | Invalid(region: Region)

  /** What main does: carry on with the parsed regions, or exit with a status. */
  datatype Outcome = Proceed(regions: seq<Region>) | Exit(status: int, region: Region)

  /** The first region of the list, in list order, that is not in the active list. */
  function FirstInvalid(regions: seq<Region>, active: seq<Region>): (v: Verdict)
    ensures v == Ok <==> forall i :: 0 <= i < |regions| ==> regions[i] in active
    ensures v.Invalid? ==>
      exists k :: 0 <= k < |regions| && regions[k] == v.region && v.region !in active &&
        forall j :: 0 <= j < k ==> regions[j] in active
  {
    if regions == [] then Ok
    else if regions[0] !in active then Invalid(regions[0])
    else
      var v := FirstInvalid(regions[1..], active);
      assert forall i :: 1 <= i < |regions| ==> regions[i] == regions[1..][i - 1];
      assert v.Invalid? ==>
        exists k :: 0 <= k < |regions| && regions[k] == v.region && v.region !in active &&
          forall j :: 0 <= j < k ==> regions[j] in active
      by {
        if v.Invalid? {
          var k :| 0 <= k < |regions[1..]| && regions[1..][k] == v.region && v.region !in active &&
            forall j :: 0 <= j < k ==> regions[1..][j] in active;
          assert regions[k + 1] == v.region;
          assert forall j :: 1 <= j < k + 1 ==> regions[j] in active;
        }
      }
      v
  }

  /** validate_aws_regions: a search loop that returns at the first inactive region. */
  method ValidateAwsRegions(regions: seq<Region>, active: seq<Region>) returns (v: Verdict)
    ensures v == FirstInvalid(regions, active)
  {
    for i := 0 to |regions|
      invariant FirstInvalid(regions[i..], active) == FirstInvalid(regions, active)
    {
      assert regions[i..][0] == regions[i];
      if regions[i] !in active {
        return Invalid(regions[i]);
      }
      assert regions[i..][1..] == regions[i + 1..];
    }
    assert regions[|regions|..] == [];
    return Ok;
  }

  /** The run goes on: "all", or every parsed region is active. */
  predicate Proceeds(spec: string, active: seq<Region>) {
    IsAll(spec) || FirstInvalid(ResolveSpec(spec, active), active).Ok?
  }

  /**
   * main: "all" skips validation and uses the active list; any other setting
   * is parsed and then aborts with status 1 at its first inactive region
   * before anything else is done.
   */
  method Run(spec: string, active: seq<Region>) returns (outcome: Outcome)
    ensures IsAll(spec) ==> outcome == Proceed(active)
    ensures !IsAll(spec) ==>
      (outcome.Exit? <==> exists i :: 0 <= i < |ResolveSpec(spec, active)| && ResolveSpec(spec, active)[i] !in active)
    ensures outcome.Proceed? <==> Proceeds(spec, active)
    ensures outcome.Proceed? ==> outcome.regions == ResolveSpec(spec, active)
    ensures outcome.Proceed? ==> forall r :: r in outcome.regions ==> r in active
    ensures outcome.Exit? ==>
      && outcome.status == 1
      && outcome.region in ResolveSpec(spec, active)
      && outcome.region !in active
      && FirstInvalid(ResolveSpec(spec, active), active) == Invalid(outcome.region)
  {
    var cwRegions := ResolveSpec(spec, active);
    if !IsAll(spec) {
      var verdict := ValidateAwsRegions(cwRegions, active);
      if verdict.Invalid? {
        return Exit(1, verdict.region);
      }
    }
    return Proceed(cwRegions);
  }

  /** The string validate_aws_regions actually returns for a verdict. */
  function Sentinel(v: Verdict): string {
    match v
    case Ok => "ok"
    case Invalid(r) => r
  }

  /** main's test as written: `validate_aws_regions(cwRegions) != 'ok'` aborts. */
  predicate ProceedsAsWritten(spec: string, active: seq<Region>) {
    IsAll(spec) || Sentinel(FirstInvalid(ResolveSpec(spec, active), active)) == "ok"
  }

  /** The string test lets a run through exactly when the verdict is Ok or the first invalid region is named "ok". */
  lemma AsWrittenAlsoAccepts(spec: string, active: seq<Region>)
    ensures ProceedsAsWritten(spec, active) <==>
      Proceeds(spec, active) || FirstInvalid(ResolveSpec(spec, active), active) == Invalid("ok")
  {
  }

  /** AWS_REGIONS=ok with no region "ok" active: the run goes on although its only region is invalid. */
  lemma SentinelCollision(active: seq<Region>)
    requires "ok" !in active
    ensures ResolveSpec("ok", active) == ["ok"]
    ensures ProceedsAsWritten("ok", active)
    ensures !Proceeds("ok", active)
  {
    assert Lower("ok") == "ok" by {
      assert "ok"[1..][1..] == [];
    }
    assert ',' !in "ok";
    var regions := ResolveSpec("ok", active);
    assert regions[1..] == [];
  }
}
