/**
 * Listing every log group of one region (retention.py, fetch_all_log_groups).
 * The describe_log_groups calls are replaced by the sequence of responses the
 * provider gives to successive calls; a call that raises is a Failure.
 */
module Pagination {
  import opened Regions
  import opened Dicts

  type LogGroup = string
  type Token = string

  datatype Option<T> = None | Some(value: T)

  /** What one describe_log_groups call produces: a page of names, or an exception. */
  datatype Response = Page(names: seq<LogGroup>, nextToken: Option<Token>) | Failure

  /** A response after which the loop stops: an exception, or a page without nextToken. */
  predicate Stops(r: Response) {
    r.Failure? || r.nextToken.None?
  }

  /** The provider eventually fails or omits the cursor; otherwise the loop never ends. */
  predicate Terminates(rs: seq<Response>) {
    exists k :: 0 <= k < |rs| && Stops(rs[k])
  }

  /** The number of the call on which the loop stops. */
  function FirstStop(rs: seq<Response>): (k: nat)
    requires Terminates(rs)
    ensures k < |rs| && Stops(rs[k])
    ensures forall j :: 0 <= j < k ==> !Stops(rs[j])
  {
    if Stops(rs[0]) then 0
    else
      assert Terminates(rs[1..]) by {
        var k :| 0 <= k < |rs| && Stops(rs[k]);
        assert rs[1..][k - 1] == rs[k];
      }
      1 + FirstStop(rs[1..])
  }

  /** The names the loop has accumulated when it leaves, given the responses from here on. */
  function Collected(rs: seq<Response>): seq<LogGroup> {
    if rs == [] then []
    else match rs[0]
      case Failure => []
      case Page(names, None) => names
      case Page(names, Some(_)) => names + Collected(rs[1..])
  }

  /** Collected(rs[k..]), by position: the names gathered from call k on. */
  function CollectedFrom(rs: seq<Response>, k: nat): seq<LogGroup>
    decreases |rs| - k
  {
    if k >= |rs| then []
    else match rs[k]
      case Failure => []
      case Page(names, None) => names
      case Page(names, Some(_)) => names + CollectedFrom(rs, k + 1)
  }

  lemma {:induction false} CollectedFromSlice(rs: seq<Response>, k: nat)
    requires k <= |rs|
    ensures CollectedFrom(rs, k) == Collected(rs[k..])
    decreases |rs| - k
  {
    if k < |rs| {
      CollectedFromSlice(rs, k + 1);
      assert rs[k..][0] == rs[k];
      assert rs[k..][1..] == rs[k + 1..];
    }
  }

  /** The names on every page of rs, concatenated in order. */
  function AllNames(rs: seq<Response>): seq<LogGroup> {
    if rs == [] then []
    else (if rs[0].Page? then rs[0].names else []) + AllNames(rs[1..])
  }

  /**
   * Without a failure, the result is every page's names up to and including
   * the first page without nextToken; after a failure at call k it is the
   * names of the pages before k (nothing when the first call fails).
   */
  lemma {:induction false} CollectedUpToStop(rs: seq<Response>)
    requires Terminates(rs)
    ensures rs[FirstStop(rs)].Page? ==> Collected(rs) == AllNames(rs[..FirstStop(rs) + 1])
    ensures rs[FirstStop(rs)].Failure? ==> Collected(rs) == AllNames(rs[..FirstStop(rs)])
    ensures rs[0].Failure? ==> Collected(rs) == []
  {
    var k := FirstStop(rs);
    if k > 0 {
      CollectedUpToStop(rs[1..]);
      assert FirstStop(rs[1..]) == k - 1;
      assert rs[1..][..k] == rs[..k + 1][1..];
      assert rs[1..][..k - 1] == rs[..k][1..];
      assert rs[0].Page? && rs[0].nextToken.Some?;
    } else {
      assert rs[..1][1..] == [];
    }
  }

  /** The cursor a response hands to the next call (a failure hands on none). */
  function Cursor(r: Response): Option<Token> {
    if r.Page? then r.nextToken else None
  }

  /** The nextToken argument of call k: none on the first call, the previous page's cursor after that. */
  function RequestArg(rs: seq<Response>, k: nat): Option<Token>
    requires k <= |rs|
  {
    if k == 0 then None else Cursor(rs[k - 1])
  }

  /** The arguments of the first n calls. */
  function RequestArgs(rs: seq<Response>, n: nat): seq<Option<Token>>
    requires n <= |rs|
  {
    if n == 0 then [] else RequestArgs(rs, n - 1) + [RequestArg(rs, n - 1)]
  }

  /** The first call has no cursor and each later call carries the cursor of the page before it. */
  lemma {:induction false} RequestArgsShape(rs: seq<Response>, n: nat)
    requires n <= |rs|
    ensures |RequestArgs(rs, n)| == n
    ensures n > 0 ==> RequestArgs(rs, n)[0] == None
    ensures forall j :: 0 < j < n ==> RequestArgs(rs, n)[j] == Cursor(rs[j - 1])
  {
    if n > 0 {
      RequestArgsShape(rs, n - 1);
    }
  }

  /**
   * The pagination loop. The loop sends the token of the previous page with
   * each request; `requests` records what each describe_log_groups call was
   * given (None for the first, which has no nextToken argument).
   */
  method FetchAllLogGroups(region: Region, responses: seq<Response>)
    returns (result: Dict<Region, seq<LogGroup>>, requests: seq<Option<Token>>)
    requires Terminates(responses)
    ensures result == Single(region, Collected(responses))
    ensures |requests| == FirstStop(responses) + 1
    ensures requests[0] == None
    ensures forall j :: 0 < j < |requests| ==> requests[j] == responses[j - 1].nextToken
  {
    var logGroups: seq<LogGroup> := [];
    var reqArg: Option<Token> := None;
    requests := [];
    var k := 0;
    ghost var stop := FirstStop(responses);
    while true
      invariant 0 <= k <= stop
      invariant logGroups + CollectedFrom(responses, k) == CollectedFrom(responses, 0)
      invariant requests == RequestArgs(responses, k)
      invariant reqArg == RequestArg(responses, k)
      decreases stop - k
    {
      requests := requests + [reqArg];
      var resp := responses[k];
      if resp.Failure? {
        assert logGroups + [] == logGroups;
        break;
      }
      ghost var before := logGroups;
      logGroups := logGroups + resp.names;
      if resp.nextToken.Some? {
        assert logGroups + CollectedFrom(responses, k + 1) == before + (resp.names + CollectedFrom(responses, k + 1));
        reqArg := resp.nextToken;
        k := k + 1;
      } else {
        break;
      }
    }
    RequestArgsShape(responses, k + 1);
    CollectedFromSlice(responses, 0);
    assert responses[0..] == responses;
    result := Single(region, logGroups);
  }
}
