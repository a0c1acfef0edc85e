# CloudWatch log group manager: retention and encryption scripts in Dafny

The repository has two AWS Lambda scripts that act on the CloudWatch log groups of a set of regions.

- `src/retention.py` handles retention. It reads the region setting `AWS_REGIONS`, drops requested regions that are not active, and lists every log group of every region. Listing submits one task per region to a pool of at most 10 worker threads (`ThreadPoolExecutor(10)`), and each task follows the `nextToken` cursor. It then sets the retention period of each listed log group to `LOG_RETENTION_DAYS`, again one task per region on a pool of at most 10 workers, and counts the successful and failed calls. Finally it reports:
  - a "Regions processed" header;
  - one `region / success / failed` row per region.
- `src/encryption.py` parses `AWS_REGIONS` the same way. When `AWS_REGIONS` is "all" it takes the active list and checks nothing. Otherwise it checks the requested regions strictly and stops with exit status 1 when one of them is not active, unless that first inactive region is named "ok", which the code mistakes for its success marker (see "## Findings").

The model follows the scripts function by function:

| module | file | models |
|---|---|---|
| `Seqs` | seqs.dfy | list helpers: `list.remove` (first occurrence), subsequences, de-duplication in first-occurrence order |
| `Dicts` | dicts.dfy | insertion-ordered Python dicts, `d[k] = v`, the merge `{**a, **b}` and folds of single-key results |
| `Regions` | regions.dfy | `str.lower`, `str.split`, `str.strip` and the three-way parse of `AWS_REGIONS` |
| `LenientValidation` | lenient.dfy | retention.py's validation loop, which removes from the list it is iterating |
| `Pagination` | pagination.dfy | `fetch_all_log_groups` and its cursor loop |
| `Mutation` | mutation.dfy | `update_retention_period` and its counters |
| `Retention` | retention.dfy | retention.py's `main`: both phases, the merges and the report |
| `Encryption` | encryption.dfy | `validate_aws_regions` and encryption.py's `main` |

The parse of `AWS_REGIONS` at src/encryption.py:30-35 is character for character the one at src/retention.py:74-79. Both scripts therefore use the single model `Regions.ResolveSpec`.

## How AWS is modelled

Each AWS call becomes an input of the model:

- **`active: seq<Region>`** is the region list that `fetch_active_regions` returns. Both calls in retention.py (lines 75 and 82) read the same list.
- **`listing: Region -> seq<Response>`** gives, for each region, the answers to its successive `describe_log_groups` calls. A region named twice in `AWS_REGIONS` therefore gets the same answers in both of its listing tasks. Each answer is a page of names with an optional `nextToken`, or a `Failure` (a raised exception).
- **`putOk: (Region, int) -> bool`** tells whether the i-th `put_retention_policy` call in a region returns normally (true) or raises (false).

The threads become loops that run the submitted jobs in submission order. The merge loops fold each job's single-key dict in that same order.

Every task result is keyed by its own region, and in the model it depends only on that region, because `listing` answers every task of a region alike. Under that assumption the merged mapping is the same for every completion order (`Dicts.PutAllOrderFree`). For distinct regions the assumption is no restriction, since each region has one task. Only the order of the keys depends on completion order, and with it the order of the report rows. The model puts the rows in order of first occurrence of each region.

## Where the specification and the code differ

The model follows the code in each of these cases:

- The validation loop in retention.py does not simply drop every inactive region. It removes from the list it is iterating over, so the region right after a removed one is never examined. That region survives even when it is inactive (`LenientValidation.AdjacentInvalidSurvives`, `LenientValidation.SkipExample`). The model keeps this behaviour. When the requested regions are distinct and no two inactive ones are neighbours, the loop does what is intended (`LenientValidation.SweepFiltersWhenSpread`).
- Each script has a fixed validation mode: lenient in retention.py, strict in encryption.py. Nothing switches between them.
- encryption.py as written stops after validation. It has no table of log groups to encrypt and no key association, so the model has none either.
- The header counts `cwRegions` after validation, duplicates included. The table has one row per distinct region. The two numbers differ exactly when a region is named twice (`Retention.Run`).

## Model

| member | source | states |
|---|---|---|
| `Regions.ResolveSpec` | src/retention.py:74-79 | "all" in any case gives the active list. A value with a comma gives one stripped piece per comma-separated field: count of commas + 1 pieces, none containing a comma, none with whitespace at its ends. Anything else is the one-element list of the value itself. |
| `Regions.IsAllSpellings` | src/retention.py:74 | The "all" test accepts exactly the eight letter-case spellings of "all", and nothing else. |
| `Regions.Split` | src/retention.py:77 | `split(',')` gives one more piece than there are separators. No piece contains the separator, and joining the pieces with it gives back the input. |
| `Regions.SplitJoin` | src/retention.py:77 | Splitting a join of separator-free pieces gives those pieces back, so the split is the only way to cut the value at its commas. |
| `Regions.StripLeft` | src/retention.py:77 | The result is the suffix that remains after every leading whitespace character, and it does not start with whitespace. |
| `Regions.StripRight` | src/retention.py:77 | The result is the prefix before every trailing whitespace character, and it does not end with whitespace. |
| `Regions.StripFixpoint` | src/retention.py:77 | `strip()` leaves a string unchanged exactly when it is empty or has no whitespace at either end. |
| `Regions.StripIdempotent` | src/retention.py:77 | Stripping twice is the same as stripping once. |
| `Regions.Strip` | src/retention.py:77 | The result is the infix of the input left after cutting off only whitespace at both ends, and it neither starts nor ends with whitespace. |
| `Regions.StripAll` | src/retention.py:77 | One result per piece, in order. Each is the infix of its own piece with only whitespace cut off at either end, and has no whitespace at either end. |
| `Seqs.RemoveFirstDeletesFirst` | src/retention.py:86 | `list.remove(x)` deletes the first occurrence of `x`: the elements before it, none of which is `x`, and the elements after it stay in place and in order. |
| `Seqs.RemoveFirstMultiset` | src/retention.py:86 | `list.remove(x)` takes away exactly one occurrence of `x` and leaves every other element as it was (a multiset difference). |
| `Seqs.FirstIndex` | src/retention.py:86 | The position `list.remove` acts on holds `x`, and no earlier position does. |
| `Seqs.DedupProperties` | src/retention.py:92-94 | The distinct regions in first-occurrence order: no repeats, the same elements, never longer, and as long as the input exactly when the input has no repeats. The regions appear in the order of their first occurrences in the input. |
| `LenientValidation.ValidateLenient` | src/retention.py:81-86 | The loop computes the iterator model `Sweep` of the parsed list. |
| `LenientValidation.SweepRemovesOnlyInvalid` | src/retention.py:83-86 | Validation only removes inactive regions. Every active region keeps all its occurrences, nothing is added, and the survivors are a subsequence of the input in input order. |
| `LenientValidation.ActiveRegionsSurvive` | src/retention.py:83-86 | A requested active region is still present after validation. |
| `LenientValidation.ActiveOnly` | src/retention.py:81-86 | The intended filter: exactly the requested regions that are active. |
| `LenientValidation.SweepFiltersWhenSpread` | src/retention.py:83-86 | For distinct regions with no two neighbouring inactive ones, the loop keeps exactly the active regions in order (both directions of membership). |
| `LenientValidation.SweepSkipsNext` | src/retention.py:83-86 | After an inactive region is removed, the next region is never examined and survives. |
| `LenientValidation.AdjacentInvalidSurvives` | src/retention.py:83-86 | After only active regions, two adjacent inactive regions leave the second in the result, which then differs from the intended filter. |
| `LenientValidation.SkipExample` | src/retention.py:83-86 | `"eu-x,eu-y"` with neither active validates to `["eu-y"]`. |
| `Pagination.FirstStop` | src/retention.py:30-39 | The call on which the loop ends is the first one that raises or returns no `nextToken`. |
| `Pagination.CollectedUpToStop` | src/retention.py:28-46 | The returned names are the concatenated pages up to and including the first page without `nextToken`. After a failure at call k they are the pages before k, and nothing when the first call fails. |
| `Pagination.RequestArgsShape` | src/retention.py:26-37 | The first call has no `nextToken` argument, and each later call carries the `nextToken` of the page before it. |
| `Pagination.FetchAllLogGroups` | src/retention.py:24-46 | The loop returns `{region: Collected(responses)}`. It makes one call per response up to the stop. The first call carries no token, and each later call carries the previous page's `nextToken`. |
| `Mutation.TallyCounts` | src/retention.py:49-67 | `success` is the number of put calls that succeeded and `failed` the number that raised. Together they equal the number of log groups. |
| `Mutation.TallyMonotone` | src/retention.py:49-67 | Starting from zero, the counters never decrease as the loop goes on. |
| `Mutation.UpdateRetentionPeriod` | src/retention.py:48-71 | The loop returns `{region: Tally(outcomes)}`. It makes one put call per log group, in list order, each with the configured days, and goes on after a failure. |
| `Dicts.Put` | src/retention.py:94 | Assigning a key: the mapping gets the new value, a new key goes to the end, and an existing key keeps its place. |
| `Dicts.UnionSingle` | src/retention.py:94 | Merging a single-key task result with `{**a, **b}` is assigning that one key. |
| `Dicts.UnionContents` | src/retention.py:94 | `{**a, **b}` maps b's keys to b's values and a's other keys to a's values, and a's keys form a prefix of the result, in their old order. |
| `Dicts.PutAllContents` | src/retention.py:92-94 | Folding the single-key results gives one entry per distinct region, in order of first occurrence, each with its own value. |
| `Dicts.PutAllOrderFree` | src/retention.py:93-94 | Two arrival orders of the same results merge to the same mapping with the same number of keys. |
| `Dicts.MergeResults` | src/retention.py:92-102 | Both merge loops: each task result holds one entry, and merging them in order gives one entry per distinct key, in order of first occurrence, each with its own value. |
| `Retention.FetchPhase` | src/retention.py:89-94 | Phase 1's merged dict has the distinct requested regions as keys, in first-occurrence order, each mapped to the log groups listed in it. |
| `Retention.MutatePhase` | src/retention.py:97-102 | Phase 2's merged dict has exactly phase 1's keys, in the same order, each with the tally of its own log groups' put outcomes. |
| `Retention.Render` | src/retention.py:104-112 | Every region of the merged result appears in exactly one row, zero counts included, and no other region appears. Each row carries that region's own success and failed counts, the rows follow the key order of the result, and the header holds the number given. |
| `Retention.Run` | src/retention.py:73-112 | The header is the length of the validated list. Every validated region has a row and no other region does, one row per distinct region, so fewer rows exactly when a region repeats. Each row's success and failed are the counts of succeeded and raised put calls, and they add up to the number of log groups listed in that region. |
| `Encryption.FirstInvalid` | src/encryption.py:20-27 | Ok exactly when every region is active. Otherwise the result is the first region, in list order, that is not active. |
| `Encryption.ValidateAwsRegions` | src/encryption.py:20-27 | The early-return loop computes `FirstInvalid`. |
| `Encryption.Run` | src/encryption.py:29-41 | "all" goes on with the active list and no check. Otherwise the run exits exactly when some parsed region is inactive, with status 1 and the first such region; if it goes on, every parsed region is active. |
| `Encryption.AsWrittenAlsoAccepts` | src/encryption.py:37-41 | The string test `!= 'ok'` lets a run through exactly when the check succeeds or the first inactive region is named "ok". |
| `Encryption.SentinelCollision` | src/encryption.py:20-41 | With `AWS_REGIONS=ok` and no active region "ok", the code as written goes on, although the strict check fails. |

## Left out

- AWS calls (`describe_regions`, `describe_log_groups`, `put_retention_policy`) and client creation become inputs of the model (`active`, `listing`, `putOk`). A failure of `fetch_active_regions` itself, which ends the script, is not modelled.
- Environment variables become parameters: `spec` for `AWS_REGIONS` and `days` for `LOG_RETENTION_DAYS`. The crash when neither `AWS_REGIONS` nor `AWS_REGION` is set, and the `int()` conversion of `LOG_RETENTION_DAYS`, are left out.
- Thread pools and `as_completed`: tasks run one after another in submission order. When the requested regions are distinct, completion order only changes the key order of the merged dicts and so the row order of the report, which the model does not cover. `Dicts.PutAllOrderFree` shows that the mapping itself is the same for any order.
- Logging and `print` output are left out. `exit(1)` is modelled as the returned `Encryption.Outcome.Exit` and not as ending the process.
- The call `handler(None, None)` that runs when encryption.py is imported is not modelled, and neither is the `handler` entry point of either script.
- `Regions.Lower`: only ASCII letters are lower-cased. This is enough for the "all" test. No non-ASCII character lower-cases to 'a' or 'l', but a general non-ASCII `lower()` (which can change length) is not modelled.
- `Regions.IsSpace`: `strip()` is modelled for ASCII whitespace only (space, 9-13, 28-31). Python also strips Unicode whitespace.
- `Pagination.FetchAllLogGroups`: requires that the provider eventually raises or returns a page without `nextToken`. A provider that always sends a cursor makes the source loop forever, and is excluded.
- `Pagination.FetchAllLogGroups`: a failure to create the client (src/retention.py:29) is treated like a failure of the first call, which it is in effect.
- `Mutation.UpdateRetentionPeriod`: client creation at src/retention.py:54 is outside the `try`. If it raises, `f.result()` at line 102 re-raises and the script stops. The model assumes client creation succeeds.
- `Retention.FetchPhase`: assumes that every listing task of the same region gets the same answers, because `listing` is a function of the region. In the source a region named twice is listed twice (src/retention.py:90), and the result that completes later overwrites the earlier one (lines 93-94). So a duplicate whose listing fails late, for example because it is throttled, can leave that region with an empty list. The model does not capture this.
- `Retention.Run`: an exception escaping a worker propagates through `f.result()` and ends the run. The model has no such path, because every listing failure is caught inside the worker (lines 41-42).

## Findings

| source | as written | input that shows it | evidently intended | confidence | as-written member | corrected member |
|---|---|---|---|---|---|---|
| src/encryption.py:27 | `validate_aws_regions` returns the invalid region itself, or the string `'ok'` when all regions are active. `main` aborts only when the returned string differs from `'ok'`. | `AWS_REGIONS=ok`, where "ok" is not an active region: the function returns "ok" as the invalid region, and the run goes on. | Abort with status 1 whenever a requested region is not active. | medium, not executed | `Encryption.SentinelCollision` | `Encryption.Run` |
