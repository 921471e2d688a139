# Milestone reconciliation model

A Dafny model of the query component of a tool that copies issue-tracker
milestones between repositories. The *list* phase snapshots every milestone and
every milestoned issue or pull request. The *update* phase replays the milestone
snapshot against a target repository, creating the milestones that are missing.
It then replays the issue snapshot and re-applies each issue's milestone. The
target milestone is found either by its number (search-by-number mode) or by its
title (title-matching mode).

Remote calls are oracles. A request's transport result is `Responded(status)`,
`ConnectionError` or `Timeout`. A listing is a sequence of page replies, each
carrying its items and whether a `next` link is present. Batch operations take
one transport result per record, used only when the code issues that call.

Modules:

- `HttpCall`: how `run_get`, `run_post` and `run_patch` classify a transport result.
  The transport results modelled are a status code and the two exceptions the
  primitives catch besides `HTTPError`: a connection error and a timeout. For
  these, the outcomes are success, quiet absence (a 404 under `exist_check`), a
  logged failure returning `None`, or `SystemExit` under `throw_exception`.
- `Records`: the snapshot records and the API objects they come from.
- `Pagination`: the loop shared by `list_milestones` and `list_issues` (a method),
  and its reference definition `Listing`.
- `Resolver`: `adjust_milestone_number`, two first-match scans.
- `Creator`: `create_milestones`, with a payload, a skip decision and a counter.
- `Applier`: `apply_milestones`, with resolution, the update requests and a counter.

Behaviours of the code worth noting:

- A page request that fails makes `run_get` return `None`. The next line,
  `response.json()`, then raises an uncaught error, so the listing crashes
  (`Crashed`) instead of logging and continuing.
- `raise_for_status` only raises for status codes 400 to 599. Any other code,
  such as a 3xx, counts as success.
- An existence probe that fails with anything other than 404 also yields `None`.
  The record is then created, exactly as if the probe had said "absent".
- When title resolution finds nothing, the update request is still sent, with a
  null milestone. `Applier.UnresolvedStillPatched` states this fall-through.

## Model

| member | source | states |
|---|---|---|
| HttpCall.RunGet | util/github_query.py:132-149 | a response is returned exactly for a transport answer whose status is not a 4xx/5xx code; quiet `None` exactly for a 404 under `exist_check`; abort exactly when `throw_exception` is set and the request raised |
| HttpCall.RunWrite | util/github_query.py:151-185 | `run_post`/`run_patch` return the body exactly for a non-error status, never answer "absent", and abort only under `throw_exception` |
| HttpCall.ExistCheckOnlyReclassifies404 | util/github_query.py:138-140 | `exist_check` changes only the handling of a 404; without it a 404 is an ordinary failure |
| HttpCall.GetAndWriteAgree | util/github_query.py:132-185 | without an existence check, the read and write primitives classify every transport answer alike |
| HttpCall.DefaultModeNeverAborts | util/github_query.py:147-149 | with `throw_exception` off, no call aborts; a write either succeeds or fails with `None` |
| Pagination.StopIndexFrom | util/github_query.py:13-26 | the loop stops at the first page that failed or lacks a `next` link; every earlier page was fetched and had one |
| Pagination.Paginate | util/github_query.py:9-27 | the pagination loop yields exactly the reference listing: one request per page up to the first ending page, items mapped in order, a crash if that request failed |
| Pagination.ListMilestones | util/github_query.py:7-27 | one milestone record per listed item, in order, carrying the item's number, title, state, description, open and closed counts and due date; request count and crash condition as above |
| Pagination.ListIssues | util/github_query.py:39-59 | one issue record per listed item, in order, with the item's number, its milestone's number, its title, and kind `PR` exactly when the item has a `pull_request` key |
| Pagination.PageItemsInOrder | util/github_query.py:16-23 | the items of page p appear in the result right after those of all earlier pages, in their own order |
| Pagination.AllPagesListed | util/github_query.py:13-27 | N fetched pages, all but the last with a `next` link: exactly N requests, and the result is the concatenation of all N pages |
| Pagination.LaterPagesIgnored | util/github_query.py:24-26 | appending further pages after the first one without a `next` link changes neither the records nor the number of requests |
| Pagination.ExtractionScenario | util/github_query.py:7-59 | two milestones and one milestoned issue on single pages give two milestone rows and the row (42, 1, title, Issue) |
| Resolver.FirstNumberedFrom | util/github_query.py:115-120 | the snapshot scan returns the first record with the number, or reports that no record has it |
| Resolver.FirstTitledFrom | util/github_query.py:121-126 | the live scan returns the first milestone whose title equals the search title, or reports that none does; a `None` search title matches nothing |
| Resolver.SearchTitle | util/github_query.py:113-120 | the search title is `None` exactly when no snapshot record has the number, and otherwise the title of the first one that has it |
| Resolver.AdjustMilestoneNumber | util/github_query.py:111-130 | `None` for a number missing from the snapshot; otherwise the number of the first live milestone titled like the first snapshot record with that number, or `None` when no live title matches |
| Resolver.ResolvedNumberIsLive | util/github_query.py:111-130 | a resolved number always belongs to a live milestone whose title is that of a snapshot record with the given number |
| Resolver.ResolveInSameRepository | util/github_query.py:111-130 | against the source repository itself, with unique titles, every snapshot number resolves to itself |
| Resolver.ResolveRenumbered | util/github_query.py:111-130 | snapshot [(1,"v1"),(2,"v2")] against live [(10,"v2"),(11,"v1")]: 2 resolves to 10, 1 to 11, and 3 to `None` |
| Creator.Payload | util/github_query.py:77-81 | the create payload always has `title` and `state`; it has `due_on` exactly when the due date is non-empty and `description` exactly when the description is non-empty, each with the record's value |
| Creator.PayloadRoundTrip | util/github_query.py:77-81 | reading the payload back, an absent key meaning empty, recovers the record's title, state, due date and description |
| Creator.CreateOne | util/github_query.py:64-85 | a probe is issued exactly in search-by-number mode; no create request is issued exactly when that probe returns a number; otherwise the record's payload is posted |
| Creator.CreateMilestones | util/github_query.py:61-86 | one step per record, in order, each being the loop body's work for that record; the counter equals the size of the set of records whose create request succeeded, so it is at most the number of records |
| Creator.CounterCountsCreated | util/github_query.py:63-86 | the counter, incremented once per successful create request, equals the number of records whose request succeeded |
| Creator.CreateSkipsFoundRecords | util/github_query.py:69-84 | for a given record (the probe being `get_milestone` with `exist_check`, modelled by `ProbeFinds`, which finds it exactly when `run_get` returns a response): probe iff search-by-number, skipped iff the probe finds the milestone, otherwise its payload is posted and counted iff the request did not raise |
| Creator.NoPostNoCount | util/github_query.py:82-84 | records for which no create request was issued add nothing to the counter |
| Creator.AllPostedAllCount | util/github_query.py:82-84 | when every record's create request succeeded, the counter equals the number of records |
| Creator.RerunCreatesNothing | util/github_query.py:69-74 | a re-run in search-by-number mode where every probe finds its milestone issues no create request and returns 0 |
| Creator.EveryRecordPosted | util/github_query.py:61-86 | outside search-by-number mode, when the server accepts every request, every record is created and counted |
| Applier.PatchAll | util/github_query.py:93-109 | one update request per issue, in order, sending the resolved milestone even when it is `None`; the counter plus the number of issues whose reply raised equals the number of issues |
| Applier.FailuresAreRaisingReplies | util/github_query.py:104-106 | with throw mode off, the failed update requests are exactly those whose reply raised, so successes and those replies account for every issue |
| Applier.ApplyMilestones | util/github_query.py:88-109 | in number mode no listing is fetched and each issue's number is sent unchanged; otherwise the live list is fetched once (a failed page aborts the batch) and each number is replaced by the resolver's answer against it; when the batch runs, the counter plus the issues whose reply raised equals the number of issues |
| Applier.UnresolvedStillPatched | util/github_query.py:96-104 | in title mode an issue whose milestone number is missing from the snapshot still gets an update request, with a null milestone |
| Applier.AppliedPlusFailed | util/github_query.py:104-106 | when every update request either succeeds or fails, the applied count plus the failed requests make up all issues |
| Applier.FiveIssuesTwoFailures | util/github_query.py:88-109 | five issues whose second and fourth update requests hit a connection error and a timeout: three are reported applied |

## Left out

- milestone.py: logging setup, argument and environment wiring, and reading and writing the snapshot files. The helpers it calls are not part of this model.
- The HTTP transport, headers and bearer token, URL formatting, and JSON decoding are left out. Their effect is the transport-result oracle. The `next` link's URL is reduced to a flag.
- Exceptions of the transport library other than `ConnectionError`, `Timeout` and `HTTPError` are not modelled. Examples are `TooManyRedirects`, `ChunkedEncodingError`, `ContentDecodingError` and `InvalidURL`. The primitives do not catch them, so in the code they end `create_milestones` or `apply_milestones` in the middle of the loop. The model has no transport result for them, and its batch results assume none occurs.
- All logging calls: they do not change behaviour. The model keeps which failures are logged, as `Failed` versus `Absent`.
- `SystemExit` under `throw_exception` is only a `CallOutcome` (`Aborted`). No caller enables it, so the batch operations always pass `false`.
- JSON null for a milestone's description or due date is modelled as the empty string. `len(None)` in `create_milestones` would raise, and the model does not represent that.
- Live milestone titles are strings and never null, so a `None` search title never matches.
- Items without a milestone never reach `list_issues`, because the `milestone=*` filter excludes them. The model gives every issue item a milestone object.
- A create or update response whose JSON body is `null` would not be counted. The model treats every successful response as non-`None`.
- Pagination.Paginate: a server that advertises a next page forever cannot be expressed as a finite oracle. The listing requires some page to end it.
- `search_by_number` is a boolean. `create_milestones` tests it by truthiness, but `apply_milestones` tests `is False`. The two tests agree only on booleans.
- JSON null for a due date is assumed to reach the snapshot as the empty string through the file round trip. That file round trip is not part of this model.
- A listing whose page items are not well-formed JSON objects, and the resulting decoding errors, are out of scope.
