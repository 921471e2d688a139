/**
 * `apply_milestones`: replay the issue snapshot, setting each issue's milestone.
 *
 * In title-matching mode the live milestone list is fetched once, before the loop,
 * through the same pagination as `list_milestones`. `patches[i]` answers the
 * update request for issue `i`.
 */
module Applier {

  import opened Wrappers
  import opened HttpCall
  import opened Records
  import opened Pagination
  import opened Resolver

  /** How an issue's recorded milestone number is turned into the one sent. */
  datatype Resolution = KeepNumber | MatchTitle(snapshot: seq<MilestoneRecord>, live: seq<MilestoneRecord>)

  function Resolve(res: Resolution, n: int): Option<int> {
    match res
    case KeepNumber => Some(n)
    case MatchTitle(snapshot, live) => AdjustMilestoneNumber(n, snapshot, live)
  }

  /** One update request: the issue, the milestone value sent (`None` is sent as
      JSON null) and how the request ended. */
  datatype PatchStep = PatchStep(issue: int, milestone: Option<int>, outcome: CallOutcome)

  datatype ApplyReport =
    | Applied(applied: nat, patches: seq<PatchStep>, listFetches: nat)
    | ListingCrashed(listFetches: nat)

  /** How many update requests succeeded. */
  function CountApplied(patches: seq<PatchStep>): nat {
    if |patches| == 0 then 0
    else CountApplied(patches[..|patches| - 1]) + (if patches[|patches| - 1].outcome.Succeeded? then 1 else 0)
  }

  /** The loop's result: the counter and the update requests issued. */
  datatype PatchReport = PatchReport(applied: nat, patches: seq<PatchStep>)

  /** The issues whose update request raises one of the caught exceptions. */
  function FailedIndices(replies: seq<Transport>): set<int> {
    set i | 0 <= i < |replies| && Raises(replies[i])
  }

  /** With throw mode off, the failed update requests are exactly those whose
      reply raised, so the counter and those replies account for every issue. */
  lemma FailuresAreRaisingReplies(patches: seq<PatchStep>, replies: seq<Transport>)
    requires |patches| == |replies|
    requires forall i | 0 <= i < |patches| :: patches[i].outcome == RunWrite(replies[i], false)
    ensures CountApplied(patches) + |FailedIndices(replies)| == |patches|
  {
    AppliedPlusFailed(patches);
    assert (set i | 0 <= i < |patches| && patches[i].outcome == Failed) == FailedIndices(replies);
  }

  /** The loop of `apply_milestones`: an update request for every issue, in order,
      even when resolution gave `None`; the counter is the number that succeeded,
      so together with the failed requests it accounts for every issue. */
  function PatchAll(issues: seq<IssueRecord>, res: Resolution, replies: seq<Transport>): (r: PatchReport)
    requires |replies| == |issues|
    ensures |r.patches| == |issues|
    ensures forall i | 0 <= i < |issues| ::
              r.patches[i] == PatchStep(issues[i].number, Resolve(res, issues[i].milestone), RunWrite(replies[i], false))
    ensures r.applied == CountApplied(r.patches)
    ensures r.applied + |FailedIndices(replies)| == |issues|
    ensures r.applied <= |issues|
    decreases |issues|
  {
    if |issues| == 0 then PatchReport(0, [])
    else
      var last := |issues| - 1;
      var before := PatchAll(issues[..last], res, replies[..last]);
      var issue := issues[last];
      var step := PatchStep(issue.number, Resolve(res, issue.milestone), RunWrite(replies[last], false));
      var patches := before.patches + [step];
      assert patches[..last] == before.patches;
      FailuresAreRaisingReplies(patches, replies);
      PatchReport(before.applied + (if step.outcome.Succeeded? then 1 else 0), patches)
  }

  /** `apply_milestones(endpoint, token, issues, milestone, search_by_number)`. */
  function ApplyMilestones(issues: seq<IssueRecord>, snapshot: seq<MilestoneRecord>, searchByNumber: bool,
                           livePages: seq<PageReply<MilestoneItem>>, replies: seq<Transport>): (r: ApplyReport)
    requires |replies| == |issues|
    requires !searchByNumber ==> Stops(livePages)
    ensures r.Applied? ==> |r.patches| == |issues|
    ensures searchByNumber ==> r.Applied? && r.listFetches == 0
    ensures searchByNumber ==> forall i | 0 <= i < |issues| :: r.patches[i].milestone == Some(issues[i].milestone)
    ensures !searchByNumber ==> r.listFetches == StopIndex(livePages) + 1
    ensures !searchByNumber ==> (r.ListingCrashed? <==> !Fetched(livePages[StopIndex(livePages)]))
    ensures !searchByNumber && r.Applied? ==>
              var live := Listing(livePages, ToMilestoneRecord).data;
              forall i | 0 <= i < |issues| ::
                r.patches[i].milestone == AdjustMilestoneNumber(issues[i].milestone, snapshot, live)
    ensures r.Applied? ==> forall i | 0 <= i < |issues| ::
              r.patches[i].issue == issues[i].number && r.patches[i].outcome == RunWrite(replies[i], false)
    ensures r.Applied? ==> r.applied == CountApplied(r.patches) <= |issues|
    ensures r.Applied? ==> r.applied + |FailedIndices(replies)| == |issues|
  {
    if searchByNumber then
      var report := PatchAll(issues, KeepNumber, replies);
      Applied(report.applied, report.patches, 0)
    else
      match Listing(livePages, ToMilestoneRecord)
      case Crashed(fetches) => ListingCrashed(fetches)
      case Listed(live, fetches) =>
        var report := PatchAll(issues, MatchTitle(snapshot, live), replies);
        Applied(report.applied, report.patches, fetches)
  }

  /** The fall-through: in title-matching mode an issue whose milestone number is
      missing from the snapshot is still updated, with a null milestone. */
  lemma UnresolvedStillPatched(issues: seq<IssueRecord>, snapshot: seq<MilestoneRecord>,
                               livePages: seq<PageReply<MilestoneItem>>, replies: seq<Transport>, i: nat)
    requires |replies| == |issues| && Stops(livePages)
    requires i < |issues|
    requires forall k | 0 <= k < |snapshot| :: snapshot[k].number != issues[i].milestone
    ensures var r := ApplyMilestones(issues, snapshot, false, livePages, replies);
      r.Applied? ==> r.patches[i] == PatchStep(issues[i].number, None, RunWrite(replies[i], false))
  {
  }

  /** In the default mode every update request either succeeds or fails: the
      successes counted plus the failures make up all the issues. */
  lemma {:induction false} AppliedPlusFailed(patches: seq<PatchStep>)
    requires forall i | 0 <= i < |patches| :: patches[i].outcome == Succeeded || patches[i].outcome == Failed
    ensures CountApplied(patches) + |set i | 0 <= i < |patches| && patches[i].outcome == Failed| == |patches|
  {
    if |patches| > 0 {
      var last := |patches| - 1;
      var init := patches[..last];
      AppliedPlusFailed(init);
      var failed := set i | 0 <= i < |patches| && patches[i].outcome == Failed;
      var failedInit := set i | 0 <= i < |init| && init[i].outcome == Failed;
      if patches[last].outcome == Failed {
        assert failed == failedInit + {last};
      } else {
        assert failed == failedInit;
      }
    }
  }

  /** Five issues whose second and fourth update requests hit a transport error:
      three are reported applied. */
  lemma FiveIssuesTwoFailures(issues: seq<IssueRecord>, snapshot: seq<MilestoneRecord>,
                              livePages: seq<PageReply<MilestoneItem>>)
    requires |issues| == 5
    ensures
      var replies := [Responded(200), ConnectionError, Responded(200), Timeout, Responded(200)];
      ApplyMilestones(issues, snapshot, true, livePages, replies).applied == 3
  {
    var replies := [Responded(200), ConnectionError, Responded(200), Timeout, Responded(200)];
    var patches := ApplyMilestones(issues, snapshot, true, livePages, replies).patches;
    assert patches[0].outcome == Succeeded && patches[1].outcome == Failed && patches[2].outcome == Succeeded;
    assert patches[3].outcome == Failed && patches[4].outcome == Succeeded;
    assert CountApplied(patches[..1]) == 1 by { assert patches[..1][..0] == []; }
    assert CountApplied(patches[..2]) == 1 by { assert patches[..2][..1] == patches[..1]; }
    assert CountApplied(patches[..3]) == 2 by { assert patches[..3][..2] == patches[..2]; }
    assert CountApplied(patches[..4]) == 2 by { assert patches[..4][..3] == patches[..3]; }
    assert patches[..5] == patches;
    assert patches[..5][..4] == patches[..4];
  }
}
