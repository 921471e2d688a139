/**
 * `adjust_milestone_number`: translate a milestone number of the source snapshot
 * into the number the milestone of the same title has in the target repository.
 */
module Resolver {

  import opened Wrappers
  import opened Records

  /** `i` is the first record of `s` numbered `n`. */
  ghost predicate IsFirstNumbered(s: seq<MilestoneRecord>, n: int, i: int) {
    && 0 <= i < |s|
    && s[i].number == n
    && forall k | 0 <= k < i :: s[k].number != n
  }

  /** `j` is the first record of `s` titled `t`. */
  ghost predicate IsFirstTitled(s: seq<MilestoneRecord>, t: string, j: int) {
    && 0 <= j < |s|
    && s[j].title == t
    && forall k | 0 <= k < j :: s[k].title != t
  }

  /** The first loop: scan the snapshot from `i` for the number, stopping at the first hit. */
  function FirstNumberedFrom(s: seq<MilestoneRecord>, n: int, i: nat): (r: Option<nat>)
    requires i <= |s|
    ensures r.Some? ==> i <= r.value < |s| && s[r.value].number == n
    ensures r.Some? ==> forall k | i <= k < r.value :: s[k].number != n
    ensures r.None? ==> forall k | i <= k < |s| :: s[k].number != n
    decreases |s| - i
  {
    if i == |s| then None
    else if s[i].number == n then Some(i)
    else FirstNumberedFrom(s, n, i + 1)
  }

  /** The second loop: scan the live list from `i` for the search title, stopping at
      the first hit. The search title is `None` when the first loop found nothing,
      and `None` equals no title. */
  function FirstTitledFrom(s: seq<MilestoneRecord>, t: Option<string>, i: nat): (r: Option<nat>)
    requires i <= |s|
    ensures r.Some? ==> i <= r.value < |s| && t == Some(s[r.value].title)
    ensures r.Some? ==> forall k | i <= k < r.value :: t != Some(s[k].title)
    ensures r.None? ==> forall k | i <= k < |s| :: t != Some(s[k].title)
    decreases |s| - i
  {
    if i == |s| then None
    else if t == Some(s[i].title) then Some(i)
    else FirstTitledFrom(s, t, i + 1)
  }

  /** The title the first loop settles on. */
  function SearchTitle(n: int, snapshot: seq<MilestoneRecord>): (t: Option<string>)
    ensures t.None? <==> forall i | 0 <= i < |snapshot| :: snapshot[i].number != n
    ensures forall i | IsFirstNumbered(snapshot, n, i) :: t == Some(snapshot[i].title)
  {
    match FirstNumberedFrom(snapshot, n, 0)
    case None => None
    case Some(i) => Some(snapshot[i].title)
  }

  /** `adjust_milestone_number(n, snapshot, live)`. The three cases below cover
      every input, so they determine the result: a number missing from the
      snapshot gives `None`; otherwise the first snapshot record numbered `n`
      fixes a title, and the result is the number of the first live milestone
      with that title, or `None` when there is none. */
  function AdjustMilestoneNumber(n: int, snapshot: seq<MilestoneRecord>, live: seq<MilestoneRecord>): (r: Option<int>)
    ensures (forall i | 0 <= i < |snapshot| :: snapshot[i].number != n) ==> r == None
    ensures forall i, j | IsFirstNumbered(snapshot, n, i) && IsFirstTitled(live, snapshot[i].title, j) ::
              r == Some(live[j].number)
    ensures forall i | IsFirstNumbered(snapshot, n, i) ::
              (forall j | 0 <= j < |live| :: live[j].title != snapshot[i].title) ==> r == None
  {
    match FirstTitledFrom(live, SearchTitle(n, snapshot), 0)
    case None => None
    case Some(j) => Some(live[j].number)
  }

  /** A result is always the number of some live milestone carrying the title of
      some snapshot record numbered `n`. */
  lemma ResolvedNumberIsLive(n: int, snapshot: seq<MilestoneRecord>, live: seq<MilestoneRecord>)
    ensures AdjustMilestoneNumber(n, snapshot, live).Some? ==>
      exists i, j | 0 <= i < |snapshot| && 0 <= j < |live| ::
        && snapshot[i].number == n
        && live[j].title == snapshot[i].title
        && AdjustMilestoneNumber(n, snapshot, live) == Some(live[j].number)
  {
    var fi := FirstNumberedFrom(snapshot, n, 0);
    if fi.Some? {
      var i := fi.value;
      var fj := FirstTitledFrom(live, Some(snapshot[i].title), 0);
      if fj.Some? {
        var j := fj.value;
        assert live[j].title == snapshot[i].title;
      }
    }
  }

  /** Replaying against the source repository itself: when titles are unique, every
      number of the snapshot resolves to itself. */
  lemma ResolveInSameRepository(s: seq<MilestoneRecord>, n: int, i: nat)
    requires forall a, b | 0 <= a < b < |s| :: s[a].title != s[b].title
    requires i < |s| && s[i].number == n
    ensures AdjustMilestoneNumber(n, s, s) == Some(n)
  {
    var first := FirstNumberedFrom(s, n, 0).value;
    assert IsFirstNumbered(s, n, first);
    assert IsFirstTitled(s, s[first].title, first);
  }

  /** Milestones renumbered in the target are found by title: snapshot
      [(1, "v1"), (2, "v2")] against live [(10, "v2"), (11, "v1")]. */
  lemma ResolveRenumbered()
    ensures
      var snapshot := [MilestoneRecord(1, "v1", Open, "", 0, 0, ""), MilestoneRecord(2, "v2", Open, "", 0, 0, "")];
      var live := [MilestoneRecord(10, "v2", Open, "", 0, 0, ""), MilestoneRecord(11, "v1", Open, "", 0, 0, "")];
      && AdjustMilestoneNumber(2, snapshot, live) == Some(10)
      && AdjustMilestoneNumber(1, snapshot, live) == Some(11)
      && AdjustMilestoneNumber(3, snapshot, live) == None
  {
  }
}
