/**
 * The paginated listings `list_milestones` and `list_issues`.
 *
 * The server is an oracle: the i-th page request is answered by `pages[i]`. The
 * `next` link is abstracted to a flag; its URL only names the following request.
 * A page request that fails makes `run_get` return `None`, and the subsequent
 * `response.json()` raises an uncaught `AttributeError`: the listing crashes.
 */
module Pagination {

  import opened HttpCall
  import opened Records

  /** The answer to one page request. */
  datatype PageReply<T> = PageReply(transport: Transport, items: seq<T>, hasNext: bool)

  /** The end of a listing: the collected records, or the crash on a failed page;
      either way, how many pages were requested. */
  datatype ListOutcome<U> = Listed(data: seq<U>, fetches: nat) | Crashed(fetches: nat)

  /** `run_get` without existence check or throw mode hands back a response. */
  predicate Fetched<T>(p: PageReply<T>) {
    RunGet(p.transport, false, false).Succeeded?
  }

  /** The loop does not go past this page: it crashes on it, or the page has no `next` link. */
  predicate Ends<T>(p: PageReply<T>) {
    !Fetched(p) || !p.hasNext
  }

  /** Some page ends the listing (a server that always advertises a next page never does). */
  predicate Stops<T>(pages: seq<PageReply<T>>) {
    exists i | 0 <= i < |pages| :: Ends(pages[i])
  }

  /** The items of the pages, in page order. */
  function Flatten<T>(pages: seq<PageReply<T>>): seq<T> {
    if |pages| == 0 then [] else Flatten(pages[..|pages| - 1]) + pages[|pages| - 1].items
  }

  function MapSeq<T, U>(f: T -> U, s: seq<T>): (r: seq<U>)
    ensures |r| == |s|
    ensures forall i | 0 <= i < |s| :: r[i] == f(s[i])
  {
    seq(|s|, i requires 0 <= i < |s| => f(s[i]))
  }

  /** The first page at or after `i` that ends the listing. */
  function StopIndexFrom<T>(pages: seq<PageReply<T>>, i: nat): (k: nat)
    requires i <= |pages|
    requires exists j | i <= j < |pages| :: Ends(pages[j])
    ensures i <= k < |pages| && Ends(pages[k])
    ensures forall j | i <= j < k :: !Ends(pages[j])
    decreases |pages| - i
  {
    if Ends(pages[i]) then i else StopIndexFrom(pages, i + 1)
  }

  function StopIndex<T>(pages: seq<PageReply<T>>): (k: nat)
    requires Stops(pages)
    ensures k < |pages| && Ends(pages[k])
    ensures forall j | 0 <= j < k :: !Ends(pages[j])
  {
    StopIndexFrom(pages, 0)
  }

  /** What a listing produces: the pages up to and including the first one that
      ends it are requested, once each and in order; the records are their items
      mapped by `f`, unless that last request failed. */
  function Listing<T, U>(pages: seq<PageReply<T>>, f: T -> U): ListOutcome<U>
    requires Stops(pages)
  {
    var k := StopIndex(pages);
    if Fetched(pages[k]) then Listed(MapSeq(f, Flatten(pages[..k + 1])), k + 1)
    else Crashed(k + 1)
  }

  /** The pagination loop shared by both listings. */
  method Paginate<T, U>(pages: seq<PageReply<T>>, f: T -> U) returns (r: ListOutcome<U>)
    requires Stops(pages)
    ensures r == Listing(pages, f)
  {
    ghost var k := StopIndex(pages);
    var data: seq<U> := [];
    var fetches := 0;
    var nextPage := true;
    while nextPage
      invariant 0 <= fetches <= k + 1
      invariant nextPage <==> fetches <= k
      invariant data == MapSeq(f, Flatten(pages[..fetches]))
      invariant !nextPage ==> Fetched(pages[k])
      decreases k + 1 - fetches
    {
      var reply := pages[fetches];
      if !Fetched(reply) {
        return Crashed(fetches + 1);
      }
      assert pages[..fetches + 1][..fetches] == pages[..fetches];
      ghost var before := Flatten(pages[..fetches]);
      var j := 0;
      while j < |reply.items|
        invariant 0 <= j <= |reply.items|
        invariant data == MapSeq(f, before + reply.items[..j])
      {
        assert (before + reply.items[..j + 1]) == (before + reply.items[..j]) + [reply.items[j]];
        data := data + [f(reply.items[j])];
        j := j + 1;
      }
      assert reply.items[..j] == reply.items;
      fetches := fetches + 1;
      nextPage := reply.hasNext;
    }
    return Listed(data, fetches);
  }

  /** `list_milestones`: every item becomes a seven-field milestone record. */
  method ListMilestones(pages: seq<PageReply<MilestoneItem>>) returns (r: ListOutcome<MilestoneRecord>)
    requires Stops(pages)
    ensures r.fetches == StopIndex(pages) + 1
    ensures r.Crashed? <==> !Fetched(pages[StopIndex(pages)])
    ensures r.Listed? ==>
      var items := Flatten(pages[..StopIndex(pages) + 1]);
      |r.data| == |items| &&
      forall j | 0 <= j < |items| ::
        && r.data[j].number == items[j].number
        && r.data[j].title == items[j].title
        && r.data[j].state == items[j].state
        && r.data[j].description == items[j].description
        && r.data[j].openIssues == items[j].openIssues
        && r.data[j].closedIssues == items[j].closedIssues
        && r.data[j].dueOn == items[j].dueOn
  {
    r := Paginate(pages, ToMilestoneRecord);
  }

  /** `list_issues`: every item becomes a four-field issue record whose kind is
      `PR` exactly when the item has a `pull_request` key. */
  method ListIssues(pages: seq<PageReply<IssueItem>>) returns (r: ListOutcome<IssueRecord>)
    requires Stops(pages)
    ensures r.fetches == StopIndex(pages) + 1
    ensures r.Crashed? <==> !Fetched(pages[StopIndex(pages)])
    ensures r.Listed? ==>
      var items := Flatten(pages[..StopIndex(pages) + 1]);
      |r.data| == |items| &&
      forall j | 0 <= j < |items| ::
        && r.data[j].number == items[j].number
        && r.data[j].milestone == items[j].milestone.number
        && r.data[j].title == items[j].title
        && (r.data[j].kind == PR <==> "pull_request" in items[j].keys)
  {
    r := Paginate(pages, ToIssueRecord);
  }

  /** The items of page `p` sit, in order, right after those of the pages before it. */
  lemma {:induction false} PageItemsInOrder<T>(pages: seq<PageReply<T>>, p: nat, j: nat)
    requires p < |pages| && j < |pages[p].items|
    ensures |Flatten(pages[..p])| + j < |Flatten(pages)|
    ensures Flatten(pages)[|Flatten(pages[..p])| + j] == pages[p].items[j]
    decreases |pages|
  {
    var last := |pages| - 1;
    var init := pages[..last];
    assert Flatten(pages) == Flatten(init) + pages[last].items;
    if p == last {
      assert pages[..p] == init;
    } else {
      assert init[..p] == pages[..p];
      PageItemsInOrder(init, p, j);
    }
  }

  /** N pages, each fetched successfully and all but the last advertising a next
      page: the listing makes exactly N requests and returns all their items. */
  lemma AllPagesListed<T, U>(pages: seq<PageReply<T>>, f: T -> U)
    requires |pages| > 0
    requires forall i | 0 <= i < |pages| :: Fetched(pages[i])
    requires forall i | 0 <= i < |pages| - 1 :: pages[i].hasNext
    requires !pages[|pages| - 1].hasNext
    ensures Stops(pages)
    ensures Listing(pages, f) == Listed(MapSeq(f, Flatten(pages)), |pages|)
  {
    assert Ends(pages[|pages| - 1]);
    assert pages[..StopIndex(pages) + 1] == pages;
  }

  /** Pages past the first one that ends the listing are never requested: they
      cannot change its outcome. */
  lemma LaterPagesIgnored<T, U>(pages: seq<PageReply<T>>, more: seq<PageReply<T>>, f: T -> U)
    requires Stops(pages)
    ensures Stops(pages + more)
    ensures Listing(pages + more, f) == Listing(pages, f)
  {
    var k := StopIndex(pages);
    assert (pages + more)[k] == pages[k];
    assert (pages + more)[..k + 1] == pages[..k + 1];
  }

  /** Extraction from a repository with milestones #1 "Sprint 1" (open) and #2
      "Sprint 2" (closed) and one issue #42 on milestone #1, each listed on one page:
      two milestone rows and the issue row (42, 1, title, Issue). */
  lemma ExtractionScenario()
    ensures
      var sprint1 := MilestoneItem(101, "u1", 1, "Sprint 1", Open, "", 1, 0, "");
      var sprint2 := MilestoneItem(102, "u2", 2, "Sprint 2", Closed, "", 0, 0, "");
      var issue := IssueItem(42, sprint1, "Fix login", {"number", "milestone", "title"});
      var milestonePages := [PageReply(Responded(200), [sprint1, sprint2], false)];
      var issuePages := [PageReply(Responded(200), [issue], false)];
      && Ends(milestonePages[0]) && Stops(milestonePages)
      && Ends(issuePages[0]) && Stops(issuePages)
      && Listing(milestonePages, ToMilestoneRecord)
         == Listed([MilestoneRecord(1, "Sprint 1", Open, "", 1, 0, ""),
                    MilestoneRecord(2, "Sprint 2", Closed, "", 0, 0, "")], 1)
      && Listing(issuePages, ToIssueRecord)
         == Listed([IssueRecord(42, 1, "Fix login", Issue)], 1)
  {
    var sprint1 := MilestoneItem(101, "u1", 1, "Sprint 1", Open, "", 1, 0, "");
    var sprint2 := MilestoneItem(102, "u2", 2, "Sprint 2", Closed, "", 0, 0, "");
    var issue := IssueItem(42, sprint1, "Fix login", {"number", "milestone", "title"});
    var milestonePages := [PageReply(Responded(200), [sprint1, sprint2], false)];
    var issuePages := [PageReply(Responded(200), [issue], false)];
    AllPagesListed(milestonePages, ToMilestoneRecord);
    AllPagesListed(issuePages, ToIssueRecord);
    assert Flatten(milestonePages) == [sprint1, sprint2] by { assert milestonePages[..0] == []; }
    assert Flatten(issuePages) == [issue] by { assert issuePages[..0] == []; }
  }
}
