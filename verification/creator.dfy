/**
 * `create_milestones`: replay the milestone snapshot against the target repository.
 *
 * The remote calls are oracles aligned with the records: `probes[i]` answers the
 * existence probe for record `i` and `posts[i]` its create request; each is
 * consulted only when the code issues that call.
 */
module Creator {

  import opened Wrappers
  import opened HttpCall
  import opened Records

  /** The body of the create request, as the dict the code builds: title and state
      always, the due date and the description only when non-empty. */
  function Payload(m: MilestoneRecord): (p: map<string, string>)
    ensures p.Keys <= {"title", "state", "due_on", "description"}
    ensures "title" in p && p["title"] == m.title
    ensures "state" in p && p["state"] == StateName(m.state)
    ensures "due_on" in p <==> |m.dueOn| > 0
    ensures "description" in p <==> |m.description| > 0
    ensures "due_on" in p ==> p["due_on"] == m.dueOn
    ensures "description" in p ==> p["description"] == m.description
  {
    var base := map["title" := m.title, "state" := StateName(m.state)];
    var withDue := if |m.dueOn| > 0 then base["due_on" := m.dueOn] else base;
    if |m.description| > 0 then withDue["description" := m.description] else withDue
  }

  /** Reads a payload field back, an absent key standing for the empty string. */
  function FieldOr(p: map<string, string>, key: string): string {
    if key in p then p[key] else ""
  }

  /** Nothing the record sends is lost: the payload gives back its title, state,
      due date and description. */
  lemma PayloadRoundTrip(m: MilestoneRecord)
    ensures FieldOr(Payload(m), "title") == m.title
    ensures FieldOr(Payload(m), "state") == StateName(m.state)
    ensures FieldOr(Payload(m), "due_on") == m.dueOn
    ensures FieldOr(Payload(m), "description") == m.description
  {
  }

  /** One create request and how it ended. */
  datatype PostAttempt = PostAttempt(payload: map<string, string>, outcome: CallOutcome)

  /** What the loop did for one record: the existence probe, if issued, and the
      create request, if issued. */
  datatype CreateStep = CreateStep(probe: Option<CallOutcome>, post: Option<PostAttempt>)

  datatype CreateReport = CreateReport(created: nat, steps: seq<CreateStep>)

  /** `get_milestone(..., exist_check=True)` returns a number only when `run_get`
      hands back a response; a 404 and every failure give `None`. */
  predicate ProbeFinds(reply: Transport) {
    RunGet(reply, false, true).Succeeded?
  }

  predicate CreatedBy(step: CreateStep) {
    step.post.Some? && step.post.value.outcome.Succeeded?
  }

  /** How many steps issued a create request that succeeded. */
  function CountCreated(steps: seq<CreateStep>): nat {
    if |steps| == 0 then 0
    else CountCreated(steps[..|steps| - 1]) + (if CreatedBy(steps[|steps| - 1]) then 1 else 0)
  }

  /** One pass of the loop body: probe in search-by-number mode, skip when the
      probe finds the milestone, otherwise post the payload. */
  function CreateOne(m: MilestoneRecord, searchByNumber: bool, probe: Transport, post: Transport): (s: CreateStep)
    ensures s.probe == (if searchByNumber then Some(RunGet(probe, false, true)) else None)
    ensures s.post.None? <==> searchByNumber && ProbeFinds(probe)
    ensures s.post.Some? ==> s.post.value == PostAttempt(Payload(m), RunWrite(post, false))
  {
    var probed := if searchByNumber then Some(RunGet(probe, false, true)) else None;
    if searchByNumber && ProbeFinds(probe) then CreateStep(probed, None)
    else CreateStep(probed, Some(PostAttempt(Payload(m), RunWrite(post, false))))
  }

  /** The records whose create request succeeded. */
  function CreatedIndices(steps: seq<CreateStep>): set<nat> {
    set i: nat | i < |steps| && CreatedBy(steps[i])
  }

  /** The counter, incremented after each successful create request, ends up as
      the number of records whose request succeeded. */
  lemma {:induction false} CounterCountsCreated(steps: seq<CreateStep>)
    ensures CountCreated(steps) == |CreatedIndices(steps)|
    ensures CountCreated(steps) <= |steps|
  {
    if |steps| > 0 {
      var last := |steps| - 1;
      var init := steps[..last];
      CounterCountsCreated(init);
      if CreatedBy(steps[last]) {
        assert CreatedIndices(steps) == CreatedIndices(init) + {last};
      } else {
        assert CreatedIndices(steps) == CreatedIndices(init);
      }
    }
  }

  /** `create_milestones(endpoint, token, milestones, search_by_number)`: one step
      per record, in order; the counter is the number of records whose create
      request succeeded. */
  function CreateMilestones(milestones: seq<MilestoneRecord>, searchByNumber: bool,
                            probes: seq<Transport>, posts: seq<Transport>): (r: CreateReport)
    requires |probes| == |milestones| && |posts| == |milestones|
    ensures |r.steps| == |milestones|
    ensures forall i | 0 <= i < |milestones| ::
              r.steps[i] == CreateOne(milestones[i], searchByNumber, probes[i], posts[i])
    ensures r.created == |CreatedIndices(r.steps)|
    ensures r.created <= |milestones|
  {
    var steps := seq(|milestones|, i requires 0 <= i < |milestones| =>
                       CreateOne(milestones[i], searchByNumber, probes[i], posts[i]));
    CounterCountsCreated(steps);
    CreateReport(CountCreated(steps), steps)
  }

  /** The per-record promises of `create_milestones`: the probe is issued exactly in
      search-by-number mode, a record is skipped exactly when its probe finds the
      milestone, and otherwise its payload is posted. */
  lemma CreateSkipsFoundRecords(milestones: seq<MilestoneRecord>, searchByNumber: bool,
                                probes: seq<Transport>, posts: seq<Transport>, i: nat)
    requires |probes| == |milestones| && |posts| == |milestones|
    requires i < |milestones|
    ensures var step := CreateMilestones(milestones, searchByNumber, probes, posts).steps[i];
      && step.probe.Some? == searchByNumber
      && (step.post.None? <==> searchByNumber && ProbeFinds(probes[i]))
      && (step.post.Some? ==> step.post.value.payload == Payload(milestones[i]))
      && (step.post.Some? ==> (CreatedBy(step) <==> !Raises(posts[i])))
  {
  }

  /** Steps that issue no create request count nothing. */
  lemma {:induction false} NoPostNoCount(steps: seq<CreateStep>)
    requires forall i | 0 <= i < |steps| :: steps[i].post.None?
    ensures CountCreated(steps) == 0
  {
    if |steps| > 0 {
      NoPostNoCount(steps[..|steps| - 1]);
    }
  }

  /** Steps whose create requests all succeeded count every record. */
  lemma {:induction false} AllPostedAllCount(steps: seq<CreateStep>)
    requires forall i | 0 <= i < |steps| :: CreatedBy(steps[i])
    ensures CountCreated(steps) == |steps|
  {
    if |steps| > 0 {
      AllPostedAllCount(steps[..|steps| - 1]);
    }
  }

  /** The idempotence guard: re-running in search-by-number mode against a
      repository where every probe finds its milestone creates nothing. */
  lemma RerunCreatesNothing(milestones: seq<MilestoneRecord>, probes: seq<Transport>, posts: seq<Transport>)
    requires |probes| == |milestones| && |posts| == |milestones|
    requires forall i | 0 <= i < |probes| :: ProbeFinds(probes[i])
    ensures forall i | 0 <= i < |milestones| :: CreateMilestones(milestones, true, probes, posts).steps[i].post.None?
    ensures CreateMilestones(milestones, true, probes, posts).created == 0
  {
    NoPostNoCount(CreateMilestones(milestones, true, probes, posts).steps);
  }

  /** Without the number search, every record is posted, and all are counted when
      the server accepts every request. */
  lemma EveryRecordPosted(milestones: seq<MilestoneRecord>, probes: seq<Transport>, posts: seq<Transport>)
    requires |probes| == |milestones| && |posts| == |milestones|
    requires forall i | 0 <= i < |posts| :: !Raises(posts[i])
    ensures CreateMilestones(milestones, false, probes, posts).created == |milestones|
  {
    AllPostedAllCount(CreateMilestones(milestones, false, probes, posts).steps);
  }
}
