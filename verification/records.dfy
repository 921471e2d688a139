/**
 * The records of the two snapshots (milestones and milestoned issues) and the
 * API objects they are read from.
 */
module Records {

  datatype MilestoneState = Open | Closed

  /** The state as the API spells it. */
  function StateName(s: MilestoneState): string {
    match s
    case Open => "open"
    case Closed => "closed"
  }

  /** One row of the milestone snapshot, fields in file order. An absent
      description or due date is the empty string. */
  datatype MilestoneRecord = MilestoneRecord(
    number: int,
    title: string,
    state: MilestoneState,
    description: string,
    openIssues: int,
    closedIssues: int,
    dueOn: string)

  datatype IssueKind = Issue | PR

  /** One row of the issue snapshot: an issue or pull request carrying a milestone. */
  datatype IssueRecord = IssueRecord(number: int, milestone: int, title: string, kind: IssueKind)

  /** A milestone object as the REST API returns it: the fields the listing keeps,
      plus `id` and `url`, which it drops. */
  datatype MilestoneItem = MilestoneItem(
    id: int,
    url: string,
    number: int,
    title: string,
    state: MilestoneState,
    description: string,
    openIssues: int,
    closedIssues: int,
    dueOn: string)

  /** An issue object as the REST API returns it: `keys` is the set of its JSON keys,
      and `milestone` is the nested milestone object. */
  datatype IssueItem = IssueItem(number: int, milestone: MilestoneItem, title: string, keys: set<string>)

  function ToMilestoneRecord(item: MilestoneItem): MilestoneRecord {
    MilestoneRecord(item.number, item.title, item.state, item.description,
                    item.openIssues, item.closedIssues, item.dueOn)
  }

  /** Pull requests are told apart from issues by their `pull_request` key. */
  function KindOf(keys: set<string>): IssueKind {
    if "pull_request" in keys then PR else Issue
  }

  function ToIssueRecord(item: IssueItem): IssueRecord {
    IssueRecord(item.number, item.milestone.number, item.title, KindOf(item.keys))
  }
}
