/** Project items as `_all_project_issues` (scripts/verify_release_project.py) parses them. */
module Project {
  import opened Wrappers

  const ITERATION := "Release iteration"
  const PRIORITY := "Priority"
  const STATUS := "Status"
  const VALIDATION := "Validation"
  const OPEN := "OPEN"
  const CLOSED := "CLOSED"

  /** A `blockedBy` node; Malformed when its number, state or repository is not of the required shape. */
  datatype Blocker = Malformed | Blocker(number: int, state: string, repository: string)

  datatype ProjectIssue = ProjectIssue(
    itemId: string,
    number: int,
    repository: string,
    state: string,
    fields: map<string, string>,
    fieldErrors: set<string>,
    blockers: seq<Blocker>,
    blockersComplete: bool,
    owners: seq<string>,
    ownersComplete: bool)
}
