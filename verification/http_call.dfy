/**
 * The three REST primitives `run_get`, `run_post` and `run_patch` of util/github_query.py.
 *
 * The transport library is replaced by what it reports for one request: a status
 * code, a connection error or a timeout. A primitive then either hands back the
 * response, returns `None` (after logging the failure, except for the 404 of an
 * existence check), or ends the process with `SystemExit` when its caller asked
 * for `throw_exception`.
 */
module HttpCall {

  /** What the transport reports for one request. */
  datatype Transport = Responded(status: int) | ConnectionError | Timeout

  /** How one call to a primitive ends. */
  datatype CallOutcome =
    | Succeeded   // the response (run_get) or its decoded body (run_post, run_patch) is returned
    | Absent      // `None` without logging: a 404 under `exist_check`
    | Failed      // `None` after logging "Request failed"
    | Aborted     // `SystemExit` under `throw_exception`

  /** `raise_for_status` raises `HTTPError` for client (4xx) and server (5xx) codes only. */
  predicate IsHttpError(status: int) {
    400 <= status < 600
  }

  /** The request ends in one of the exceptions the primitives catch:
      `ConnectionError`, `Timeout` or `HTTPError`. */
  predicate Raises(t: Transport) {
    t.Responded? ==> IsHttpError(t.status)
  }

  /** The shared `except` block: log, then abort or fall through to `return None`. */
  function Recover(throwException: bool): CallOutcome {
    if throwException then Aborted else Failed
  }

  /** `run_get`: a 404 under `exist_check` is a quiet "not there"; every other
      failure goes through the error path. */
  function RunGet(t: Transport, throwException: bool, existCheck: bool): (r: CallOutcome)
    ensures r.Succeeded? <==> t.Responded? && !IsHttpError(t.status)
    ensures r.Absent? <==> existCheck && t == Responded(404)
    ensures r.Aborted? <==> throwException && Raises(t) && !(existCheck && t == Responded(404))
    ensures r.Failed? <==> !throwException && Raises(t) && !(existCheck && t == Responded(404))
  {
    if existCheck && t == Responded(404) then Absent
    else if Raises(t) then Recover(throwException)
    else Succeeded
  }

  /** `run_post` and `run_patch`: the two have the same body apart from the HTTP verb,
      and neither has an existence-check mode. */
  function RunWrite(t: Transport, throwException: bool): (r: CallOutcome)
    ensures r.Succeeded? <==> t.Responded? && !IsHttpError(t.status)
    ensures !r.Absent?
    ensures r.Aborted? <==> throwException && Raises(t)
  {
    if Raises(t) then Recover(throwException) else Succeeded
  }

  /** Only the 404 answer is reclassified by `exist_check`; every other answer is
      handled exactly as without it, and a 404 without it is an ordinary failure. */
  lemma ExistCheckOnlyReclassifies404(t: Transport, throwException: bool)
    ensures t != Responded(404) ==> RunGet(t, throwException, true) == RunGet(t, throwException, false)
    ensures RunGet(Responded(404), throwException, true) == Absent
    ensures RunGet(Responded(404), throwException, false) == Recover(throwException)
  {
  }

  /** Without an existence check, the read and the write primitives classify every
      transport answer the same way. */
  lemma GetAndWriteAgree(t: Transport, throwException: bool)
    ensures RunGet(t, throwException, false) == RunWrite(t, throwException)
  {
  }

  /** In the default (non-throwing) mode used by every call site, no call aborts:
      each one either succeeds or yields `None`. */
  lemma DefaultModeNeverAborts(t: Transport, existCheck: bool)
    ensures RunGet(t, false, existCheck) != Aborted
    ensures RunWrite(t, false) != Aborted
    ensures RunWrite(t, false) == Succeeded || RunWrite(t, false) == Failed
  {
  }
}
