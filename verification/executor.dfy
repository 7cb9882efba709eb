/** The worker that runs one resource operation inside one database
    transaction: it commits only after the operation returned, turns every raised
    exception into an error reply, and resumes the waiting request exactly once. */
module Executor {
  import opened Errors
  import opened Store
  import opened Responses

  /** What the worker does, in order, as a mock connection and request would see it. */
  datatype Step =
    | Connect
    | DisableAutoCommit
    | BindConnection
    | Invoke
    | Commit
    | Resume(response: Response)

  /** The reply the request is resumed with, and the state the database keeps. */
  datatype RunResult = RunResult(response: Response, committed: Db, steps: seq<Step>)

  /** The error code an exception of each kind is reported with: SQL failures as
      ERR_003, transfer and business exceptions with the code they carry, anything
      else as ERR_025. */
  function ErrorFor(exc: Exception): (e: Error)
    ensures e == InternalSql <==> exc.Sql? || (exc.Transfer? && exc.error == InternalSql)
                                  || (exc.Business? && exc.error == InternalSql)
    ensures (exc.NullPointer? || exc.Other?) ==> e == Unexpected
    ensures (exc.Transfer? || exc.Business?) ==> e == exc.error
  {
    match exc
    case Sql => InternalSql
    case Transfer(err) => err
    case Business(err) => err
    case NullPointer => Unexpected
    case Other => Unexpected
  }

  /** What opening the transaction gives the worker: the provider's
      `newDBConnection` logs a failed connect and hands back null, so the first
      use of the connection, disabling auto-commit, raises a NullPointerException;
      an open connection may still refuse auto-commit with an SQL exception. */
  datatype Connection = NullConnection | AutoCommitFails | Opened

  /** One run of the worker. `committed` is the database before the transaction,
      `conn` what opening the transaction gives, `op` what the operation does on
      that state inside the transaction, and `commits` whether the commit
      succeeds. A null connection fails at disabling auto-commit with a
      NullPointerException (ERR_025), a refused auto-commit or a failed commit
      is an SQL failure (ERR_003), and an exception from the operation is
      reported by `ErrorFor`; in every case but a successful commit the
      transaction's writes are discarded. */
  function Run(committed: Db, conn: Connection, op: Effect<Response>, commits: bool): (r: RunResult)
    ensures r.committed == committed || r.committed == op.db
    ensures r.committed != committed ==> conn.Opened? && op.out.Returned? && commits
    ensures conn.Opened? && op.out.Returned? && commits ==>
              r.committed == op.db && r.response == op.out.value
    ensures r.response.Success? ==> conn.Opened? && commits && op.out == Returned(r.response) && r.committed == op.db
    ensures conn.NullConnection? ==>
              r.response == ErrorReply(Unexpected) && r.steps == [Connect, DisableAutoCommit, Resume(r.response)]
    ensures conn.AutoCommitFails? ==>
              r.response == ErrorReply(InternalSql) && r.steps == [Connect, DisableAutoCommit, Resume(r.response)]
    ensures conn.Opened? && op.out.Threw? ==> r.response == ErrorReply(ErrorFor(op.out.exc))
    ensures conn.Opened? && op.out.Returned? && !commits ==> r.response == ErrorReply(InternalSql)
    ensures conn.Opened? ==> |r.steps| >= 5 && r.steps[..4] == [Connect, DisableAutoCommit, BindConnection, Invoke]
    ensures Invoke in r.steps <==> conn.Opened?
    ensures Commit in r.steps <==> conn.Opened? && op.out.Returned?
    ensures |r.steps| >= 2 && r.steps[|r.steps| - 1] == Resume(r.response)
    ensures forall i :: 0 <= i < |r.steps| - 1 ==> !r.steps[i].Resume?
  {
    if !conn.Opened? then
      var exc := if conn.NullConnection? then NullPointer else Sql;
      var response := ErrorReply(ErrorFor(exc));
      RunResult(response, committed, [Connect, DisableAutoCommit, Resume(response)])
    else
      var started := [Connect, DisableAutoCommit, BindConnection, Invoke];
      match op.out
      case Threw(exc) =>
        var response := ErrorReply(ErrorFor(exc));
        RunResult(response, committed, started + [Resume(response)])
      case Returned(response) =>
        if commits then
          RunResult(response, op.db, started + [Commit, Resume(response)])
        else
          RunResult(ErrorReply(InternalSql), committed, started + [Commit, Resume(ErrorReply(InternalSql))])
  }
}
