/** The PostgreSQL unit of work (crates/adapters/postgres/src/uow.rs): at most
    one open transaction, held in an optional field that `begin` fills and
    `commit` and `rollback` empty. The pool and the transaction's own calls
    are outside the model: their replies are parameters. */
module PostgresUow {
  import opened Wrappers
  import opened Errors

  /** An open database transaction, as a token the pool hands out. */
  datatype Transaction = Transaction(serial: nat)

  /** The state after a call and what the call returned. */
  datatype Step = Step(state: Option<Transaction>, result: Result<(), RepositoryError>)

  /** `begin`, given what `pool.begin()` would answer. */
  function BeginStep(state: Option<Transaction>, poolReply: Result<Transaction, string>): (s: Step)
    ensures state.Some? ==> s == Step(state, Err(InternalError("Transaction already started")))
    ensures state.None? && poolReply.Err? ==> s == Step(None, Err(DatabaseError(poolReply.error)))
    ensures state.None? && poolReply.Ok? ==> s == Step(Some(poolReply.value), Ok(()))
  {
    if state.Some? then Step(state, Err(InternalError("Transaction already started")))
    else
      match poolReply
      case Err(e) => Step(None, Err(DatabaseError(e)))
      case Ok(tx) => Step(Some(tx), Ok(()))
  }

  /** `commit` (`isCommit`) or `rollback`, given what the transaction's own
      call would answer; the transaction is taken out before that call. */
  function EndStep(state: Option<Transaction>, isCommit: bool, dbReply: Result<(), string>): (s: Step)
    ensures s.state.None?
    ensures state.None? ==> s.result == Err(InternalError(NoActiveText(isCommit)))
    ensures state.Some? && dbReply.Err? ==> s.result == Err(DatabaseError(dbReply.error))
    ensures s.result.Ok? <==> state.Some? && dbReply.Ok?
  {
    if state.Some? then
      match dbReply
      case Err(e) => Step(None, Err(DatabaseError(e)))
      case Ok(_) => Step(None, Ok(()))
    else Step(None, Err(InternalError(NoActiveText(isCommit))))
  }

  function NoActiveText(isCommit: bool): string {
    if isCommit then "No active transaction to commit" else "No active transaction to rollback"
  }

  /** A `begin` succeeds exactly when it opens a transaction where there was
      none, and it never replaces an open one. */
  lemma BeginOpens(state: Option<Transaction>, poolReply: Result<Transaction, string>)
    ensures BeginStep(state, poolReply).result.Ok? <==> state.None? && BeginStep(state, poolReply).state.Some?
    ensures state.Some? ==> BeginStep(state, poolReply).state == state
  {
  }

  /** A call on the unit, with the reply the database would give to it. */
  datatype Call =
    | Begin(poolReply: Result<Transaction, string>)
    | Commit(dbReply: Result<(), string>)
    | Rollback(dbReply: Result<(), string>)

  function Apply(state: Option<Transaction>, c: Call): Step {
    match c
    case Begin(reply) => BeginStep(state, reply)
    case Commit(reply) => EndStep(state, true, reply)
    case Rollback(reply) => EndStep(state, false, reply)
  }

  /** The state after the calls `calls` on a new unit. */
  function StateAfter(calls: seq<Call>): Option<Transaction> {
    if calls == [] then None
    else Apply(StateAfter(calls[..|calls| - 1]), calls[|calls| - 1]).state
  }

  /** How many of the calls opened a transaction. */
  function Opened(calls: seq<Call>): nat {
    if calls == [] then 0
    else
      var before := StateAfter(calls[..|calls| - 1]);
      var c := calls[|calls| - 1];
      Opened(calls[..|calls| - 1]) + (if c.Begin? && Apply(before, c).result.Ok? then 1 else 0)
  }

  /** How many of the calls closed one: a commit or rollback that found it
      open, whatever the database then answered. */
  function Closed(calls: seq<Call>): nat {
    if calls == [] then 0
    else
      var before := StateAfter(calls[..|calls| - 1]);
      var c := calls[|calls| - 1];
      Closed(calls[..|calls| - 1]) + (if !c.Begin? && before.Some? then 1 else 0)
  }

  /** Transactions are bracketed: every one opened has been closed once,
      except the one open now. */
  lemma {:induction false} Bracketed(calls: seq<Call>)
    ensures Opened(calls) == Closed(calls) + (if StateAfter(calls).Some? then 1 else 0)
  {
    if calls != [] {
      Bracketed(calls[..|calls| - 1]);
    }
  }

  class PostgresUnitOfWork {
    var transaction: Option<Transaction>

    /** `new`: no open transaction. */
    constructor()
      ensures transaction.None?
    {
      transaction := None;
    }

    /** The `transaction()` accessor. */
    function CurrentTransaction(): (t: Option<Transaction>)
      reads this
      ensures t == transaction
    {
      transaction
    }

    method Begin(poolReply: Result<Transaction, string>) returns (r: Result<(), RepositoryError>)
      modifies this
      ensures transaction == BeginStep(old(transaction), poolReply).state
      ensures r == BeginStep(old(transaction), poolReply).result
    {
      if transaction.Some? {
        return Err(InternalError("Transaction already started"));
      }
      match poolReply
      case Err(e) =>
        r := Err(DatabaseError(e));
      case Ok(tx) =>
        transaction := Some(tx);
        r := Ok(());
    }

    method Commit(dbReply: Result<(), string>) returns (r: Result<(), RepositoryError>)
      modifies this
      ensures transaction == EndStep(old(transaction), true, dbReply).state
      ensures r == EndStep(old(transaction), true, dbReply).result
    {
      var tx := transaction;
      transaction := None;
      if tx.Some? {
        match dbReply
        case Err(e) =>
          r := Err(DatabaseError(e));
        case Ok(_) =>
          r := Ok(());
      } else {
        r := Err(InternalError("No active transaction to commit"));
      }
    }

    method Rollback(dbReply: Result<(), string>) returns (r: Result<(), RepositoryError>)
      modifies this
      ensures transaction == EndStep(old(transaction), false, dbReply).state
      ensures r == EndStep(old(transaction), false, dbReply).result
    {
      var tx := transaction;
      transaction := None;
      if tx.Some? {
        match dbReply
        case Err(e) =>
          r := Err(DatabaseError(e));
        case Ok(_) =>
          r := Ok(());
      } else {
        r := Err(InternalError("No active transaction to rollback"));
      }
    }
  }
}
