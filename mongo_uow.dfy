/** The MongoDB unit of work (crates/adapters/mongo/src/uow.rs): an optional
    client session that `begin` stores and `commit` and `rollback` take out.
    The client and the session's own calls are outside the model: their
    replies are parameters. */
module MongoUow {
  import opened Wrappers
  import opened Errors

  /** A client session, as a token the client hands out. */
  datatype Session = Session(serial: nat)

  /** The state after a call and what the call returned. */
  datatype Step = Step(state: Option<Session>, result: Result<(), RepositoryError>)

  /** `begin`, given what `start_session` and then `start_transaction` would
      answer. The session is stored before the transaction is started, so a
      failed start still leaves it stored. */
  function BeginStep(state: Option<Session>, sessionReply: Result<Session, string>, startReply: Result<(), string>): (s: Step)
    ensures state.Some? ==> s == Step(state, Err(InternalError("Transaction already started")))
    ensures state.None? && sessionReply.Err? ==> s == Step(None, Err(DatabaseError(sessionReply.error)))
    ensures state.None? && sessionReply.Ok? ==> s.state == Some(sessionReply.value)
    ensures state.None? && sessionReply.Ok? && startReply.Err? ==> s.result == Err(DatabaseError(startReply.error))
    ensures s.result.Ok? <==> state.None? && sessionReply.Ok? && startReply.Ok?
  {
    if state.Some? then Step(state, Err(InternalError("Transaction already started")))
    else
      match sessionReply
      case Err(e) => Step(None, Err(DatabaseError(e)))
      case Ok(session) =>
        match startReply
        case Err(e) => Step(Some(session), Err(DatabaseError(e)))
        case Ok(_) => Step(Some(session), Ok(()))
  }

  /** `commit` (`isCommit`) or `rollback`, given what `commit_transaction` or
      `abort_transaction` would answer; the session is taken out first. */
  function EndStep(state: Option<Session>, isCommit: bool, dbReply: Result<(), string>): (s: Step)
    ensures s.state.None?
    ensures state.None? ==> s.result == Err(InternalError(NoActiveText(isCommit)))
    ensures state.Some? && dbReply.Err? ==> s.result == Err(DatabaseError(dbReply.error))
    ensures s.result.Ok? <==> state.Some? && dbReply.Ok?
  {
    if state.Some? then
      match dbReply
      case Err(e) => Step(None, Err(DatabaseError(e)))
      case Ok(_) => Step(None, Ok(()))
    else Step(None, Err(InternalError(NoActiveText(isCommit))))
  }

  function NoActiveText(isCommit: bool): string {
    if isCommit then "No active transaction to commit" else "No active transaction to rollback"
  }

  /** A `begin` whose `start_transaction` fails reports a database error and
      yet leaves the unit holding the session. */
  lemma FailedStartStaysActive(session: Session, e: string)
    ensures var s := BeginStep(None, Ok(session), Err(e));
      s.result == Err(DatabaseError(e)) && s.state == Some(session)
  {
  }

  /** While a session is held, every `begin` fails with "Transaction already
      started" whatever the client would answer; only `commit` or `rollback`
      clears it. */
  lemma HeldSessionBlocksBegin(session: Session, sessionReply: Result<Session, string>, startReply: Result<(), string>, isCommit: bool, dbReply: Result<(), string>)
    ensures BeginStep(Some(session), sessionReply, startReply) == Step(Some(session), Err(InternalError("Transaction already started")))
    ensures BeginStep(EndStep(Some(session), isCommit, dbReply).state, sessionReply, startReply).result.Ok?
        <==> sessionReply.Ok? && startReply.Ok?
  {
  }

  /** A call on the unit, with the replies the database would give to it. */
  datatype Call =
    | Begin(sessionReply: Result<Session, string>, startReply: Result<(), string>)
    | Commit(dbReply: Result<(), string>)
    | Rollback(dbReply: Result<(), string>)

  function Apply(state: Option<Session>, c: Call): Step {
    match c
    case Begin(sr, tr) => BeginStep(state, sr, tr)
    case Commit(reply) => EndStep(state, true, reply)
    case Rollback(reply) => EndStep(state, false, reply)
  }

  /** The state after the calls `calls` on a new unit. */
  function StateAfter(calls: seq<Call>): Option<Session> {
    if calls == [] then None
    else Apply(StateAfter(calls[..|calls| - 1]), calls[|calls| - 1]).state
  }

  /** How many of the calls stored a session, whether or not they reported
      success. */
  function Stored(calls: seq<Call>): nat {
    if calls == [] then 0
    else
      var before := StateAfter(calls[..|calls| - 1]);
      var c := calls[|calls| - 1];
      Stored(calls[..|calls| - 1]) + (if c.Begin? && before.None? && Apply(before, c).state.Some? then 1 else 0)
  }

  /** How many of the calls took a session out. */
  function Taken(calls: seq<Call>): nat {
    if calls == [] then 0
    else
      var before := StateAfter(calls[..|calls| - 1]);
      var c := calls[|calls| - 1];
      Taken(calls[..|calls| - 1]) + (if !c.Begin? && before.Some? then 1 else 0)
  }

  /** Sessions are bracketed: each one stored has been taken out once, except
      the one held now. */
  lemma {:induction false} Bracketed(calls: seq<Call>)
    ensures Stored(calls) == Taken(calls) + (if StateAfter(calls).Some? then 1 else 0)
  {
    if calls != [] {
      Bracketed(calls[..|calls| - 1]);
    }
  }

  class MongoUnitOfWork {
    var session: Option<Session>

    /** `new`: no session. */
    constructor()
      ensures session.None?
    {
      session := None;
    }

    /** The `session()` accessor. */
    function CurrentSession(): (s: Option<Session>)
      reads this
      ensures s == session
    {
      session
    }

    method Begin(sessionReply: Result<Session, string>, startReply: Result<(), string>) returns (r: Result<(), RepositoryError>)
      modifies this
      ensures session == BeginStep(old(session), sessionReply, startReply).state
      ensures r == BeginStep(old(session), sessionReply, startReply).result
    {
      if session.Some? {
        return Err(InternalError("Transaction already started"));
      }
      match sessionReply
      case Err(e) =>
        return Err(DatabaseError(e));
      case Ok(s) =>
        session := Some(s);
      match startReply
      case Err(e) =>
        r := Err(DatabaseError(e));
      case Ok(_) =>
        r := Ok(());
    }

    method Commit(dbReply: Result<(), string>) returns (r: Result<(), RepositoryError>)
      modifies this
      ensures session == EndStep(old(session), true, dbReply).state
      ensures r == EndStep(old(session), true, dbReply).result
    {
      var s := session;
      session := None;
      if s.Some? {
        match dbReply
        case Err(e) =>
          r := Err(DatabaseError(e));
        case Ok(_) =>
          r := Ok(());
      } else {
        r := Err(InternalError("No active transaction to commit"));
      }
    }

    method Rollback(dbReply: Result<(), string>) returns (r: Result<(), RepositoryError>)
      modifies this
      ensures session == EndStep(old(session), false, dbReply).state
      ensures r == EndStep(old(session), false, dbReply).result
    {
      var s := session;
      session := None;
      if s.Some? {
        match dbReply
        case Err(e) =>
          r := Err(DatabaseError(e));
        case Ok(_) =>
          r := Ok(());
      } else {
        r := Err(InternalError("No active transaction to rollback"));
      }
    }
  }
}
