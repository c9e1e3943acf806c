/** The life of a transaction (transaction_base.cxx, transaction.cxx): committing,
    aborting and closing, with one focus at a time and errors that wait to be
    reported. */
module Transaction {

  datatype Command = Begin | Commit | Rollback | Query

  /** What handing a command to the connection comes to. */
  datatype Reply = Done | Failed | CompletionUnknown

  datatype Exception =
    | PendingError | UsageError | InDoubtError | FocusOpen | BrokenConnection | SqlError

  datatype Outcome = Ok | Throws(why: Exception)

  datatype Status = Active | Aborted | Committed | InDoubt

  /** A command that went out and what the server answered. */
  datatype Exchange = Exchange(command: Command, reply: Reply) {
    predicate IsEnd() {
      command == Command.Commit || command == Command.Rollback
    }
  }

  const CONFIRMED := Exchange(Command.Commit, Done)
  const REFUSED := Exchange(Command.Commit, Failed)
  const UNCLEAR := Exchange(Command.Commit, CompletionUnknown)

  /** How often a run of commands ends the transaction. */
  function Ends(log: seq<Exchange>): nat {
    if log == [] then 0
    else Ends(log[..|log| - 1]) + (if log[|log| - 1].IsEnd() then 1 else 0)
  }

  lemma EndsAppend(log: seq<Exchange>, e: Exchange)
    ensures Ends(log + [e]) == Ends(log) + (if e.IsEnd() then 1 else 0)
  {
    assert (log + [e])[..|log|] == log;
  }

  /** Exactly this command has gone out in between. */
  predicate Sends(before: seq<Exchange>, after: seq<Exchange>, c: Command) {
    after != [] && after == before + [Exchange(c, LastReply(after))]
  }

  function LastReply(log: seq<Exchange>): Reply
    requires log != []
  {
    log[|log| - 1].reply
  }

  class Connection {
    var open: bool
    var trans: TransactionBase?

    constructor ()
      ensures trans == null
    {
      open, trans := true, null;
    }

    /** The command goes out, which goes on the record of the transaction that sent it;
        it may fail, and the connection may break. */
    method Exec(c: Command, ghost sender: TransactionBase) returns (r: Reply)
      modifies this`open, sender`Log
      ensures open ==> old(open)
      ensures sender.Log == old(sender.Log) + [Exchange(c, r)]
    {
      var alive: bool, outcome: int := *, *;
      open := open && alive;
      r := if outcome == 0 then Done else if outcome == 1 then CompletionUnknown else Failed;
      sender.Log := sender.Log + [Exchange(c, r)];
    }
  }

  /** An object that has the transaction to itself while it is registered: a stream, a
      pipeline, or a command being run. */
  class Focus {
    var registered: bool

    constructor ()
      ensures !registered
    {
      registered := false;
    }
  }

  class TransactionBase {
    const conn: Connection
    var status: Status
    var registered: bool
    var focus: Focus?
    var pendingError: bool
    // What this transaction has sent and what the server answered, oldest first.
    ghost var Log: seq<Exchange>

    /** The connection's current transaction is the one flagged registered, its focus
        knows that it is one, and at most one COMMIT or ROLLBACK has gone out: none
        while the transaction is active. What became of it is what the server said. */
    ghost predicate Sound()
      reads this, conn, if focus == null then {} else {focus}
    {
      && (registered <==> conn.trans == this)
      && (focus != null ==> focus.registered)
      && Ends(Log) <= 1
      && (status == Active ==> Ends(Log) == 0)
      && Truthful()
    }

    /** The transaction is held to be committed exactly if the server has confirmed
        that, and in doubt if it never learned, or was cut off from a server that did
        not confirm it. */
    ghost predicate Truthful()
      reads this`status, this`Log, conn
    {
      && (status == Committed <==> CONFIRMED in Log)
      && (UNCLEAR in Log ==> status == InDoubt)
      && (status == InDoubt ==> UNCLEAR in Log || (REFUSED in Log && !conn.open))
    }

    /** Between calls an active transaction is registered, too. */
    ghost predicate Valid()
      reads this, conn, if focus == null then {} else {focus}
    {
      Sound() && (status == Active ==> registered)
    }

    /** A transaction starts by becoming its connection's current one, which there
        must not be already, and sending BEGIN. If that fails it is gone again. */
    constructor (connection: Connection)
      modifies connection
      ensures conn == connection && focus == null
      ensures old(connection.trans) != null ==> !Started() && connection.trans == old(connection.trans) && Log == []
      ensures old(connection.trans) == null ==>
                Sends([], Log, Begin) && (Started() <==> LastReply(Log) == Done)
      ensures old(connection.trans) == null && !Started() ==> connection.trans == null
      ensures Started() ==> Valid() && status == Active
      ensures connection.open ==> old(connection.open)
    {
      conn := connection;
      status, registered, focus, pendingError, Log := Active, false, null, false, [];
      new;
      if conn.trans == null {
        conn.trans := this;
        registered := true;
        var r := conn.Exec(Begin, this);
        EndsAppend([], Exchange(Begin, r));
        if r != Done {
          // The base destructor runs.
          conn.trans := null;
          registered := false;
        }
      }
    }

    /** Whether construction went through, which the source reports by not throwing. */
    predicate Started()
      reads this
    {
      registered
    }

    method CheckPendingError() returns (o: Outcome)
      modifies this`pendingError
      ensures !pendingError && o == if old(pendingError) then Throws(PendingError) else Ok
    {
      if pendingError {
        pendingError := false;
        return Throws(PendingError);
      }
      o := Ok;
    }

    /** The first error is kept; later ones are dropped. */
    method RegisterPendingError(empty: bool)
      modifies this`pendingError
      ensures pendingError == (old(pendingError) || !empty)
    {
      if !pendingError && !empty {
        pendingError := true;
      }
    }

    /** Hands a command to the connection, unless an error waits to be reported. */
    method DirectExec(c: Command) returns (o: Outcome, r: Reply)
      modifies this`pendingError, this`Log, conn`open
      ensures !pendingError && (conn.open ==> old(conn.open))
      ensures old(pendingError) ==> o == Throws(PendingError) && r == Failed && Log == old(Log)
      ensures !old(pendingError) ==>
                Log == old(Log) + [Exchange(c, r)] && o == if r == Done then Ok else Throws(SqlError)
      ensures Ends(Log) <= Ends(old(Log)) + (if Exchange(c, r).IsEnd() then 1 else 0)
    {
      hide Ends;
      o := CheckPendingError();
      r := Failed;
      if o.Throws? {
        return;
      }
      r := conn.Exec(c, this);
      EndsAppend(old(Log), Exchange(c, r));
      o := if r == Done then Ok else Throws(SqlError);
    }

    // -------------------------------------------------------------------
    // Focus
    // -------------------------------------------------------------------

    method RegisterFocus(f: Focus) returns (o: Outcome)
      requires focus != null ==> focus.registered
      modifies this`focus, f
      ensures old(focus) != null ==> o == Throws(UsageError) && focus == old(focus) && f.registered == old(f.registered)
      ensures old(focus) == null ==> o == Ok && focus == f && f.registered
    {
      if focus != null {
        return Throws(UsageError);
      }
      focus := f;
      f.registered := true;
      o := Ok;
    }

    /** A focus that is not the current one is reported, and nothing else happens. */
    method UnregisterFocus(f: Focus)
      modifies this`focus, f
      ensures focus == (if old(focus) == f then null else old(focus)) && !f.registered
    {
      if focus == f {
        focus := null;
      }
      f.registered := false;
    }

    // -------------------------------------------------------------------
    // Commands
    // -------------------------------------------------------------------

    /** exec: issues its query exactly when no error waits, no focus is open and the
        transaction is active; in any case the focus is as before. */
    method Exec() returns (o: Outcome)
      requires Valid()
      modifies this`pendingError, this`focus, this`Log, conn`open
      ensures Valid() && !pendingError && focus == old(focus)
      ensures conn.open ==> old(conn.open)
      ensures old(pendingError) ==> o == Throws(PendingError)
      ensures !old(pendingError) && focus != null ==> o == Throws(UsageError)
      ensures !old(pendingError) && focus == null && status != Active ==> o == Throws(UsageError)
      ensures !old(pendingError) && focus == null && status == Active ==>
                Sends(old(Log), Log, Query) && o == if LastReply(Log) == Done then Ok else Throws(SqlError)
      ensures old(pendingError) || focus != null || status != Active ==> Log == old(Log)
    {
      hide Ends;
      o := CheckPendingError();
      if o.Throws? {
        return;
      }
      var command := new Focus();
      o := RegisterFocus(command);
      if o.Throws? {
        return;
      }
      if status != Active {
        o := Throws(UsageError);
      } else {
        var r;
        o, r := DirectExec(Query);
      }
      UnregisterFocus(command);
    }

    /** Parameterised statements look at neither the waiting error nor the status:
        they go out even after the transaction has ended. */
    method ExecParams() returns (o: Outcome)
      requires Valid()
      modifies this`focus, this`Log, conn`open
      ensures Valid() && focus == old(focus)
      ensures focus != null ==> o == Throws(UsageError) && Log == old(Log)
      ensures focus == null ==>
                Sends(old(Log), Log, Query) && o == if LastReply(Log) == Done then Ok else Throws(SqlError)
      ensures conn.open ==> old(conn.open)
    {
      hide Ends;
      var command := new Focus();
      o := RegisterFocus(command);
      if o.Throws? {
        return;
      }
      var r := conn.Exec(Query, this);
      EndsAppend(old(Log), Exchange(Query, r));
      o := if r == Done then Ok else Throws(SqlError);
      UnregisterFocus(command);
    }

    // -------------------------------------------------------------------
    // Endings
    // -------------------------------------------------------------------

    /** What a COMMIT comes to, by the server's answer to it. */
    ghost predicate Reports(o: Outcome)
      requires Log != []
      reads this`Log, conn
    {
      var reply := LastReply(Log);
      && (o == Ok <==> reply == Done)
      && (o == Throws(InDoubtError) <==> reply == CompletionUnknown || (reply == Failed && !conn.open))
      && (o == Throws(SqlError) <==> reply == Failed && conn.open)
    }

    /** Sends COMMIT; a lost connection or an unknown completion leaves doubt. */
    method DoCommit() returns (o: Outcome)
      modifies this`pendingError, this`Log, conn`open
      ensures !pendingError && (conn.open ==> old(conn.open))
      ensures old(pendingError) ==> Log == old(Log) && o == Throws(if conn.open then PendingError else InDoubtError)
      ensures !old(pendingError) ==> Sends(old(Log), Log, Command.Commit) && Reports(o)
      ensures Ends(Log) <= Ends(old(Log)) + 1
    {
      var r;
      o, r := DirectExec(Command.Commit);
      if o.Throws? && (r == CompletionUnknown || !conn.open) {
        o := Throws(InDoubtError);
      }
    }

    /** commit: refused without a change of status while an error waits, a focus is
        open or the connection is down; a second commit is let pass. */
    method Commit() returns (o: Outcome)
      requires Valid()
      modifies this`status, this`registered, this`pendingError, this`Log, conn`trans, conn`open
      ensures Valid() && !pendingError
      ensures old(pendingError) ==> o == Throws(PendingError) && status == old(status) && Log == old(Log)
      ensures !old(pendingError) && old(status) == Aborted ==> o == Throws(UsageError)
      ensures !old(pendingError) && old(status) == Committed ==> o == Ok
      ensures !old(pendingError) && old(status) == InDoubt ==> o == Throws(InDoubtError)
      ensures old(status) != Active ==> status == old(status) && Log == old(Log)
      ensures !old(pendingError) && old(status) == Active && focus != null ==>
                o == Throws(FocusOpen) && status == Active && Log == old(Log)
      ensures !old(pendingError) && old(status) == Active && focus == null && !old(conn.open) ==>
                o == Throws(BrokenConnection) && status == Active && Log == old(Log)
      ensures !old(pendingError) && old(status) == Active && focus == null && old(conn.open) ==>
                && Sends(old(Log), Log, Command.Commit) && Reports(o)
                && status == (if o == Ok then Committed else if o == Throws(InDoubtError) then InDoubt else Aborted)
                && (o == Ok ==> !registered)
      ensures conn.trans == (if registered == old(registered) then old(conn.trans) else null)
      ensures (registered ==> old(registered)) && (conn.open ==> old(conn.open))
    {
      hide Ends;
      o := CheckPendingError();
      if o.Throws? {
        return;
      }
      match status {
        case Active =>
        case Aborted => return Throws(UsageError);
        case Committed => return Ok;
        case InDoubt => return Throws(InDoubtError);
      }
      if focus != null {
        return Throws(FocusOpen);
      }
      if !conn.open {
        return Throws(BrokenConnection);
      }
      o := DoCommit();
      if o == Ok {
        status := Committed;
      } else if o == Throws(InDoubtError) {
        status := InDoubt;
        return;
      } else {
        status := Aborted;
        return;
      }
      Close();
    }

    /** abort: ends an active transaction whatever happens on the way. ROLLBACK goes
        out unless an error was waiting: that error is dropped in its place. */
    method Abort() returns (o: Outcome)
      requires Sound()
      modifies this`status, this`registered, this`pendingError, this`Log, conn`trans, conn`open
      ensures Valid()
      ensures old(status) == Active ==>
                && o == Ok && status == Aborted && !registered && !pendingError
                && if old(pendingError) then Log == old(Log) else Sends(old(Log), Log, Rollback)
      ensures old(status) != Active ==>
                && o == (if status == Committed then Throws(UsageError) else Ok)
                && status == old(status) && registered == old(registered) && Log == old(Log)
      ensures conn.trans == (if registered == old(registered) then old(conn.trans) else null)
      ensures (registered ==> old(registered)) && (conn.open ==> old(conn.open))
      decreases if status == Active then 1 else 0, 0
    {
      hide Ends;
      match status {
        case Active =>
          var failure, r := DirectExec(Rollback);
        case Aborted => return Ok;
        case Committed => return Throws(UsageError);
        case InDoubt => return Ok;
      }
      status := Aborted;
      Close();
      o := Ok;
    }

    /** close: reports the waiting error, gives up the connection, and aborts if the
        transaction is still active. The recursion through abort ends at once, as the
        status is no longer active the second time. */
    method Close()
      requires Sound()
      modifies this`status, this`registered, this`pendingError, this`Log, conn`trans, conn`open
      ensures Valid() && !registered && !pendingError && status != Active
      ensures status == if old(status) == Active then Aborted else old(status)
      ensures if old(status) == Active then Sends(old(Log), Log, Rollback) else Log == old(Log)
      ensures conn.trans == (if registered == old(registered) then old(conn.trans) else null)
      ensures (registered ==> old(registered)) && (conn.open ==> old(conn.open))
      decreases if status == Active then 1 else 0, 1
    {
      var notice := CheckPendingError();
      if registered {
        registered := false;
        conn.trans := null;
      }
      if status != Active {
        return;
      }
      var o := Abort();
    }
  }
}
