/** Runs of calls on any number of transactions of one connection
    (transaction_base.cxx, connection.cxx). */
module TransactionRuns {
  import opened Transaction

  /** What a program does. It knows its transactions by the order of their start. */
  datatype Action =
    | Start
    | Execute(i: nat)
    | ExecuteParams(i: nat)
    | OpenFocus(i: nat)
    | CloseFocus(i: nat)
    | LeaveError(i: nat)
    | TryCommit(i: nat)
    | TryAbort(i: nat)
    | Finish(i: nat)

  /** Every transaction is in order, and none shares its focus. Being registered is being
      the connection's current one, so at most one transaction is. */
  ghost predicate Together(conn: Connection, ts: seq<TransactionBase>)
    reads conn, ts, set t | t in ts && t.focus != null :: t.focus
  {
    && (forall k :: 0 <= k < |ts| ==> ts[k].conn == conn && ts[k].Valid())
    && (forall j, k :: 0 <= j < k < |ts| ==> ts[j] != ts[k])
    && (forall j, k :: 0 <= j < k < |ts| && ts[j].focus != null ==> ts[j].focus != ts[k].focus)
    && (conn.trans != null ==> conn.trans in ts)
  }

  /** BEGIN comes first, and a COMMIT or ROLLBACK last, if there is one. */
  ghost predicate InOrder(t: TransactionBase)
    reads t
  {
    && t.Log != [] && t.Log[0] == Exchange(Begin, Done)
    && (forall k :: 0 < k < |t.Log| - 1 ==> t.Log[k].command == Query)
    && (t.status == Active ==> forall k :: 0 < k < |t.Log| ==> t.Log[k].command == Query)
  }

  method DoStart(conn: Connection, ts: seq<TransactionBase>) returns (next: seq<TransactionBase>)
    requires Together(conn, ts)
    modifies conn
    ensures Together(conn, next) && ts <= next && |next| <= |ts| + 1
    ensures |next| > |ts| ==> fresh(next[|ts|]) && next[|ts|].focus == null && InOrder(next[|ts|])
    ensures |next| > |ts| ==> old(conn.trans) == null
  {
    next := ts;
    var t := new TransactionBase(conn);
    if t.Started() {
      next := ts + [t];
    }
  }

  method DoExecute(conn: Connection, ts: seq<TransactionBase>, t: TransactionBase)
    requires Together(conn, ts) && t in ts
    modifies t`pendingError, t`focus, t`Log, conn`open
    ensures Together(conn, ts) && t.focus == old(t.focus)
    ensures old(InOrder(t)) ==> InOrder(t)
  {
    hide Ends;
    var o := t.Exec();
  }

  method DoExecuteParams(conn: Connection, ts: seq<TransactionBase>, t: TransactionBase) returns (late: bool)
    requires Together(conn, ts) && t in ts
    modifies t`focus, t`Log, conn`open
    ensures Together(conn, ts) && t.focus == old(t.focus)
    ensures late <==> t.status != Active && t.focus == null
    ensures !late && old(InOrder(t)) ==> InOrder(t)
  {
    hide Ends;
    late := t.status != Active && t.focus == null;
    var o := t.ExecParams();
  }

  method DoOpenFocus(conn: Connection, ts: seq<TransactionBase>, t: TransactionBase)
    requires Together(conn, ts) && t in ts
    modifies t`focus
    ensures Together(conn, ts)
    ensures t.focus == old(t.focus) || fresh(t.focus)
    ensures old(InOrder(t)) ==> InOrder(t)
  {
    hide Ends;
    var f := new Focus();
    var o := t.RegisterFocus(f);
  }

  method DoCloseFocus(conn: Connection, ts: seq<TransactionBase>, t: TransactionBase)
    requires Together(conn, ts) && t in ts
    modifies t`focus, if t.focus == null then {} else {t.focus}
    ensures Together(conn, ts) && t.focus == null
    ensures old(InOrder(t)) ==> InOrder(t)
  {
    hide Ends;
    if t.focus != null {
      t.UnregisterFocus(t.focus);
    }
  }

  method DoLeaveError(conn: Connection, ts: seq<TransactionBase>, t: TransactionBase)
    requires Together(conn, ts) && t in ts
    modifies t`pendingError
    ensures Together(conn, ts)
    ensures old(InOrder(t)) ==> InOrder(t)
  {
    hide Ends;
    t.RegisterPendingError(false);
  }

  method DoCommit(conn: Connection, ts: seq<TransactionBase>, t: TransactionBase)
    requires Together(conn, ts) && t in ts
    modifies t`status, t`registered, t`pendingError, t`Log, conn`trans, conn`open
    ensures Together(conn, ts)
    ensures old(InOrder(t)) ==> InOrder(t)
  {
    hide Ends;
    var o := t.Commit();
  }

  method DoAbort(conn: Connection, ts: seq<TransactionBase>, t: TransactionBase)
    requires Together(conn, ts) && t in ts
    modifies t`status, t`registered, t`pendingError, t`Log, conn`trans, conn`open
    ensures Together(conn, ts)
    ensures old(InOrder(t)) ==> InOrder(t)
  {
    hide Ends;
    var o := t.Abort();
  }

  method DoFinish(conn: Connection, ts: seq<TransactionBase>, t: TransactionBase)
    requires Together(conn, ts) && t in ts
    modifies t`status, t`registered, t`pendingError, t`Log, conn`trans, conn`open
    ensures Together(conn, ts)
    ensures old(InOrder(t)) ==> InOrder(t)
  {
    hide Ends;
    t.Close();
  }

  ghost predicate AllInOrder(ts: seq<TransactionBase>)
    reads ts
  {
    forall k :: 0 <= k < |ts| ==> InOrder(ts[k])
  }

  /** One action. It is late if it sends a parameterised statement in a transaction that
      has ended. */
  method Act(conn: Connection, ts: seq<TransactionBase>, a: Action)
      returns (next: seq<TransactionBase>, late: bool)
    requires Together(conn, ts)
    modifies conn, ts, set t | t in ts && t.focus != null :: t.focus
    ensures Together(conn, next) && ts <= next
    ensures forall k :: |ts| <= k < |next| ==> fresh(next[k])
    ensures forall k :: 0 <= k < |next| ==>
              next[k].focus == null || fresh(next[k].focus) || (k < |ts| && next[k].focus == old(ts[k].focus))
    ensures !late && old(AllInOrder(ts)) ==> AllInOrder(next)
    ensures late ==> a.ExecuteParams?
  {
    hide Ends, Together, InOrder;
    next, late := ts, false;
    if a == Start {
      next := DoStart(conn, ts);
    } else if a.i < |ts| {
      var t := ts[a.i];
      OthersAreOthers(conn, ts, a.i);
      if a.Execute? {
        DoExecute(conn, ts, t);
      } else if a.ExecuteParams? {
        late := DoExecuteParams(conn, ts, t);
      } else if a.OpenFocus? {
        DoOpenFocus(conn, ts, t);
      } else if a.CloseFocus? {
        DoCloseFocus(conn, ts, t);
      } else if a.LeaveError? {
        DoLeaveError(conn, ts, t);
      } else if a.TryCommit? {
        DoCommit(conn, ts, t);
      } else if a.TryAbort? {
        DoAbort(conn, ts, t);
      } else {
        DoFinish(conn, ts, t);
      }
    }
  }

  lemma OthersAreOthers(conn: Connection, ts: seq<TransactionBase>, i: nat)
    requires Together(conn, ts) && i < |ts|
    ensures forall k :: 0 <= k < |ts| && k != i ==> ts[k] != ts[i]
  {
  }

  /** Whatever a program does with the transactions of a connection, in whatever order:
      the connection's current transaction is the one flagged registered, and there is
      at most one; only that one can be active; each has sent at most one COMMIT or
      ROLLBACK, and is held to be committed exactly if the server has confirmed that.
      Unless a parameterised statement came late, that is the last thing a transaction
      has sent, as BEGIN is the first. */
  method Session(actions: seq<Action>) returns (conn: Connection, ts: seq<TransactionBase>, late: bool)
    ensures forall k :: 0 <= k < |ts| ==>
              && ts[k].conn == conn && Ends(ts[k].Log) <= 1
              && (ts[k].registered <==> conn.trans == ts[k])
              && (ts[k].status == Active ==> ts[k].registered && Ends(ts[k].Log) == 0)
              && ts[k].Truthful()
    ensures forall j, k :: 0 <= j < k < |ts| ==> !(ts[j].registered && ts[k].registered)
    ensures conn.trans != null ==> conn.trans in ts
    ensures late || AllInOrder(ts)
    ensures late ==> exists a :: a in actions && a.ExecuteParams?
  {
    hide Ends, InOrder;
    conn := new Connection();
    ts, late := [], false;
    for n := 0 to |actions|
      invariant fresh(conn) && Together(conn, ts)
      invariant forall k :: 0 <= k < |ts| ==> fresh(ts[k]) && (ts[k].focus == null || fresh(ts[k].focus))
      invariant late || AllInOrder(ts)
      invariant late ==> exists a :: a in actions && a.ExecuteParams?
    {
      hide Together;
      var l;
      ts, l := Act(conn, ts, actions[n]);
      assert l ==> actions[n] in actions;
      late := late || l;
    }
  }
}
