/**
 * The query runner built by `useNeo4jDB`: one long-lived session, a
 * "current" scope in which statements run, and a remembered transaction.
 * Each call may switch the scope with a three-valued mode argument
 * (omitted, true or false) and settles with NO_RESULT, the records, the
 * remembered transaction, or the store's error.
 */
module QuerySession {
  import opened Wrappers

  /** Where a statement runs: the plain session, or the `serial`-th transaction begun on it. */
  datatype Scope = Plain | Tx(serial: nat)

  /** A statement as handed to the store, with the scope it ran in. */
  datatype Statement = Statement(scope: Scope, text: string)

  /** What the store answers: rows (a row slot may be empty) or an error. */
  datatype StoreReply<R> = Rows(rows: seq<Option<R>>) | StoreError(message: string)

  /** NO_RESULT, or the records exactly as the store returned them. */
  datatype Answer<R> = NoResult | Records(records: seq<R>)

  /** How one call settles. */
  datatype Outcome<R> =
    | Resolved(answer: Answer<Option<R>>)
    | ScopeHandle(scope: Scope)
    | Rejected(message: string)

  /**
   * The mapping of a store answer: an empty answer, or one whose first
   * record is missing, becomes NO_RESULT; anything else is passed on
   * unchanged, so a Records answer always has a first record.
   */
  function ToAnswer<R>(rows: seq<Option<R>>): (a: Answer<Option<R>>)
    ensures a == NoResult <==> |rows| == 0 || rows[0] == None
    ensures a.Records? ==> a.records == rows && |a.records| > 0 && a.records[0].Some?
  {
    if |rows| == 0 || rows[0].None? then NoResult else Records(rows)
  }

  class Session {
    /** The scope the next statement runs in (`_session`). */
    var current: Scope
    /** The last transaction begun (`_lastTransaction`); the plain session until one is. */
    var lastTransaction: Scope
    /** How many transactions have been begun; the next one gets this serial. */
    var begun: nat
    /** Every statement dispatched so far, in order. */
    var sent: seq<Statement>

    ghost predicate Valid()
      reads this
    {
      && (current == Plain || current == lastTransaction)
      && (lastTransaction.Tx? ==> lastTransaction.serial < begun)
    }

    /** Both scopes start as the plain session. */
    constructor ()
      ensures Valid()
      ensures current == Plain && lastTransaction == Plain && begun == 0 && sent == []
    {
      current := Plain;
      lastTransaction := Plain;
      begun := 0;
      sent := [];
    }

    /**
     * One call of the runner. `mode` is the optional transaction switch and
     * `reply` is what the store answers to the statement. The statement is
     * dispatched to the (possibly switched) current scope in every case,
     * including the mode-only call with an empty query, whose settlement is
     * the remembered transaction.
     */
    method Run<R>(query: string, mode: Option<bool>, reply: StoreReply<R>) returns (out: Outcome<R>)
      requires Valid()
      modifies this
      ensures Valid()
      ensures mode == Some(true) ==>
        current == Tx(old(begun)) && lastTransaction == current && begun == old(begun) + 1
      ensures mode == Some(false) ==>
        current == Plain && lastTransaction == old(lastTransaction) && begun == old(begun)
      ensures mode == None ==>
        current == old(current) && lastTransaction == old(lastTransaction) && begun == old(begun)
      ensures sent == old(sent) + [Statement(current, query)]
      ensures |query| == 0 && mode.Some? ==> out == ScopeHandle(lastTransaction)
      ensures !(|query| == 0 && mode.Some?) ==>
        out == match reply
               case Rows(rows) => Resolved(ToAnswer(rows))
               case StoreError(m) => Rejected(m)
    {
      if mode.Some? {
        if mode.value {
          current := Tx(begun);
          begun := begun + 1;
          lastTransaction := current;
        } else {
          current := Plain;
        }
      }
      sent := sent + [Statement(current, query)];
      if |query| == 0 && mode.Some? {
        out := ScopeHandle(lastTransaction);
      } else {
        match reply
        case Rows(rows) =>
          out := Resolved(ToAnswer(rows));
        case StoreError(m) =>
          out := Rejected(m);
      }
    }
  }

  /**
   * A run of statements inside a transaction: switching on begins a fresh
   * transaction, later calls without a mode stay in it, an empty mode-only
   * call hands it back, and switching off returns to the plain session while
   * the transaction stays remembered.
   */
  method TransactionScenario(q1: string, q2: string, reply: StoreReply<int>)
    requires |q1| > 0 && |q2| > 0
  {
    var s := new Session();
    var a := s.Run(q1, Some(true), reply);
    assert s.current == Tx(0) && s.sent[0].scope == Tx(0);
    var b := s.Run(q2, None, reply);
    assert s.sent[1].scope == Tx(0);
    var h := s.Run("", Some(false), reply);
    assert h == ScopeHandle(Tx(0)) && s.current == Plain;
    var c := s.Run(q1, Some(true), reply);
    assert s.current == Tx(1) && s.lastTransaction == Tx(1);
  }
}
