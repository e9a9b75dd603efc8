/**
 * The database connection as the portfolio tool sees it through psycopg2: an append-only log
 * of what was sent to the server (statements executed, rows inserted through parameterised
 * INSERTs, cursor close, commit, connection close). What the server does with a statement is
 * not modelled, only whether it refuses it: `rejects` is the set of statement texts that make
 * `cursor.execute` raise.
 */
module Database {
  import opened PyText

  /** The rows the insert operations write. Generated keys are the database's and are left out. */
  datatype Row =
    | ClientRow(firstName: string, lastName: string)
    | TradeRow(portfolioId: int, assetId: int, tradeDate: Option<string>, side: string, quantity: real, price: real)

  datatype Event =
    | Executed(sql: string)
    | Inserted(row: Row)
    | CursorClosed
    | Committed
    | ConnectionClosed

  /** `Executed` events for the given statements, in order. */
  function Executions(stmts: seq<string>): seq<Event>
  {
    if stmts == [] then [] else Executions(stmts[..|stmts| - 1]) + [Executed(stmts[|stmts| - 1])]
  }

  /** One `Executed` event per statement, in the same order. */
  lemma {:induction false} ExecutionsSpec(stmts: seq<string>)
    ensures |Executions(stmts)| == |stmts|
    ensures forall k :: 0 <= k < |stmts| ==> Executions(stmts)[k] == Executed(stmts[k])
  {
    if stmts != [] {
      ExecutionsSpec(stmts[..|stmts| - 1]);
    }
  }

  lemma {:induction false} ExecutionsAppend(a: seq<string>, b: seq<string>)
    ensures Executions(a + b) == Executions(a) + Executions(b)
  {
    if b != [] {
      var b' := b[..|b| - 1];
      assert (a + b)[..|a + b| - 1] == a + b';
      assert (a + b)[|a + b| - 1] == b[|b| - 1];
      ExecutionsAppend(a, b');
    } else {
      assert a + b == a;
    }
  }

  class Connection {
    /** Everything sent on this connection, oldest first. */
    var events: seq<Event>
    /** The statements the server refuses. */
    const rejects: set<string>

    constructor (rejects: set<string>)
      ensures events == [] && this.rejects == rejects
    {
      events := [];
      this.rejects := rejects;
    }

    /** `cur.execute(sql)`: sent either way; `ok` is false when the server raises. */
    method Execute(sql: string) returns (ok: bool)
      modifies this
      ensures ok <==> sql !in rejects
      ensures events == old(events) + [Executed(sql)]
    {
      events := events + [Executed(sql)];
      ok := sql !in rejects;
    }

    /** A parameterised insert of one row. */
    method Insert(row: Row)
      modifies this
      ensures events == old(events) + [Inserted(row)]
    {
      events := events + [Inserted(row)];
    }

    method CloseCursor()
      modifies this
      ensures events == old(events) + [CursorClosed]
    {
      events := events + [CursorClosed];
    }

    method Commit()
      modifies this
      ensures events == old(events) + [Committed]
    {
      events := events + [Committed];
    }

    method Close()
      modifies this
      ensures events == old(events) + [ConnectionClosed]
    {
      events := events + [ConnectionClosed];
    }
  }
}
