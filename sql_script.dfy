/**
 * The SQL-script loader shared by `load_sample_data` and `create_tables` (src/db_functions.py,
 * and their copies in scripts/db_functions.py) and by `run_schema` (scripts/setup_db.py):
 * split the file text on `;`, strip every piece, skip the empty ones, execute each of the
 * others with a `;` put back, in file order, then close the cursor, commit and close the
 * connection. Reading the file is left to the caller: the text is a parameter.
 */
module SqlScript {
  import opened PyText
  import opened Database

  /** Every `;`-piece of the script, stripped, in order. */
  function Bodies(pieces: seq<string>): seq<string>
  {
    seq(|pieces|, k requires 0 <= k < |pieces| => Strip(pieces[k]))
  }

  /** Stripping works piece by piece: the bodies of two runs of pieces are concatenated. */
  lemma BodiesAppend(a: seq<string>, b: seq<string>)
    ensures Bodies(a + b) == Bodies(a) + Bodies(b)
  {
    var l, r := Bodies(a + b), Bodies(a) + Bodies(b);
    assert |l| == |r|;
    forall k | 0 <= k < |l| ensures l[k] == r[k] {
      if k < |a| {
        assert (a + b)[k] == a[k];
      } else {
        assert (a + b)[k] == b[k - |a|];
      }
    }
  }

  /** The statements the loop sends for the stripped pieces `bodies`: each non-empty one plus `;`. */
  function Kept(bodies: seq<string>): seq<string>
  {
    if bodies == [] then []
    else if bodies[|bodies| - 1] == [] then Kept(bodies[..|bodies| - 1])
    else Kept(bodies[..|bodies| - 1]) + [bodies[|bodies| - 1] + ";"]
  }

  /** The statements executed for script `text`, in the order they are executed. */
  function Statements(text: string): seq<string>
  {
    Kept(Bodies(Split(text, ';')))
  }

  /** A statement as the loop sends it: a non-empty body without `;` or outer whitespace, then `;`. */
  predicate WellFormed(st: string) {
    && |st| >= 2
    && st[|st| - 1] == ';'
    && ';' !in st[..|st| - 1]
    && Strip(st[..|st| - 1]) == st[..|st| - 1]
  }

  /** Only whitespace and `;`: a script with nothing to execute. */
  predicate Blank(text: string) {
    forall k :: 0 <= k < |text| ==> IsSpace(text[k]) || text[k] == ';'
  }

  lemma {:induction false} KeptAppend(a: seq<string>, b: seq<string>)
    ensures Kept(a + b) == Kept(a) + Kept(b)
  {
    if b != [] {
      var b' := b[..|b| - 1];
      assert (a + b)[..|a + b| - 1] == a + b';
      assert (a + b)[|a + b| - 1] == b[|b| - 1];
      KeptAppend(a, b');
    } else {
      assert a + b == a;
    }
  }

  lemma {:induction false} KeptLength(bodies: seq<string>)
    ensures |Kept(bodies)| <= |bodies|
  {
    if bodies != [] {
      KeptLength(bodies[..|bodies| - 1]);
    }
  }

  /** Nothing is kept exactly when every body is empty. */
  lemma {:induction false} KeptEmpty(bodies: seq<string>)
    ensures Kept(bodies) == [] <==> forall k :: 0 <= k < |bodies| ==> bodies[k] == []
  {
    if bodies != [] {
      var init := bodies[..|bodies| - 1];
      KeptEmpty(init);
      assert forall k :: 0 <= k < |init| ==> init[k] == bodies[k];
    }
  }

  /** A piece free of `;` yields a well-formed statement, if it yields one at all. */
  lemma StripWellFormed(piece: string)
    requires ';' !in piece && Strip(piece) != []
    ensures WellFormed(Strip(piece) + ";")
  {
    var body := Strip(piece);
    var i := SkipSpaceFrom(piece, 0);
    StripTrims(piece);
    assert body == piece[i..i + |body|];
    assert (body + ";")[..|body|] == body;
    StripIdempotent(piece);
  }

  lemma {:induction false} KeptWellFormed(bodies: seq<string>)
    requires forall k :: 0 <= k < |bodies| ==> bodies[k] != [] ==> WellFormed(bodies[k] + ";")
    ensures forall k :: 0 <= k < |Kept(bodies)| ==> WellFormed(Kept(bodies)[k])
  {
    if bodies != [] {
      KeptWellFormed(bodies[..|bodies| - 1]);
    }
  }

  /**
   * Every executed statement ends with `;`, contains no other `;`, and has a non-empty body
   * that stripping leaves unchanged.
   */
  lemma StatementsWellFormed(text: string)
    ensures forall k :: 0 <= k < |Statements(text)| ==> WellFormed(Statements(text)[k])
  {
    var pieces := Split(text, ';');
    var bodies := Bodies(pieces);
    forall k | 0 <= k < |bodies| && bodies[k] != [] ensures WellFormed(bodies[k] + ";") {
      StripWellFormed(pieces[k]);
    }
    KeptWellFormed(bodies);
  }

  /** At most one statement per `;`-piece: no more than the number of `;` plus one. */
  lemma StatementsCount(text: string)
    ensures |Statements(text)| <= Count(text, ';') + 1
  {
    KeptLength(Bodies(Split(text, ';')));
  }

  /** Scripts joined by a `;` execute the first script's statements and then the second's. */
  lemma StatementsConcat(a: string, b: string)
    ensures Statements(a + ";" + b) == Statements(a) + Statements(b)
  {
    var pa, pb := Split(a, ';'), Split(b, ';');
    assert a + ";" + b == a + [';'] + b;
    SplitConcat(a, b, ';');
    assert Split(a + ";" + b, ';') == pa + pb;
    BodiesAppend(pa, pb);
    KeptAppend(Bodies(pa), Bodies(pb));
  }

  lemma BlankConcat(a: string, b: string)
    ensures Blank(a + b) <==> Blank(a) && Blank(b)
  {
    assert forall k :: 0 <= k < |a| ==> (a + b)[k] == a[k];
    assert forall k :: 0 <= k < |b| ==> (a + b)[|a| + k] == b[k];
  }

  lemma {:induction false} BlankJoin(parts: seq<string>)
    ensures Blank(Join(parts, ";")) <==> forall k :: 0 <= k < |parts| ==> Blank(parts[k])
  {
    if |parts| > 1 {
      BlankJoin(parts[1..]);
      BlankConcat(parts[0] + ";", Join(parts[1..], ";"));
      BlankConcat(parts[0], ";");
      assert forall k :: 1 <= k < |parts| ==> parts[k] == parts[1..][k - 1];
    }
  }

  /** Nothing is executed exactly when the text holds nothing but whitespace and `;`. */
  lemma StatementsEmpty(text: string)
    ensures Statements(text) == [] <==> Blank(text)
  {
    var pieces := Split(text, ';');
    var bodies := Bodies(pieces);
    KeptEmpty(bodies);
    BlankJoin(pieces);
    forall k | 0 <= k < |pieces| ensures bodies[k] == [] <==> Blank(pieces[k]) {
      StripSpec(pieces[k]);
      assert ';' !in pieces[k];
    }
  }

  /** Non-empty bodies are kept one statement each, in order. */
  lemma {:induction false} KeptAll(bodies: seq<string>)
    requires forall k :: 0 <= k < |bodies| ==> bodies[k] != []
    ensures |Kept(bodies)| == |bodies|
    ensures forall k :: 0 <= k < |bodies| ==> Kept(bodies)[k] == bodies[k] + ";"
  {
    if bodies != [] {
      KeptAll(bodies[..|bodies| - 1]);
    }
  }

  /**
   * Round trip: writing clean statement bodies out separated by `;` and loading the result
   * executes exactly those bodies, each with its `;`, in order.
   */
  lemma ScriptRoundTrip(bodies: seq<string>)
    requires forall k :: 0 <= k < |bodies| ==> ';' !in bodies[k]
    requires forall k :: 0 <= k < |bodies| ==>
      bodies[k] != [] && !IsSpace(bodies[k][0]) && !IsSpace(bodies[k][|bodies[k]| - 1])
    ensures |Statements(Join(bodies, ";"))| == |bodies|
    ensures forall k :: 0 <= k < |bodies| ==> Statements(Join(bodies, ";"))[k] == bodies[k] + ";"
  {
    if bodies == [] {
      assert Split([], ';') == [[]];
      StripUnchanged([]);
    } else {
      SplitJoin(bodies, ';');
      forall k | 0 <= k < |bodies| ensures Bodies(bodies)[k] == bodies[k] {
        StripUnchanged(bodies[k]);
      }
      assert Bodies(bodies) == bodies;
      KeptAll(bodies);
    }
  }

  datatype Outcome = Completed | Failed(statement: string)

  /** The server accepts every statement of `stmts`. */
  predicate Accepted(stmts: seq<string>, rejects: set<string>) {
    forall k :: 0 <= k < |stmts| ==> stmts[k] !in rejects
  }

  /** `n` is the first statement of `stmts` the server refuses. */
  predicate FailsFirstAt(stmts: seq<string>, rejects: set<string>, n: nat) {
    && n < |stmts|
    && stmts[n] in rejects
    && forall k :: 0 <= k < n ==> stmts[k] !in rejects
  }

  /** The position, from `i` on, of the first statement the server refuses, or `|stmts|`. */
  function FirstRefusedFrom(stmts: seq<string>, rejects: set<string>, i: nat): (n: nat)
    requires i <= |stmts|
    ensures i <= n <= |stmts|
    ensures forall k :: i <= k < n ==> stmts[k] !in rejects
    ensures n < |stmts| ==> stmts[n] in rejects
    decreases |stmts| - i
  {
    if i < |stmts| && stmts[i] !in rejects then FirstRefusedFrom(stmts, rejects, i + 1) else i
  }

  /** The position of the first statement the server refuses, or `|stmts|` if it refuses none. */
  function FirstRefused(stmts: seq<string>, rejects: set<string>): nat
  {
    FirstRefusedFrom(stmts, rejects, 0)
  }

  /** `FirstRefused` finds exactly the first refusal, and runs off the end exactly when all are accepted. */
  lemma FirstRefusedSpec(stmts: seq<string>, rejects: set<string>, n: nat)
    ensures FirstRefused(stmts, rejects) == |stmts| <==> Accepted(stmts, rejects)
    ensures FailsFirstAt(stmts, rejects, n) <==> FirstRefused(stmts, rejects) == n < |stmts|
  {
    var m := FirstRefused(stmts, rejects);
    if m < |stmts| {
      assert !Accepted(stmts, rejects);
    }
  }

  /**
   * What running the statements `stmts` does to a connection whose log was `before`: if the
   * server accepts every statement, all are executed in order, then the cursor is closed, the
   * transaction committed once and the connection closed. Otherwise the statements up to and
   * including the first refused one are executed and the error propagates: no commit, no close.
   */
  predicate RanScript(before: seq<Event>, after: seq<Event>, rejects: set<string>, stmts: seq<string>, r: Outcome) {
    var n := FirstRefused(stmts, rejects);
    if n == |stmts| then
      r == Completed && after == before + Executions(stmts) + [CursorClosed, Committed, ConnectionClosed]
    else
      r == Failed(stmts[n]) && after == before + Executions(stmts[..n + 1])
  }

  /**
   * The loader's loop over the `;`-pieces of the text, executing each non-empty stripped piece
   * with its `;` put back, followed by closing the cursor, committing and closing the connection.
   */
  method ExecuteScript(conn: Connection, text: string) returns (r: Outcome)
    modifies conn
    ensures RanScript(old(conn.events), conn.events, conn.rejects, Statements(text), r)
  {
    var pieces := Split(text, ';');
    ghost var bodies := Bodies(pieces);
    ghost var before := conn.events;
    for i := 0 to |pieces|
      invariant conn.events == before + Executions(Kept(bodies[..i]))
      invariant Accepted(Kept(bodies[..i]), conn.rejects)
    {
      KeptStep(bodies, i);
      LogStep(before, bodies, i);
      var statement := Strip(pieces[i]);
      if statement != [] {
        var ok := conn.Execute(statement + ";");
        if !ok {
          Refused(before, bodies, i, conn.rejects);
          return Failed(statement + ";");
        }
        AcceptedAppend(Kept(bodies[..i]), statement + ";", conn.rejects);
      }
    }
    assert bodies[..|pieces|] == bodies;
    conn.CloseCursor();
    conn.Commit();
    conn.Close();
    RanCompleted(Kept(bodies), conn.rejects, before, conn.events);
    return Completed;
  }

  lemma AcceptedAppend(stmts: seq<string>, st: string, rejects: set<string>)
    requires Accepted(stmts, rejects) && st !in rejects
    ensures Accepted(stmts + [st], rejects)
  {
    assert forall k :: 0 <= k < |stmts| ==> (stmts + [st])[k] == stmts[k];
  }

  /** One more body extends what is kept by its statement, if it has one. */
  lemma KeptStep(bodies: seq<string>, i: nat)
    requires i < |bodies|
    ensures Kept(bodies[..i + 1]) == Kept(bodies[..i]) + (if bodies[i] == [] then [] else [bodies[i] + ";"])
  {
    assert bodies[..i + 1][..i] == bodies[..i];
  }

  /** The log after one more body: unchanged for an empty body, one more execution otherwise. */
  lemma LogStep(before: seq<Event>, bodies: seq<string>, i: nat)
    requires i < |bodies|
    ensures before + Executions(Kept(bodies[..i + 1]))
         == if bodies[i] == [] then before + Executions(Kept(bodies[..i]))
            else before + Executions(Kept(bodies[..i])) + [Executed(bodies[i] + ";")]
  {
    KeptStep(bodies, i);
    var e := Executions(Kept(bodies[..i]));
    if bodies[i] == [] {
      assert Kept(bodies[..i]) + [] == Kept(bodies[..i]);
    } else {
      ExecutionsAppend(Kept(bodies[..i]), [bodies[i] + ";"]);
      assert Executions([bodies[i] + ";"]) == [Executed(bodies[i] + ";")];
      assert before + (e + [Executed(bodies[i] + ";")]) == before + e + [Executed(bodies[i] + ";")];
    }
  }

  /** What a prefix of the bodies keeps is a prefix of what all of them keep. */
  lemma KeptPrefix(bodies: seq<string>, j: nat)
    requires j <= |bodies|
    ensures |Kept(bodies[..j])| <= |Kept(bodies)|
    ensures Kept(bodies)[..|Kept(bodies[..j])|] == Kept(bodies[..j])
  {
    assert bodies == bodies[..j] + bodies[j..];
    KeptAppend(bodies[..j], bodies[j..]);
  }

  /** The statement of body `i`, refused after all earlier ones were accepted, is the first refused. */
  lemma FirstRefusal(bodies: seq<string>, i: nat, rejects: set<string>)
    requires i < |bodies| && bodies[i] != [] && bodies[i] + ";" in rejects
    requires Accepted(Kept(bodies[..i]), rejects)
    ensures FailsFirstAt(Kept(bodies), rejects, |Kept(bodies[..i])|)
    ensures Kept(bodies)[..|Kept(bodies[..i])| + 1] == Kept(bodies[..i]) + [bodies[i] + ";"]
  {
    KeptStep(bodies, i);
    KeptPrefix(bodies, i + 1);
    var stmts := Kept(bodies);
    var n := |Kept(bodies[..i])|;
    assert stmts[..n + 1] == Kept(bodies[..i]) + [bodies[i] + ";"];
    assert forall k :: 0 <= k < n ==> stmts[k] == stmts[..n + 1][k];
  }

  /** Body `i`'s statement is the first one refused, and the log of the run ends with it. */
  lemma RefusedAt(bodies: seq<string>, i: nat, rejects: set<string>)
    requires i < |bodies| && bodies[i] != [] && bodies[i] + ";" in rejects
    requires Accepted(Kept(bodies[..i]), rejects)
    ensures FirstRefused(Kept(bodies), rejects) == |Kept(bodies[..i])| < |Kept(bodies)|
    ensures Kept(bodies)[|Kept(bodies[..i])|] == bodies[i] + ";"
    ensures Executions(Kept(bodies)[..|Kept(bodies[..i])| + 1])
         == Executions(Kept(bodies[..i])) + [Executed(bodies[i] + ";")]
  {
    FirstRefusal(bodies, i, rejects);
    FirstRefusedSpec(Kept(bodies), rejects, |Kept(bodies[..i])|);
    ExecutionsAppend(Kept(bodies[..i]), [bodies[i] + ";"]);
    assert Executions([bodies[i] + ";"]) == [Executed(bodies[i] + ";")];
  }

  lemma RanFailed(stmts: seq<string>, n: nat, rejects: set<string>, before: seq<Event>, after: seq<Event>)
    requires FirstRefused(stmts, rejects) == n < |stmts|
    requires after == before + Executions(stmts[..n + 1])
    ensures RanScript(before, after, rejects, stmts, Failed(stmts[n]))
  {
  }

  lemma RanCompleted(stmts: seq<string>, rejects: set<string>, before: seq<Event>, after: seq<Event>)
    requires Accepted(stmts, rejects)
    requires after == before + Executions(stmts) + [CursorClosed, Committed, ConnectionClosed]
    ensures RanScript(before, after, rejects, stmts, Completed)
  {
    FirstRefusedSpec(stmts, rejects, 0);
  }

  /** The loop stops at body `i` when the statement it makes is the first one refused. */
  lemma Refused(before: seq<Event>, bodies: seq<string>, i: nat, rejects: set<string>)
    requires i < |bodies| && bodies[i] != [] && bodies[i] + ";" in rejects
    requires Accepted(Kept(bodies[..i]), rejects)
    ensures RanScript(before, before + Executions(Kept(bodies[..i])) + [Executed(bodies[i] + ";")],
                      rejects, Kept(bodies), Failed(bodies[i] + ";"))
  {
    var e, x := Executions(Kept(bodies[..i])), [Executed(bodies[i] + ";")];
    RefusedAt(bodies, i, rejects);
    assert before + e + x == before + (e + x);
    RanFailed(Kept(bodies), |Kept(bodies[..i])|, rejects, before, before + e + x);
  }

  /** A run completes exactly when the server accepts every statement. */
  lemma CompletedIffAccepted(before: seq<Event>, after: seq<Event>, rejects: set<string>, stmts: seq<string>, r: Outcome)
    requires RanScript(before, after, rejects, stmts, r)
    ensures r.Completed? <==> Accepted(stmts, rejects)
  {
    FirstRefusedSpec(stmts, rejects, 0);
  }

  /** On a refused statement the log gains only executions: nothing is committed or closed. */
  lemma FailureLeavesUncommitted(before: seq<Event>, after: seq<Event>, rejects: set<string>, stmts: seq<string>, r: Outcome)
    requires RanScript(before, after, rejects, stmts, r) && r.Failed?
    ensures |before| < |after| && after[..|before|] == before
    ensures after[|after| - 1] == Executed(r.statement) && r.statement in rejects
    ensures forall k :: |before| <= k < |after| ==> after[k].Executed?
  {
    var n := FirstRefused(stmts, rejects);
    var run := Executions(stmts[..n + 1]);
    ExecutionsSpec(stmts[..n + 1]);
    assert after[..|before|] == before;
    assert forall k :: |before| <= k < |after| ==> after[k] == run[k - |before|];
  }

  /** On success the log gains the executions in order, then exactly one commit between the two closes. */
  lemma SuccessCommitsOnce(before: seq<Event>, after: seq<Event>, rejects: set<string>, stmts: seq<string>, r: Outcome)
    requires RanScript(before, after, rejects, stmts, r) && r.Completed?
    ensures |after| == |before| + |stmts| + 3 && after[..|before|] == before
    ensures forall k :: 0 <= k < |stmts| ==> after[|before| + k] == Executed(stmts[k])
    ensures after[|after| - 3..] == [CursorClosed, Committed, ConnectionClosed]
  {
    var run := Executions(stmts);
    ExecutionsSpec(stmts);
    assert after[..|before|] == before;
    assert forall k :: 0 <= k < |stmts| ==> after[|before| + k] == run[k];
  }

  /** A script of only whitespace and `;` executes nothing and still closes, commits and closes. */
  lemma BlankScriptCommits(before: seq<Event>, after: seq<Event>, rejects: set<string>, text: string, r: Outcome)
    requires Blank(text)
    ensures RanScript(before, after, rejects, Statements(text), r) <==>
      r == Completed && after == before + [CursorClosed, Committed, ConnectionClosed]
  {
    StatementsEmpty(text);
  }

  /** `load_sample_data(conn)`, given the text of sql/insert_sample_data.sql. */
  method LoadSampleData(conn: Connection, sampleSql: string) returns (r: Outcome)
    modifies conn
    ensures RanScript(old(conn.events), conn.events, conn.rejects, Statements(sampleSql), r)
  {
    r := ExecuteScript(conn, sampleSql);
  }

  /** `create_tables(conn)`, given the text of sql/schema.sql. */
  method CreateTables(conn: Connection, schemaSql: string) returns (r: Outcome)
    modifies conn
    ensures RanScript(old(conn.events), conn.events, conn.rejects, Statements(schemaSql), r)
  {
    r := ExecuteScript(conn, schemaSql);
  }

  /** `run_schema()`: opens its own connection to a server refusing `rejects`, then runs sql/schema.sql. */
  method RunSchema(rejects: set<string>, schemaSql: string) returns (conn: Connection, r: Outcome)
    ensures fresh(conn) && conn.rejects == rejects
    ensures RanScript([], conn.events, rejects, Statements(schemaSql), r)
  {
    conn := new Connection(rejects);
    r := ExecuteScript(conn, schemaSql);
  }
}
