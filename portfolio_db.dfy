/**
 * The two insert operations of src/db_functions.py whose behaviour is decided in Python rather
 * than in SQL: `add_client`, which splits a full name into first and last name, and
 * `add_trade`, which refuses a side other than `BUY` or `SELL` before touching the database.
 */
module PortfolioDb {
  import opened PyText
  import opened Database

  datatype PersonName = PersonName(first: string, last: string)

  /**
   * The name is stripped and cut at its first space: first name before it, last name after it,
   * or an empty last name when there is no space.
   * The first name never holds a space; without a space the whole stripped name is the first
   * name; with one, first name, a space and last name spell the stripped name again.
   */
  function SplitName(name: string): (r: PersonName)
    ensures ' ' !in r.first
    ensures ' ' !in Strip(name) ==> r == PersonName(Strip(name), "")
    ensures ' ' in Strip(name) ==> r.first + " " + r.last == Strip(name)
  {
    var parts := SplitOnce(Strip(name), ' ');
    PersonName(parts[0], if |parts| > 1 then parts[1] else "")
  }

  /** A name that is not blank gives a non-empty first name: a stripped name cannot start with a space. */
  lemma FirstNameNonEmpty(name: string)
    requires !AllSpace(name)
    ensures SplitName(name).first != []
  {
    StripSpec(name);
  }

  /** A blank name gives an empty first and last name. */
  lemma BlankName(name: string)
    requires AllSpace(name)
    ensures SplitName(name) == PersonName("", "")
  {
    StripSpec(name);
  }

  /** Surrounding whitespace does not matter: the name is split after stripping. */
  lemma SplitNameStripped(name: string)
    ensures SplitName(Strip(name)) == SplitName(name)
  {
    StripIdempotent(name);
  }

  /**
   * Round trip: a first name without spaces, joined to a last name by one space, splits back
   * into the same two names, as long as the whole has no surrounding whitespace.
   */
  lemma SplitNameJoin(first: string, last: string)
    requires ' ' !in first && first != [] && !IsSpace(first[0])
    requires last != [] && !IsSpace(last[|last| - 1])
    ensures SplitName(first + " " + last) == PersonName(first, last)
  {
    var s := first + " " + last;
    assert s[0] == first[0] && s[|s| - 1] == last[|last| - 1];
    StripUnchanged(s);
    assert s[|first|] == ' ';
    var parts := SplitOnce(s, ' ');
    assert parts[0] == first by {
      assert parts[0] + " " + parts[1] == first + " " + last;
      assert parts[0] == s[..|parts[0]|];
    }
    assert parts[1] == s[|first| + 1..];
  }

  /** A single word with no surrounding whitespace is all first name. */
  lemma SplitNameSingle(first: string)
    requires ' ' !in first && first != [] && !IsSpace(first[0]) && !IsSpace(first[|first| - 1])
    ensures SplitName(first) == PersonName(first, "")
  {
    StripUnchanged(first);
  }

  /**
   * `add_client(conn, name)`: inserts the split name, commits, closes the cursor. The generated
   * `client_id` belongs to the database; the method returns the row it inserted instead.
   */
  method AddClient(conn: Connection, name: string) returns (client: PersonName)
    modifies conn
    ensures client == SplitName(name)
    ensures conn.events == old(conn.events) + [Inserted(ClientRow(client.first, client.last)), Committed, CursorClosed]
  {
    client := SplitName(name);
    conn.Insert(ClientRow(client.first, client.last));
    conn.Commit();
    conn.CloseCursor();
  }

  predicate IsSide(side: string) {
    side == "BUY" || side == "SELL"
  }

  datatype TradeOutcome = TradeAdded | SideError

  /**
   * `add_trade(...)`: a side other than `BUY` or `SELL` raises `ValueError` before a cursor is
   * opened, so nothing reaches the database; otherwise the trade is inserted and committed.
   * A missing `trade_date` is passed on as it is (the database fills in `NOW()`).
   */
  method AddTrade(conn: Connection, portfolioId: int, assetId: int, side: string, quantity: real,
                  price: real, tradeDate: Option<string>) returns (r: TradeOutcome)
    modifies conn
    ensures r == SideError <==> !IsSide(side)
    ensures r == SideError ==> conn.events == old(conn.events)
    ensures r == TradeAdded ==>
      conn.events == old(conn.events) +
        [Inserted(TradeRow(portfolioId, assetId, tradeDate, side, quantity, price)), Committed, CursorClosed]
  {
    if side != "BUY" && side != "SELL" {
      return SideError;
    }
    conn.Insert(TradeRow(portfolioId, assetId, tradeDate, side, quantity, price));
    conn.Commit();
    conn.CloseCursor();
    return TradeAdded;
  }
}
