/**
 * `format_query_results(results, columns)`: renders query rows as a text table, one line for
 * the header, a dashed separator and one line per row, every field left-justified to its
 * column's width. The same function is defined in src/main.py and scripts/manage_db.py.
 * Cells are taken as already converted with `str()`.
 */
module TextTable {
  import opened PyText

  /** The `IndexError` Python raises when a row's length differs from the number of columns. */
  datatype FormatError = IndexError

  datatype Result<T> = Ok(value: T) | Err(error: FormatError)

  type Row = seq<string>

  const NoResults: string := "No results found."
  const FieldSep: string := " | "
  const DashSep: string := "-+-"

  /** Every row has exactly `k` cells. */
  predicate Rectangular(results: seq<Row>, k: nat) {
    forall j :: 0 <= j < |results| ==> |results[j]| == k
  }

  /** The length of the widest cell of column `i`. */
  function CellMax(results: seq<Row>, i: nat): (m: nat)
    requires results != []
    requires forall j :: 0 <= j < |results| ==> i < |results[j]|
    ensures forall j :: 0 <= j < |results| ==> |results[j][i]| <= m
    ensures exists j :: 0 <= j < |results| && |results[j][i]| == m
  {
    if |results| == 1 then
      |results[0][i]|
    else
      var m := CellMax(results[1..], i);
      assert forall j :: 1 <= j < |results| ==> results[j] == results[1..][j - 1];
      if |results[0][i]| > m then |results[0][i]| else m
  }

  /**
   * `col_widths`: column `i` is as wide as the longer of its header and its widest cell, so the
   * width bounds every field of the column and equals the length of one of them.
   */
  function Widths(results: seq<Row>, columns: seq<string>): (w: seq<nat>)
    requires results != [] && Rectangular(results, |columns|)
    ensures |w| == |columns|
    ensures forall i :: 0 <= i < |w| ==>
      |columns[i]| <= w[i] && forall j :: 0 <= j < |results| ==> |results[j][i]| <= w[i]
    ensures forall i :: 0 <= i < |w| ==>
      w[i] == |columns[i]| || exists j :: 0 <= j < |results| && w[i] == |results[j][i]|
  {
    seq(|columns|, i requires 0 <= i < |columns| =>
      var m := CellMax(results, i);
      if |columns[i]| > m then |columns[i]| else m)
  }

  /** Left-justifies field `i` to width `w[i]`. */
  function Padded(fields: seq<string>, w: seq<nat>): seq<string>
    requires |fields| == |w|
  {
    seq(|fields|, i requires 0 <= i < |fields| => Ljust(fields[i], w[i]))
  }

  /** One line of the table: every field padded to its column's width, separated by `" | "`. */
  function FormatLine(fields: seq<string>, w: seq<nat>): string
    requires |fields| == |w|
  {
    Join(Padded(fields, w), FieldSep)
  }

  function Dashes(w: seq<nat>): seq<string>
  {
    seq(|w|, i requires 0 <= i < |w| => Repeat('-', w[i]))
  }

  /** The line under the header: a run of dashes as wide as each column, runs separated by `"-+-"`. */
  function Separator(w: seq<nat>): string
  {
    Join(Dashes(w), DashSep)
  }

  /** The header line, the separator and one line per row, in that order. */
  function Lines(results: seq<Row>, columns: seq<string>): seq<string>
    requires results != [] && Rectangular(results, |columns|)
  {
    var w := Widths(results, columns);
    [FormatLine(columns, w), Separator(w)] + seq(|results|, j requires 0 <= j < |results| => FormatLine(results[j], w))
  }

  /**
   * `format_query_results`: the fixed message for no rows, the `IndexError` for a row whose
   * length is not the number of columns, and otherwise the lines joined with newlines.
   */
  function FormatQueryResults(results: seq<Row>, columns: seq<string>): (r: Result<string>)
    ensures results == [] ==> r == Ok(NoResults)
    ensures results != [] ==> (r.Err? <==> !Rectangular(results, |columns|))
    ensures r.Ok? && results != [] ==> r.value == Join(Lines(results, columns), "\n")
  {
    if results == [] then Ok(NoResults)
    else if !Rectangular(results, |columns|) then Err(IndexError)
    else Ok(Join(Lines(results, columns), "\n"))
  }

  /** Total width of a line: the column widths plus three characters between neighbours. */
  function LineWidth(w: seq<nat>): nat
  {
    if w == [] then 0 else Sum(w) + 3 * (|w| - 1)
  }

  /** A left-justified field is as wide as its column whenever the column is wide enough. */
  lemma PaddedLengths(fields: seq<string>, w: seq<nat>)
    requires |fields| == |w|
    requires forall i :: 0 <= i < |w| ==> |fields[i]| <= w[i]
    ensures forall i :: 0 <= i < |w| ==> |Padded(fields, w)[i]| == w[i]
  {
  }

  /**
   * A line of fields that fit their columns: its length is `LineWidth(w)`, column `i` occupies
   * `w[i]` characters from `Offset(w, 3, i)` on (what it holds is `LineCell`), and `" | "`
   * separates it from the next column.
   */
  lemma {:induction false} LineLayout(fields: seq<string>, w: seq<nat>, i: nat)
    requires |fields| == |w| && i < |w|
    requires forall k :: 0 <= k < |w| ==> |fields[k]| <= w[k]
    ensures |FormatLine(fields, w)| == LineWidth(w)
    ensures Offset(w, 3, i) + w[i] <= LineWidth(w)
    ensures i + 1 < |w| ==> Offset(w, 3, i) + w[i] + 3 == Offset(w, 3, i + 1) <= LineWidth(w)
    ensures i + 1 < |w| ==> FormatLine(fields, w)[Offset(w, 3, i) + w[i]..Offset(w, 3, i + 1)] == FieldSep
  {
    var parts := Padded(fields, w);
    PaddedLengths(fields, w);
    JoinLength(parts, FieldSep, w);
    if i + 1 < |w| {
      JoinSepAt(parts, FieldSep, w, i);
    }
    JoinPartAt(parts, FieldSep, w, i);
  }

  /** Column `i` of a line: the field's text, then spaces up to the column width. */
  lemma LineCell(fields: seq<string>, w: seq<nat>, i: nat)
    requires |fields| == |w| && i < |w|
    requires forall k :: 0 <= k < |w| ==> |fields[k]| <= w[k]
    ensures Offset(w, 3, i) + w[i] <= |FormatLine(fields, w)|
    ensures FormatLine(fields, w)[Offset(w, 3, i)..Offset(w, 3, i) + |fields[i]|] == fields[i]
    ensures forall p :: Offset(w, 3, i) + |fields[i]| <= p < Offset(w, 3, i) + w[i] ==>
      FormatLine(fields, w)[p] == ' '
  {
    var parts := Padded(fields, w);
    PaddedLengths(fields, w);
    JoinPartAt(parts, FieldSep, w, i);
    LjustWithin(FormatLine(fields, w), Offset(w, 3, i), fields[i], w[i]);
  }

  /** The separator: `w[i]` dashes for column `i`, joined by `"-+-"`, as long as every other line. */
  lemma {:induction false} SeparatorLayout(w: seq<nat>, i: nat)
    requires i < |w|
    ensures |Separator(w)| == LineWidth(w)
    ensures Offset(w, 3, i) + w[i] <= LineWidth(w)
    ensures forall p :: Offset(w, 3, i) <= p < Offset(w, 3, i) + w[i] ==> Separator(w)[p] == '-'
    ensures i + 1 < |w| ==> Offset(w, 3, i) + w[i] + 3 == Offset(w, 3, i + 1) <= LineWidth(w)
    ensures i + 1 < |w| ==> Separator(w)[Offset(w, 3, i) + w[i]..Offset(w, 3, i + 1)] == DashSep
  {
    var parts := Dashes(w);
    JoinLength(parts, DashSep, w);
    JoinPartAt(parts, DashSep, w, i);
    if i + 1 < |w| {
      JoinSepAt(parts, DashSep, w, i);
    }
    var s := Separator(w);
    var o := Offset(w, 3, i);
    var run := Repeat('-', w[i]);
    assert s[o..o + w[i]] == parts[i] == run;
    forall p | o <= p < o + w[i] ensures s[p] == '-' {
      assert s[p] == s[o..o + w[i]][p - o] == run[p - o];
    }
  }

  /**
   * With at least one row of the right length, the header, the separator and every row line
   * all have length `LineWidth(Widths(...))`, i.e. `sum(widths) + 3 * (k - 1)` for `k` columns.
   */
  lemma {:induction false} LinesEqualLength(results: seq<Row>, columns: seq<string>)
    requires results != [] && Rectangular(results, |columns|)
    ensures |Lines(results, columns)| == |results| + 2
    ensures forall k :: 0 <= k < |Lines(results, columns)| ==>
      |Lines(results, columns)[k]| == LineWidth(Widths(results, columns))
  {
    var w := Widths(results, columns);
    var lines := Lines(results, columns);
    if w == [] {
      forall k | 0 <= k < |lines| ensures |lines[k]| == 0 {
        assert Padded(columns, w) == [] && Dashes(w) == [];
        if k >= 2 {
          assert lines[k] == FormatLine(results[k - 2], w);
          assert Padded(results[k - 2], w) == [];
        }
      }
    } else {
      forall k | 0 <= k < |lines| ensures |lines[k]| == LineWidth(w) {
        if k == 0 {
          LineLayout(columns, w, 0);
        } else if k == 1 {
          SeparatorLayout(w, 0);
        } else {
          assert lines[k] == FormatLine(results[k - 2], w);
          LineLayout(results[k - 2], w, 0);
        }
      }
    }
  }

  /** A line of the table contains a character other than a space only if one of its fields does. */
  lemma LineExcludes(fields: seq<string>, w: seq<nat>, c: char)
    requires |fields| == |w| && c != ' ' && c !in FieldSep
    requires forall k :: 0 <= k < |fields| ==> c !in fields[k]
    ensures c !in FormatLine(fields, w)
  {
    var parts := Padded(fields, w);
    JoinExcludes(parts, FieldSep, c);
  }

  /**
   * When no header or cell contains a newline, splitting the rendered table on newlines gives
   * back exactly the header, the separator and the row lines in the order of `results`,
   * `|results| + 2` lines in all.
   */
  lemma {:induction false} OutputLines(results: seq<Row>, columns: seq<string>)
    requires results != [] && Rectangular(results, |columns|)
    requires forall i :: 0 <= i < |columns| ==> '\n' !in columns[i]
    requires forall j, i :: 0 <= j < |results| && 0 <= i < |columns| ==> '\n' !in results[j][i]
    ensures FormatQueryResults(results, columns).Ok?
    ensures Split(FormatQueryResults(results, columns).value, '\n') == Lines(results, columns)
    ensures |Split(FormatQueryResults(results, columns).value, '\n')| == |results| + 2
  {
    var w := Widths(results, columns);
    var lines := Lines(results, columns);
    forall k | 0 <= k < |lines| ensures '\n' !in lines[k] {
      if k == 0 {
        LineExcludes(columns, w, '\n');
      } else if k == 1 {
        JoinExcludes(Dashes(w), DashSep, '\n');
      } else {
        assert lines[k] == FormatLine(results[k - 2], w);
        LineExcludes(results[k - 2], w, '\n');
      }
    }
    SplitJoin(lines, '\n');
  }

  /**
   * What the CLI prints after a query: it renders the table (which may still raise) only when
   * the query returned both rows and column names, and prints nothing otherwise.
   */
  function Displayed(results: seq<Row>, columns: seq<string>): (r: Result<Option<string>>)
    ensures r == Ok(None) <==> results == [] || columns == []
    ensures r.Err? <==> results != [] && columns != [] && !Rectangular(results, |columns|)
    ensures r.Ok? && r.value.Some? ==> FormatQueryResults(results, columns) == Ok(r.value.value)
  {
    if results != [] && columns != [] then
      match FormatQueryResults(results, columns)
      case Ok(s) => Ok(Some(s))
      case Err(e) => Err(e)
    else
      Ok(None)
  }

  /**
   * Because of that guard the CLIs never print `"No results found."`: an empty result prints
   * nothing, and a rendered table has at least three lines, so it contains a newline.
   */
  lemma NeverDisplaysNoResults(results: seq<Row>, columns: seq<string>)
    ensures Displayed(results, columns) != Ok(Some(NoResults))
  {
    if results != [] && columns != [] && Rectangular(results, |columns|) {
      var lines := Lines(results, columns);
      var out := Join(lines, "\n");
      assert out == lines[0] + "\n" + Join(lines[1..], "\n");
      assert out[|lines[0]|] == '\n';
      assert '\n' !in NoResults;
    }
  }
}
