# Portfolio database CLI: the Python-side logic, modelled and proved in Dafny

The portfolio tool is a thin command-line front end to PostgreSQL. Most of what it does is SQL
that the database runs. This project models the routines that are decided in Python, and proves
what they promise:

- **Text-table rendering.** `format_query_results` (module `TextTable`) is defined identically
  in src/main.py and scripts/manage_db.py. The module also covers the CLI guard
  `if results and columns:` that decides whether a table is printed.
- **SQL-script loading.** `load_sample_data` and `create_tables` in src/db_functions.py (with
  identical copies in scripts/db_functions.py) and `run_schema` in scripts/setup_db.py all work
  the same way:
  - split the file text on `;`;
  - strip every piece and skip the empty ones;
  - execute the rest with `;` re-appended, in file order;
  - close the cursor, commit once, and close the connection.
  These are modules `SqlScript` and `Database`.
- **Migration numbering.** `create_migration_file` in scripts/create_migration.py (module
  `Migrations`) works in three steps:
  - it takes the `.sql` names of the migrations directory whose text before the first `_` is
    all digits;
  - it allocates `max(numbers, default=0) + 1`;
  - it creates `f"{n:03d}_{name}.sql"`.
- **Name splitting and the trade-side rule.** `add_client` splits a full name as
  `strip().split(' ', 1)`. `add_trade` refuses a side other than `BUY`/`SELL` before it
  touches the database. Both are in module `PortfolioDb`.
- **Python string built-ins.** These are stated over `seq<char>` in module `PyText`: `strip`,
  `split`, `split(sep, 1)`, `join`, `ljust`, `isdigit`, `int`, `str` and the `03d` format.

The database connection is modelled as a class whose only state is an append-only log of
events. The events are:

- a statement executed;
- a row inserted by a parameterised `INSERT`;
- the cursor closed;
- the transaction committed;
- the connection closed.

The server's only modelled behaviour is a fixed set of statement texts it refuses. For such a
statement `cursor.execute` raises, and the error propagates out of the loader.

Two details follow from the code:

- Rendering is guarded by `if results and columns:` (src/main.py:197, scripts/manage_db.py:119).
  So the `"No results found."` branch of `format_query_results` can never reach the screen.
  `TextTable.NeverDisplaysNoResults` proves this.
- When a script statement fails, the loader neither commits nor closes the connection.

Files: `pytext.dfy`, `text_table.dfy`, `database.dfy`, `sql_script.dfy`, `migrations.dfy`,
`portfolio_db.dfy`.

## Model

| member | source | states |
|---|---|---|
| PyText.Strip | src/db_functions.py:287 | `str.strip()`: removes leading and trailing `isspace()` characters. `StripSpec`, `StripTrims`, `StripUnchanged` and `StripIdempotent` specify it. |
| PyText.StripSpec | src/db_functions.py:287 | `strip()` returns `""` exactly when the string is all whitespace. Otherwise the result neither starts nor ends with whitespace. |
| PyText.StripTrims | src/db_functions.py:287 | `strip()` removes only whitespace: the result is the part of the string between an all-whitespace prefix and an all-whitespace suffix. |
| PyText.StripUnchanged | src/db_functions.py:287 | A string with no whitespace at either end is its own `strip()`. |
| PyText.StripIdempotent | src/db_functions.py:238 | Stripping twice gives the same as stripping once. |
| PyText.Join | src/main.py:15 | `sep.join(parts)`: the parts with the separator between neighbours. `JoinLength`, `JoinPartAt`, `JoinSepAt`, `Split` and `SplitJoin` specify it. |
| PyText.Split | src/db_functions.py:286 | `s.split(sep)` has one more piece than `s` has separators. No piece contains the separator, and the pieces joined by the separator give back `s`. |
| PyText.SplitConcat | src/db_functions.py:286 | Splitting `a + sep + b` gives the pieces of `a` followed by the pieces of `b`. |
| PyText.SplitJoin | src/db_functions.py:286 | `split` inverts `join` when no part contains the separator. |
| PyText.SplitOnce | src/db_functions.py:238 | `s.split(' ', 1)` is `[s]` when `s` has no space. Otherwise it has two parts, the first without a space, and first + space + second is `s`. |
| PyText.Ljust | src/main.py:12 | `s.ljust(width)` has length `max(len(s), width)`, starts with `s`, and is padded with spaces only. |
| PyText.JoinLength | src/main.py:12 | A join of parts with lengths `ws` has length `sum(ws) + len(sep) * (len(ws) - 1)`. |
| PyText.JoinPartAt | src/main.py:12 | In `sep.join(parts)`, part `i` sits exactly at offset `Offset(ws, len(sep), i)`. |
| PyText.JoinSepAt | src/main.py:13 | In `sep.join(parts)`, the separator sits right after every part but the last, and the next part starts after it. |
| PyText.LjustWithin | src/main.py:14 | Where a line holds `s.ljust(w)`, it holds the text of `s` and then spaces up to width `w`. |
| PyText.ParseNat | scripts/create_migration.py:10 | `int()` on a string of ASCII digits. `Decimal` and `ZeroPadParses` state that it reads back what `str(n)` and the zero-padded format write. |
| PyText.Decimal | scripts/create_migration.py:12 | `str(n)` is a non-empty digit string with no leading zero that `int()` parses back to `n`. |
| PyText.DecimalLength | scripts/create_migration.py:12 | `str(n)` has at most `k` digits exactly when `n < 10^k`. |
| PyText.ZeroPad | scripts/create_migration.py:12 | `f"{n:0Wd}"` is all digits and has length `max(W, len(str(n)))`. It ends with `str(n)` and has only zeros before it. |
| PyText.ZeroPadParses | scripts/create_migration.py:10 | `int()` of the zero-padded text gives back `n`. |
| TextTable.CellMax | src/main.py:11 | The widest cell of a column is at least as long as every cell in the column and equals one of them. |
| TextTable.Widths | src/main.py:11 | Each column width is at least the header's length and every cell's length in that column. It equals one of them, so it is their maximum. |
| TextTable.FormatLine | src/main.py:12-14 | A header or row line: each field padded to its column width, separated by `" | "`. `LineLayout`, `LineCell` and `LineExcludes` specify it. |
| TextTable.Separator | src/main.py:13 | The dashed line under the header. `SeparatorLayout` specifies it. |
| TextTable.Lines | src/main.py:12-15 | The header, the separator and the row lines, in that order. `LinesEqualLength` and `OutputLines` specify it. |
| TextTable.FormatQueryResults | src/main.py:8-15 | Empty `results` give exactly `"No results found."`. Otherwise the result is an `IndexError` exactly when some row's length differs from the number of columns. In all other cases it is the header line, the separator and the row lines, joined by newlines. |
| TextTable.LineLayout | src/main.py:12-14 | A line of fields that fit their columns has length `sum(widths) + 3*(k-1)`. Column `i` occupies its width from its offset, and `" | "` separates neighbouring columns. |
| TextTable.LineCell | src/main.py:12-14 | At its column's offset, each padded field starts with the header or cell text, and the rest up to the column width is spaces. |
| TextTable.SeparatorLayout | src/main.py:13 | The separator is one run of exactly `width_i` dashes per column, with neighbouring runs joined by `"-+-"`. Its length is that of every other line. |
| TextTable.LinesEqualLength | scripts/manage_db.py:7-11 | For non-empty rectangular results there are `len(results) + 2` lines. The header, the separator and every row line all have length `sum(widths) + 3*(k-1)`. |
| TextTable.LineExcludes | src/main.py:14 | A line contains no character that is absent from its fields and from `" | "` (other than the padding space). |
| TextTable.OutputLines | src/main.py:15 | When no header or cell contains a newline, splitting the output on newlines gives back the header, the separator and the row lines in `results` order, `len(results) + 2` of them. |
| TextTable.Displayed | scripts/manage_db.py:119-120 | Nothing is printed exactly when `results` or `columns` is empty. Otherwise the `IndexError` case is kept, and what is printed is `format_query_results`' output. |
| TextTable.NeverDisplaysNoResults | src/main.py:197-198 | The printed text is never `"No results found."`. |
| Database.ExecutionsSpec | src/db_functions.py:289 | The executions log has one `Executed` event per statement, in order. |
| Database.ExecutionsAppend | src/db_functions.py:286-289 | The log for `a + b` is the log for `a` followed by the log for `b`. |
| Database.Connection.Execute | src/db_functions.py:289 | `cur.execute` is logged, and it succeeds exactly when the server does not refuse the statement. |
| Database.Connection.Insert | src/db_functions.py:243 | A parameterised insert appends exactly its row to the log. |
| Database.Connection.CloseCursor | src/db_functions.py:290 | `cur.close()` appends exactly a cursor-closed event. |
| Database.Connection.Commit | src/db_functions.py:291 | `conn.commit()` appends exactly a commit event. |
| Database.Connection.Close | src/db_functions.py:292 | `conn.close()` appends exactly a connection-closed event. |
| SqlScript.Kept | src/db_functions.py:288-289 | The statements the loop sends for a list of stripped pieces. `KeptEmpty`, `KeptAll`, `KeptAppend` and `KeptLength` specify it. |
| SqlScript.Statements | src/db_functions.py:286-289 | The statements executed for a script text, in execution order. `StatementsWellFormed`, `StatementsEmpty`, `StatementsConcat`, `StatementsCount` and `ScriptRoundTrip` specify it. |
| SqlScript.BodiesAppend | src/db_functions.py:286-287 | Stripping works piece by piece: the stripped bodies of two runs of pieces are those of the first run, then those of the second. |
| SqlScript.KeptAppend | src/db_functions.py:286-289 | The statements kept from two runs of pieces are those of the first run, then those of the second. |
| SqlScript.KeptLength | src/db_functions.py:288 | There are never more statements than pieces. |
| SqlScript.KeptEmpty | src/db_functions.py:288 | No statement is kept exactly when every stripped piece is empty. |
| SqlScript.KeptAll | src/db_functions.py:288-289 | Non-empty bodies are all kept, in order, each with `;` appended. |
| SqlScript.StripWellFormed | src/db_functions.py:287-289 | A `;`-free piece that does not strip to nothing yields a statement: a non-empty body with no `;` and no outer whitespace, then one `;`. |
| SqlScript.StatementsWellFormed | scripts/db_functions.py:178-181 | Every executed statement ends with `;` and contains no other `;`. Its body is non-empty and already stripped. |
| SqlScript.StatementsCount | scripts/db_functions.py:178 | At most one more statement is executed than the text has `;`s. |
| SqlScript.StatementsConcat | scripts/db_functions.py:191-194 | Statements run in file order: for `a + ";" + b`, those of `a` run first and then those of `b`. |
| SqlScript.StatementsEmpty | scripts/db_functions.py:180 | Nothing is executed exactly when the text holds only whitespace and `;`. |
| SqlScript.ScriptRoundTrip | scripts/setup_db.py:23-26 | Clean statement bodies written out separated by `;` are executed exactly as written, each with its `;`, in order. |
| SqlScript.FirstRefusedFrom | scripts/setup_db.py:26 | Gives the first position from `i` on whose statement the server refuses, or the end if there is none. |
| SqlScript.FirstRefusedSpec | scripts/setup_db.py:23-26 | The first refusal runs off the end exactly when every statement is accepted. It is at `n` exactly when `n` is the first refused statement. |
| SqlScript.RanScript | scripts/setup_db.py:23-29 | What a run does to the log: all statements, then cursor close, commit and connection close when none is refused; otherwise the statements up to the first refused one and no more. `CompletedIffAccepted`, `FailureLeavesUncommitted`, `SuccessCommitsOnce` and `BlankScriptCommits` specify it. |
| SqlScript.ExecuteScript | scripts/setup_db.py:21-29 | Running a script logs exactly the statements it executes. If every statement is accepted, it logs all of them in order, then cursor close, one commit and connection close. Otherwise it logs them up to and including the first refused one and nothing else, and reports that statement. |
| SqlScript.CompletedIffAccepted | scripts/setup_db.py:23-28 | A run completes exactly when the server accepts every statement. |
| SqlScript.FailureLeavesUncommitted | src/db_functions.py:299-305 | A failed run only appends executions. It never commits or closes, and its last event is the refused statement. |
| SqlScript.SuccessCommitsOnce | src/db_functions.py:299-305 | A completed run appends the statements in order and then exactly cursor close, commit, connection close. So it commits once, after every statement. |
| SqlScript.BlankScriptCommits | src/db_functions.py:286-292 | For a script of only whitespace and `;`, a run is exactly this: nothing is executed, the cursor is closed, the transaction committed and the connection closed. |
| SqlScript.LoadSampleData | src/db_functions.py:280-292 | `load_sample_data` runs the sample-data script as above, given the file's text. |
| SqlScript.CreateTables | scripts/db_functions.py:186-197 | `create_tables` runs the schema script as above, given the file's text. |
| SqlScript.RunSchema | scripts/setup_db.py:13-30 | `run_schema` opens a fresh connection and runs the schema script on it, so its whole log is that run. |
| Migrations.Contributes | scripts/create_migration.py:9-10 | Whether a listed name takes part in the numbering: it ends in `.sql` and its first token passes `isdigit()`. `NumbersHas` and `IgnoredName` specify its effect. |
| Migrations.Numbers | scripts/create_migration.py:10 | The numbers already taken, in listing order. `NumbersHas` specifies it. |
| Migrations.NextNumber | scripts/create_migration.py:11 | The number of the new migration. `NextNumberSpec`, `NextMonotone`, `NextAfterAdd` and `NextNumberOrderFree` specify it. |
| Migrations.FileName | scripts/create_migration.py:12 | The new file's name. `FileNameParses`, `NumberWidth` and `NextIsFresh` specify it. |
| Migrations.PrefixToken | scripts/create_migration.py:10 | `f.split("_")[0]` contains no `_`, is a prefix of `f`, and is followed in `f` by `_` when it is not all of `f`. |
| Migrations.PrefixTokenOf | scripts/create_migration.py:10 | Whatever follows the first `_`, the token is the text before it. |
| Migrations.MaxOr0 | scripts/create_migration.py:11 | `max(ns, default=0)` is at least every element. It is 0 for an empty list and an element otherwise. |
| Migrations.NumbersHas | scripts/create_migration.py:9-10 | A number is in `numbers` exactly when some listed name ends in `.sql`, has an all-digit token, and that token reads as the number. |
| Migrations.NextNumberSpec | scripts/create_migration.py:11 | The next number is at least 1 and above every contributing number. It is 1 when no name contributes, and otherwise one more than some contributing number, so it is the maximum plus 1. |
| Migrations.IgnoredName | scripts/create_migration.py:9-10 | A name that does not end in `.sql`, or whose token is not all digits, does not change the next number. |
| Migrations.NextMonotone | scripts/create_migration.py:9-11 | Adding any name to the directory never lowers the next number. |
| Migrations.NumberWidth | scripts/create_migration.py:12 | For `n <= 999` the number part is exactly 3 characters. Above that it is `str(n)` itself. |
| Migrations.FileNameParses | scripts/create_migration.py:12 | The new file name ends in `.sql`, and its first `_`-token is the zero-padded number whatever `_`s the migration name holds. So it contributes exactly its own number. |
| Migrations.NextIsFresh | scripts/create_migration.py:11-12 | The allocated file name is not already in the directory. |
| Migrations.NextAfterAdd | scripts/create_migration.py:9-16 | After the new file is added, allocating again yields the next number plus 1. |
| Migrations.NextNumberOrderFree | scripts/create_migration.py:9 | The next number depends only on which names are listed, not on the order `os.listdir` returns them in. |
| Migrations.MigrationsDir.CreateMigrationFile | scripts/create_migration.py:5-18 | Creates the directory if needed and adds exactly the file `f"{next:03d}_{name}.sql"`, which is new. The listing keeps no repeated names. |
| PortfolioDb.SplitName | src/db_functions.py:237-240 | The first name has no space. Without a space in the stripped name, the first name is all of it and the last name is `''`. With one, first name + space + last name is the stripped name. |
| PortfolioDb.FirstNameNonEmpty | src/db_functions.py:238-239 | A name that is not all whitespace gives a non-empty first name. |
| PortfolioDb.BlankName | src/db_functions.py:238-240 | An all-whitespace name gives empty first and last names. |
| PortfolioDb.SplitNameStripped | src/db_functions.py:238 | Surrounding whitespace does not change the split. |
| PortfolioDb.SplitNameJoin | src/db_functions.py:238-240 | A space-free first name, one space and a last name split back into the same two names, when the whole has no outer whitespace. |
| PortfolioDb.SplitNameSingle | src/db_functions.py:238-240 | A single clean word is all first name, and the last name is `''`. |
| PortfolioDb.AddClient | src/db_functions.py:237-246 | `add_client` inserts exactly the split name, then commits, then closes the cursor. |
| PortfolioDb.AddTrade | src/db_functions.py:46-60 | `add_trade` raises `ValueError` exactly when the side is not `BUY` or `SELL`, and then nothing reaches the database. Otherwise it inserts exactly the trade row, commits and closes the cursor. |

## Left out

- Reading the SQL files and writing the migration file: files are not modelled, so the script text is a parameter. `FileNotFoundError` is not modelled either.
- The header text written into a new migration file, and its `datetime.now()` timestamp.
- The `../migrations` path and the path joining.
- Printing. Confirmation messages and the printed file path are not modelled.
- The generated keys returned by `RETURNING ... ` and `fetchone()`. `AddClient` returns the inserted name instead. `AddTrade` returns whether it added the trade.
- What the database does with a statement. Only whether it refuses the statement is modelled. Inserts are never refused.
- Database.Connection: whether the server refuses a statement depends only on its text. So a statement cannot succeed once and fail when it is repeated later in the same script, as a duplicate seed `INSERT` would. No proved property depends on this restriction.
- Driver internals: psycopg2 autocommit mode, partial visibility of earlier statements after a failure, and rollback.
- The `get_*` queries, the search functions, `add_asset`, `add_portfolio` and the price and notes inserts. Their behaviour is SQL run by PostgreSQL.
- `get_connection`, dotenv loading, `psycopg2.connect` and its parameters.
- src/generate_data.py, src/run_migration.py and scripts/clear_data.py are not part of this model.
- The argparse dispatch in src/main.py and scripts/manage_db.py. Only the final print guard is modelled, by `TextTable.Displayed`.
- Concurrency: two runs could race on the same migration number.
- `str(cell)`: cells and headers are taken as already converted strings.
- `quantity` and `price` as floats: they are passed through as `real` and never computed with.
- PyText.IsDigits: models ASCII `isdigit()` only. Python's `isdigit()` also accepts two other kinds of character, and neither is modelled:
  - Decimal digits of other scripts, such as Arabic-Indic `٣` or fullwidth `５`. `int()` parses these, so in Python a name like `00５_x.sql` takes part in the numbering. In the model it does not.
  - Other digit characters, such as superscript `²`. `int()` raises `ValueError` on these, so in Python a name like `²_x.sql` makes `create_migration_file` fail. The model ignores such a name.
- PyText.IsSpace: models `str.isspace()` as a fixed character set. The set covers the ASCII whitespace and control separators and the Unicode space separators.
- Migrations.MigrationsDir: the directory is the list of names `os.listdir` returns. Entries are not told apart as files or subdirectories. A name containing `/` is not modelled.
