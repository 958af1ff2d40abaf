# CTFd FirstBlood: the first-blood arbitration, modelled in Dafny

The CTFd_FirstBlood plugin gives a bonus award, "first blood", to the first
team that solves a challenge. Before each solve, its handler
`on_challenge_pre_solve` runs one SQL statement:

    INSERT INTO awards (teamid, name, description, value, category, icon)
    SELECT <literals> FROM challenges
    WHERE NOT EXISTS (SELECT * FROM awards WHERE name = :name AND category = 'FirstBlood')
    LIMIT 1

It then reads the affected-row count. This project models that handler and
proves what the statement guarantees when solves are handled one after another.

- `first_blood.dfy` (module `FirstBlood`) covers one solve:
  - the award name "First Blood for {category}/{name}" and the category "FirstBlood";
  - the award row built from the session's team and the three configured constants;
  - the SELECT with its WHERE NOT EXISTS and LIMIT 1 (`SelectLiterals`);
  - the whole statement as a function from the old table to the new table
    and rowcount (`PreSolve`);
  - a `Database` class holding the awards and challenges tables. Its
    `InsertFromSelect` appends rows in place;
  - the formatting of the award name, which on Python 2 raises
    UnicodeEncodeError for a non-ASCII category or name (`Formattable`,
    `HandlePreSolve`);
  - the handler `OnChallengePreSolve`, proved against `HandlePreSolve`.
- `arbitration.dfy` (module `Arbitration`) covers many solves. `Replay`
  runs the handler once per solve, in order. The lemmas prove the properties
  the plugin exists for:
  - at most one first-blood award per name;
  - when the challenges table is non-empty, no award for the name exists yet and
    all solves share one ASCII award name, the first solver wins and every later
    solve gets rowcount 0;
  - when the challenges table is non-empty, every solved challenge whose award
    name is ASCII ends up with an award, and a non-ASCII name never gets one;
  - when the challenges table is non-empty, solves whose award names are
    pairwise different, ASCII and not yet awarded each get their own award, in order.

The session's team id (`session['id']`) and the configured description,
value and icon (`app.config[...]`) are parameters of the model.

Deduplication is on the formatted name string. The code does not compare the
(category, name) pair. `FirstBlood.NameCollision` shows two different
challenges, category "web/a" with name "b" and category "web" with name "a/b".
Both format to the same name, so they share one award. `FirstBlood.AwardNameInjective`
shows that this cannot happen when no category contains a slash.

Behaviour of the code worth knowing:
- The code declares no uniqueness constraint on (category, name). The only
  guard is the NOT EXISTS predicate. The model has no constraint either.
- The handler returns nothing. It tests the rowcount and does nothing with
  it. The model returns the rowcount, or `UnicodeEncodeError` where the
  call raises, and does not report
  "Awarded" or "AlreadyAwarded".
- The code does not validate the team id or the challenge's category or name.
  An empty category or name is formatted like any other.
- If the challenges table is empty, the SELECT yields no row, so no award is
  inserted. The code assumes this never happens.
- The plugin runs on Python 2, where `"First Blood for {}/{}"` is a byte
  string. Formatting a unicode category or name that holds a non-ASCII
  character raises UnicodeEncodeError before the statement is built. The
  handler then fails and no award is ever given for that challenge. The model
  returns `UnicodeEncodeError` in that case and leaves the table unchanged.

## Model

| member | source | states |
|---|---|---|
| `FirstBlood.AwardName` | __init__.py:39 | the award name is the prefix "First Blood for ", then the category, a slash and the challenge name; each part can be read back at its position |
| `FirstBlood.FormattableIffAsciiName` | __init__.py:39 | a challenge's name can be formatted (its category and name are ASCII) exactly when its whole award name is ASCII, so challenges sharing an award name raise alike |
| `FirstBlood.AwardRow` | __init__.py:40-51 | the row to insert carries the session's team and the configured description, value and icon, and is exactly a first-blood award for the derived name, the row the NOT EXISTS subquery looks for |
| `FirstBlood.SelectLiterals` | __init__.py:59-71 | the SELECT yields at most one row (LIMIT 1); it yields a row exactly when the challenges table is non-empty and no award with the same name and category "FirstBlood" exists; any row it yields is the literal award row. "Exists" is `HasFirstBlood`: some row satisfies `IsFirstBloodFor`, which is name equal and category "FirstBlood", the two conditions of the subquery |
| `FirstBlood.PreSolve` | __init__.py:53-72 | the statement keeps every existing row and appends at most one. The rowcount equals the number of rows appended. A row is appended exactly when the challenges table is non-empty and no first-blood award with this name exists, and that row is the award row built for this solve |
| `FirstBlood.HandlePreSolve` | __init__.py:39-82 | one call raises UnicodeEncodeError exactly when the category or name is not ASCII, and then leaves the table unchanged; otherwise it leaves the table and rowcount that `PreSolve` gives |
| `FirstBlood.HasFirstBloodAppend` | __init__.py:66-71 | after appending a row, a first-blood award for a name exists exactly when one existed before or the new row is one |
| `FirstBlood.UniquenessPreserved` | __init__.py:66-71 | if the table held at most one first-blood award per name before the statement, it still does afterwards |
| `FirstBlood.AwardedAfterSolve` | __init__.py:53-72 | after a solve, a first-blood award for the challenge's name exists exactly when the challenges table is non-empty or one existed before |
| `FirstBlood.SecondSolveInsertsNothing` | __init__.py:66-71 | a second solve of the same challenge, or of any challenge whose name formats to the same string, gets rowcount 0 and leaves the table unchanged |
| `FirstBlood.NameCollision` | __init__.py:39-71 | two different challenges ("web/a", "b") and ("web", "a/b") format to the same award name, so the one solved second gets no award |
| `FirstBlood.AwardNameInjective` | __init__.py:39 | when neither category contains a slash, two challenges have the same award name exactly when they are the same challenge |
| `FirstBlood.OtherCategoryDoesNotBlock` | __init__.py:70 | adding a row with the same name but a category other than "FirstBlood" does not change whether the statement inserts |
| `FirstBlood.Database.InsertFromSelect` | __init__.py:82 | executing the insert appends the selected rows to the awards table in one step and reports their number as the rowcount; the challenges table is not changed |
| `FirstBlood.OnChallengePreSolve` | __init__.py:14-88 | the handler leaves the table and result that `HandlePreSolve` gives. It raises UnicodeEncodeError exactly when the category or name is not ASCII, and the table is then unchanged. Otherwise the rowcount is nonzero exactly when the challenges table is non-empty and no first-blood award for the name existed; a rowcount of 1 means the award row for the session's team was appended, 0 that the table is unchanged. Uniqueness per name is preserved |
| `Arbitration.Replay` | __init__.py:39-83 | handling solves in order never changes or removes an existing row and gives one result per solve. Exactly the solves with a non-ASCII category or name raise, every rowcount is at most 1, and the number of rows appended over the run equals the sum of the rowcounts |
| `Arbitration.ReplayPreservesUniqueness` | __init__.py:66-71 | no run of solves, over any teams and challenges, creates a second first-blood award for a name |
| `Arbitration.AlreadyAwarded` | __init__.py:66-71 | once a first-blood award for a name exists, every later solve with that name leaves the table unchanged and gets rowcount 0, or raises if the name is not ASCII |
| `Arbitration.FirstSolveWins` | __init__.py:14-19 | when no award exists yet and the challenges table is non-empty, the first of many solves sharing an ASCII award name gets the award for its team (rowcount 1) and every other solve gets rowcount 0 |
| `Arbitration.NonAsciiNeverAwarded` | __init__.py:39 | a non-ASCII award name that has no first-blood award never gets one, whatever solves follow |
| `Arbitration.EverySolvedNameAwarded` | __init__.py:39-72 | with a non-empty challenges table, every challenge solved in a run whose category and name are ASCII has a first-blood award at the end of it |
| `Arbitration.EmptyChallengesAwardNothing` | __init__.py:60-65 | with an empty challenges table no solve inserts anything, even when no award exists: the table is unchanged and every executed statement reports rowcount 0 |
| `Arbitration.AwardRowsAt` | __init__.py:43-51 | position i of the appended award rows is the row built for solve i: its team, the derived name, the configured constants and the first-blood category |
| `Arbitration.DistinctNamesIndependent` | __init__.py:39-71 | with a non-empty challenges table, a run of solves whose award names are pairwise different, ASCII and not yet awarded ends with the old table followed by each solve's own team award row, in the order solved, and every rowcount is 1 |

## Left out

- `load` (__init__.py:91-105) registers the handler on the challenge classes' event emitters and prints to stderr. This is host-framework glue, so it is not modelled.
- config.py only sets constants: the challenge classes, and the award description, value and icon. The three award constants are the parameter `AwardConfig` of the model.
- The Flask `session['id']` and `app.config` lookups are not modelled. Their values are parameters.
- SQLAlchemy query building is not modelled. Neither is running the statement on a fresh engine connection outside the request's transaction (__init__.py:74-82).
- Concurrency is not modelled: atomicity of the statement, isolation levels and racing connections depend on the database engine. The model is sequential. `Arbitration.Replay` handles solves one at a time in some order.
- The `date` and `id` columns, which the database fills in, are not modelled. Neither is the MySQL workaround of selecting FROM challenges instead of DUAL.
- The empty `if res.rowcount: pass` branch (__init__.py:83-88) has no behaviour. The model only returns the rowcount.
- Name comparison in the model is exact equality of character sequences. Database collations, such as MySQL's case-insensitive default, are not modelled.
- Column widths are not modelled: the award name is an unbounded string. CTFd declares the awards `name` column as 80 characters, and `AwardName` can be longer. A longer name is truncated on MySQL in non-strict mode, so the NOT EXISTS check never matches it and every solve appends another award. PostgreSQL and strict MySQL reject the insert instead. CTFd's awards schema is not part of this model.
- Python's `str.format` turns a missing (`None`) category into the text "None". The model's challenges always have a string category and name.
- FirstBlood.Formattable assumes the category and name come from the database as unicode objects, so only non-ASCII text raises. A byte-string value holding UTF-8 would format without error; the model does not distinguish the two.
- Database failures are not modelled: a connection error or a rejected statement raises an exception out of the handler.
