# Reading-plan table preparation, modelled in Dafny

BibliApp ships its reading plans as one JSON document per plan. Two small
scripts turn them into CSV tables for the database.

- `bibli_app/assets/reading_plans/gerador.py` takes the plan documents in
  ascending file-name order. It writes a fixed header row and then one row per
  chapter item. The plan's title, description and duration are repeated on
  every row of that plan. Keys missing from the JSON take the defaults given
  to `dict.get`.
- `gerador.py` takes a plan-item table keyed by (`reading_plan_id`,
  `day_number`, `chapter_number`) and drops duplicate rows, those sharing a
  key. It keeps the first row of each key whole, writes the header back
  unchanged and reports the number of rows kept. Its input file is not the
  flattener's output: those key columns are not in the flattener's header,
  and the step producing the keyed table is not in the source.

The model has four modules:

- `Results` (`results.dfy`): `Option` and `Result`.
- `NameOrder` (`name_order.dfy`): the code-point order on file names and the
  sort of a directory listing by name. This models `sorted(base.glob("*.json"))`
  with POSIX paths. Every globbed path has the same parent, so comparing
  paths reduces to comparing file names.
- `PlanTable` (`plan_table.dfy`): plan documents as datatypes with optional
  fields, and the flattening `Flatten`. `Generate` sorts and then flattens.
  A JSON key that is absent (`None`) is kept apart from a key present with
  value `null` (`Some(Null)`). The difference matters for
  `item.get("chapter_end", start)`: an explicit `null` stays `null`, and only
  an absent key falls back to the first chapter.
- `DedupRows` (`dedup_rows.dfy`): the loop with its `seen` set (`Deduplicate`).
  It is proved equal to an index-based reference definition, `Firsts`: the
  rows that are the first of their key. The properties are proved about
  `Firsts`. A row without one of the key columns stops the run with the
  lookup's key error, naming the first missing column in key order. An input
  with no header line has no field names, so writing the header back fails.
  `WellFormed` states what the CSV dictionary reader delivers: no rows
  without a header, and every row carrying exactly the header's fields. On
  such tables both errors depend on the header alone (`ReaderErrors`).

## Model

| member | source | states |
|---|---|---|
| NameOrder.SortByName | bibli_app/assets/reading_plans/gerador.py:8 | the plans are visited in ascending file-name order; the sorted listing is a permutation of the directory listing |
| NameOrder.LtIffNotLe | bibli_app/assets/reading_plans/gerador.py:8 | the name order is total: a name sorts strictly before another exactly when the other does not sort no later than it |
| NameOrder.SortedPrecedence | bibli_app/assets/reading_plans/gerador.py:8 | in the sorted listing, a file whose name sorts strictly before another's stands before it |
| PlanTable.Flatten | bibli_app/assets/reading_plans/gerador.py:6-18 | the first row is exactly the seven-column header; the table has one row more than there are chapter items in all plans; every row has seven cells |
| PlanTable.Body | bibli_app/assets/reading_plans/gerador.py:13-18 | each chapter item yields exactly one row, so the item rows number the sum of the chapter-list lengths |
| PlanTable.FlattenAt | bibli_app/assets/reading_plans/gerador.py:10-18 | the row of item j of plan i sits after the rows of all earlier plans and earlier items; it holds the title (default ""), description (default ""), duration (default 0), the item's `dia` (default null), book (default ""), first chapter (default null), and last chapter, which defaults to the first chapter only when the key is absent |
| PlanTable.Locate | bibli_app/assets/reading_plans/gerador.py:13-18 | every row after the header is the row of some (plan, item) pair, so no other rows are written |
| PlanTable.FlattenOrder | bibli_app/assets/reading_plans/gerador.py:8-18 | row positions follow the order of (plan, item) in both directions: all rows of an earlier plan precede all rows of a later one, and items keep their list order |
| PlanTable.PlanFieldsRepeated | bibli_app/assets/reading_plans/gerador.py:10-18 | all rows of one plan carry the same title, description and duration |
| PlanTable.FlattenAppend | bibli_app/assets/reading_plans/gerador.py:8-18 | the table of a concatenation of plan lists is the first table followed by the second table's item rows |
| PlanTable.PlanWithoutChapters | bibli_app/assets/reading_plans/gerador.py:13 | a plan with no `chapters` key, or with an empty list, adds no row anywhere in the sequence |
| PlanTable.GenerateOrder | bibli_app/assets/reading_plans/gerador.py:8-18 | in the generated table, every row of a file with a smaller name precedes every row of a file with a larger name |
| DedupRows.FirstMissing | gerador.py:8 | the column named by the key error is absent from the row, and every key column looked up before it is present |
| DedupRows.FirstUnkeyed | gerador.py:7-8 | the key error is raised at the first row lacking a key column; every earlier row has all three |
| DedupRows.ReaderErrors | gerador.py:5-8 | on a table as the reader delivers it, writing the header fails exactly when there is no header line, and the key error is raised exactly when there is a row and the header lacks a key column, naming the first such column in key order |
| DedupRows.Deduplicate | gerador.py:3-19 | the loop with its seen set computes exactly the reference result; it fails if and only if a row lacks a key column or there is no header; on success the field names are written back unchanged, keys are unique, the rows form a subsequence of the input, every input key survives and the count is the number of distinct input keys |
| DedupRows.FirstIffUnseen | gerador.py:9-11 | a row is the first of its key exactly when its key is not yet in the seen set |
| DedupRows.KeySetMembers | gerador.py:8-11 | a key is in the seen set exactly when some processed row has it |
| DedupRows.FirstsUnique | gerador.py:8-12 | no two kept rows share a key |
| DedupRows.FirstsAreFirst | gerador.py:9-12 | each kept row is the first input row with its key; later duplicates are skipped |
| DedupRows.FirstsSubsequence | gerador.py:7-12 | the kept rows are input rows, whole and in their input order, with some rows deleted |
| DedupRows.FirstsKeys | gerador.py:8-12 | the kept rows carry exactly the keys that occur in the input |
| DedupRows.FirstsCount | gerador.py:19 | the reported count equals the number of distinct keys in the input |
| DedupRows.FirstsOfUnique | gerador.py:8-12 | an input is returned unchanged if and only if it has no duplicate keys |
| DedupRows.FirstsIdempotent | gerador.py:8-12 | deduplicating the kept rows again changes nothing |
| DedupRows.DedupIdempotent | gerador.py:3-19 | a successful run over its own output reproduces the same table and count |

## Left out

- Opening, reading and writing files, `pathlib` globbing and `print` are left out. The input is a directory listing of decoded plans, or a decoded table. The output is the sequence of rows written.
- Filtering the directory by the `*.json` pattern is left out. The listing holds only the plan files.
- CSV quoting and escaping, and JSON decoding, are library behaviour. They are left out.
- JSON values other than `null`, strings and integers are left out: floats, booleans, arrays and objects in scalar fields. So are a `chapters` value that is not a list and chapter items that are not objects.
- CSV reader padding is left out. The reader fills short rows with `None` and stores surplus values under the key `None`; the writer then rejects such a row. Rows are modelled as maps from field name to text. `Deduplicate` and `Dedup` accept any table, also rows not tied to the header; `WellFormed` singles out the tables the reader can deliver, and `ReaderErrors` states the errors for those.
- The file order is the POSIX one. On Windows, paths are lower-cased before they are compared, so `Z.json` sorts after `a.json` there, while `NameOrder.Le` puts it first.
- `supabase/functions/weekly-challenges-cron/index.ts` is not part of this model. It is HTTP, CORS and environment glue around opaque database procedures and wall-clock timestamps. This includes its substring authorization check, which lets any non-empty header through when the secret is unset.
