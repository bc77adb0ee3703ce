# Projects, users and their relations: a Dafny model

This project models the model layer of a small Rails application that keeps
projects, users and the relation between them. It covers:

- the BOM-prefixed, force-quoted CSV export of the projects table:
  `Project.to_csv` and `Project.to_csv_x`, with their `offset`/`limit`
  options and `ORDER BY id`;
- the export file name `Project.csv_name`;
- the `name` validation of `Project`;
- `ProjectUserRelation.import`, a buffered CSV import. It fills in
  `created_at`/`updated_at` and flushes to `insert_all` once more than 1000
  rows are buffered;
- `ProjectUserRelation.import_x`, the find-or-create import, with the id
  and timestamps `create` fills in and the insert that raises on a taken
  primary key;
- the `mysql2` adapter guard of `export` and `import_by_sql`, and the
  `SELECT` list `export` builds, one `CASE` expression per column;
- the presence and uniqueness validations of `User`.

Modules:

- `Wrappers`: `Option` and `Result`.
- `Text`: Ruby's `blank?`/`presence`, decimal rendering and zero padding, and
  ASCII case folding.
- `Csv`: the force-quoted CSV writer, plus an independent reader used for the
  round-trip lemmas.
- `Projects`: app/models/project.rb.
- `ProjectUserRelations`: app/models/project_user_relation.rb.
- `Users`: app/models/user.rb.

The database is modelled by values:

- A table is a sequence of records in storage order.
- A query's `ORDER BY id` is an insertion sort, `Projects.OrderById`. It is
  proved sorted and a permutation of its input.
- A written file is the string the code writes into it.
- Each `insert_all` call is one batch in the sequence `Import` returns.

The clock, `Rails.root`, the database adapter name and `Time.zone.parse` are
parameters. The two import loops and the two export loops are methods with
loop invariants. `Import` is specified by what its batches hold when
concatenated and by their sizes. The other three are proved equal to a
specification function, and the properties are proved about those
functions.

## Model

| member | source | states |
|---|---|---|
| Projects.Insert | app/models/project.rb:70 | inserting into an id-sorted list keeps it sorted and adds exactly that record (multiset) |
| Projects.OrderById | app/models/project.rb:70 | `order(:id)` yields the same records (a permutation) in ascending id order |
| Projects.OrderByIdStrict | app/models/project.rb:70 | with distinct ids (the primary key) the order is strictly ascending |
| Projects.IdOrderUnique | app/models/project.rb:70 | two strictly id-sorted arrangements of the same records are equal, so `ORDER BY id` fixes the output order |
| Projects.OrderByIdOfSorted | app/models/project.rb:79 | re-ordering an already id-ordered relation (the second `order(:id)`) changes nothing |
| Projects.Window | app/models/project.rb:71-72 | `offset` then `limit`: length `min(limit, n - offset)`, and element i is input element `offset + i` |
| Projects.WindowSorted | app/models/project.rb:70-72 | offset and limit keep an id-sorted relation sorted |
| Projects.SelectedInIdOrder | app/models/project.rb:70-72 | the exported relation is in ascending id order for any options |
| Projects.SelectAll | app/models/project.rb:73 | `select(*CSV_HEADERS)` keeps one record per project, in order, with only id, name and description |
| Projects.Records | app/models/project.rb:66-80 | the records written are the header `id,name,description`, then for each project in order the three fields id, name and description |
| Projects.WrittenStep | app/models/project.rb:79-81 | writing one more project appends exactly that project's CSV line |
| Projects.WriteRows | app/models/project.rb:75-81 | the loop writes the BOM, the header line and one line per row, in order |
| Projects.ToCsv | app/models/project.rb:65-83 | `to_csv` writes exactly `ProjectsCsv(table, opts)` |
| Projects.RecordFields | app/models/project.rb:99 | the fields `to_csv_x` writes from a full record are those `to_csv` writes from the selected columns |
| Projects.WriteRecords | app/models/project.rb:94-101 | the `to_csv_x` loop writes the same file as writing the selected columns |
| Projects.ToCsvX | app/models/project.rb:85-102 | `to_csv_x` writes the same file as `to_csv` for every table and every options |
| Projects.BomLinesReadBack | app/models/project.rb:75-81 | after the BOM, reading a force-quoted file gives back exactly the records written |
| Projects.ProjectsCsvReadsBack | app/models/project.rb:65-83 | the exported file reads back as the header followed by the selected projects' fields, in id order |
| Projects.RecordsReadBack | app/models/project.rb:80 | each data record has three fields: the id, which reads back as the same integer, then the name and the description, nil as empty |
| Projects.OffsetLimitExample | spec/models/project_spec.rb:108-111 | three seeded projects with offset 1 and limit 2: BOM, header, then the lines of projects 2 and 3 |
| Projects.NoOptionsExample | spec/models/project_spec.rb:31-37 | without options all three seeded projects are exported in id order |
| Projects.StampWidth | app/models/project.rb:21 | a `%F_%H_%M_%S_%L%Z` stamp has fixed width 23 plus the zone name, for years below 10000 |
| Projects.StampInjective | app/models/project.rb:21 | two valid times in the same zone with equal stamps are equal |
| Projects.CsvNameInjective | app/models/project.rb:26-28 | distinct valid times in one zone give distinct export file names |
| Projects.CsvNameExample | spec/models/project_spec.rb:62-70 | 2020-01-02 08:59:59.000 JST gives `<root>/csvs/projects_2020-01-02_08_59_59_000JST.csv` |
| Projects.NameValidIff | app/models/project.rb:24 | a project name passes exactly when it is present (not nil, not blank) and no other row has exactly that name |
| Projects.ValidSaveKeepsNames | app/models/project.rb:24 | inserting only valid projects keeps every stored name present and pairwise distinct |
| Projects.BlankNameRejected | spec/models/project_spec.rb:54-58 | nil, `""` and a blank name are rejected as blank |
| Projects.AaronValid | spec/models/project_spec.rb:49-52 | `Project.new(name: 'Aaron')` is valid on an empty table |
| Projects.NameCaseSensitive | app/models/project.rb:24 | with "Aaron" stored, "Aaron" is taken but "aaron" is valid |
| Csv.EscapePlain | app/models/project.rb:68 | a field without a double quote is written unchanged inside the quotes |
| Csv.ThreeFields | app/models/project.rb:66-69 | a three-field record is three quoted fields joined by commas and ended by a line feed |
| Csv.LinesAppend | app/models/project.rb:80 | each `csv << row` appends exactly that row's line |
| Csv.ParseBodyEscape | app/models/project.rb:68 | reading an escaped field body gives back the field and stops at its closing quote |
| Csv.ParseLine | app/models/project.rb:66-69 | reading a written record gives back its fields and leaves the rest of the file |
| Csv.ParseLines | app/models/project.rb:79-81 | reading the written records gives back exactly the rows written |
| ProjectUserRelations.Timestamp | app/models/project_user_relation.rb:96-107 | a timestamp is the parsed field when present, otherwise the single clock reading |
| ProjectUserRelations.Normalize | app/models/project_user_relation.rb:95-107 | all columns of the row pass unchanged; `created_at` and `updated_at` are always set, parsed or defaulted |
| ProjectUserRelations.Import | app/models/project_user_relation.rb:91-117 | the batches together are all rows, normalized, in file order; every batch but the last has 1001 rows; the last has 1 to 1001; the batch count is `ceil(n / 1001)`, so an empty file inserts nothing |
| ProjectUserRelations.CreateMatches | app/models/project_user_relation.rb:7-11 | the record `create` inserts, with an empty id and timestamps filled in, matches a row that leaves no `NOT NULL` column empty, and only such a row |
| ProjectUserRelations.CreateStored | app/models/project_user_relation.rb:7-11 | the record created from a row with both references present has every `NOT NULL` column set |
| ProjectUserRelations.UnfilledNeverFound | app/models/project_user_relation.rb:7-11 | a row that leaves a `NOT NULL` column empty is searched for with `IS NULL` and matches no stored record |
| ProjectUserRelations.FindOrCreate | app/models/project_user_relation.rb:121 | the table is unchanged when a record matches or validation fails; otherwise the filled-in record is appended, and the insert raises exactly when its primary key is already stored |
| ProjectUserRelations.FindOrCreateFound | app/models/project_user_relation.rb:121 | after a call that does not raise, the row has a match exactly when it had one before, or it validates and leaves no `NOT NULL` column empty |
| ProjectUserRelations.ImportX | app/models/project_user_relation.rb:119-123 | the loop performs `find_or_create_by` on each row in file order and stops at the first insert that raises |
| ProjectUserRelations.ImportXKeeps | app/models/project_user_relation.rb:119-123 | stored records are never changed or removed; at most one record is added per row |
| ProjectUserRelations.ImportXStored | app/models/project_user_relation.rb:119-123 | every record the run inserts has all `NOT NULL` columns set |
| ProjectUserRelations.ImportXCovers | app/models/project_user_relation.rb:119-123 | after a run that does not raise, every row that already had a match, and every valid row that leaves no `NOT NULL` column empty, has a matching record |
| ProjectUserRelations.ImportXSkipsInvalid | app/models/project_user_relation.rb:44-45 | a row that fails validation and matches nothing stays without a record when no valid row names the same project and user |
| ProjectUserRelations.Repeated | app/models/project_user_relation.rb:121 | the count of valid rows with an empty `NOT NULL` column is zero exactly when every valid row fills those columns |
| ProjectUserRelations.ImportXIdempotent | app/models/project_user_relation.rb:119-123 | after a run that does not raise, importing the same file again adds nothing when every valid row fills its `NOT NULL` columns |
| ProjectUserRelations.ImportXRerun | app/models/project_user_relation.rb:119-123 | on a table whose records have their `NOT NULL` columns set, and with a fresh assigned key: after a run that does not raise, a second run keeps the first run's records; if it does not raise it adds one record per valid row with an empty `NOT NULL` column; it raises exactly when such a row gives its own id |
| ProjectUserRelations.ImportXRerunExample | app/models/project_user_relation.rb:119-123 | the file `project_id,user_id,created_at,updated_at` with the row `1,1,,`, imported twice into an empty table, leaves two records |
| ProjectUserRelations.Export | app/models/project_user_relation.rb:47-65 | fails with `No suport the db dapter: <adapter>` exactly when the adapter is not `mysql2`; otherwise yields the select list |
| ProjectUserRelations.ImportBySql | app/models/project_user_relation.rb:78-80 | fails with the same message exactly when the adapter is not `mysql2` |
| ProjectUserRelations.SelectList | app/models/project_user_relation.rb:52-64 | one `CASE` expression per column, in column order |
| ProjectUserRelations.CaseExprPasses | app/models/project_user_relation.rb:53-63 | a column's expression has balanced parentheses and no comma outside them; the `convert_tz` comma is nested |
| ProjectUserRelations.ConvertedIff | app/models/project_user_relation.rb:53-63 | a column is wrapped in `convert_tz` (the only source of a parenthesis) exactly when its type is datetime |
| ProjectUserRelations.SplitJoin | app/models/project_user_relation.rb:65 | splitting a `join(',')` of such expressions at top-level commas gives them back |
| ProjectUserRelations.SelectSqlSplits | app/models/project_user_relation.rb:51-65 | `select_sql` splits back into exactly one expression per column, in order |
| ProjectUserRelations.RelationSelectSql | db/migrate/20200708075002_create_project_user_relations.rb:3-8 | for the table's five columns, `select_sql` has five expressions, one per column, in table order |
| Users.Errors | app/models/user.rb:17-18 | each error is recorded exactly when its condition holds: blank name, name taken (case-sensitive), blank email, email taken (ignoring case) |
| Users.ValidIff | app/models/user.rb:17-18 | a user is valid exactly when name and email are present and neither is taken |
| Users.Save | app/models/user.rb:17-18 | `save` inserts exactly when there are no errors; otherwise it returns the errors and the table is unchanged |
| Users.SaveKeepsConsistent | app/models/user.rb:17-18 | saving keeps names present and pairwise distinct, and emails present and distinct up to case |
| Users.DefaultsRejected | db/migrate/20200707233704_create_users.rb:4-5 | the column default `""` is rejected as blank for both name and email |
| Users.NameCaseSensitive | app/models/user.rb:18 | next to "Bob", "bob" is free but a second "Bob" is taken |
| Users.EmailCaseInsensitive | app/models/user.rb:17 | a stored "A@x.com" makes "a@X.com" taken |
| Users.FactoryUsersDiffer | spec/factories/users.rb:5-6 | factory users with different sequence numbers differ in name and in email, even up to case |
| Users.FactoryTableConsistent | spec/factories/users.rb:5-6 | the first k factory users form a consistent table |
| Users.FactoryNextSaves | spec/factories/users.rb:5-6 | the next factory user always passes validation against those before it |

## Left out

- Files and I/O: every written file is returned as a string, and every CSV
  input is given already parsed into header-to-field maps.
  `File.open`, `CSV.foreach` and the CSV library's own reader are not
  modelled.
- The header line: the model always writes one. Whether Ruby's CSV writer
  emits `write_headers` when no data row follows depends on the library,
  which is not part of this model.
- `in_batches.each_record`: the batching is not modelled; the export is a
  single pass over the ordered relation. `Projects.Window` matches the
  source when all selected rows fit in one batch or when no offset is
  given; how Active Record's batch queries combine an offset with later
  batches is not modelled.
- `opts[:offset].to_i` and `opts[:limit].to_i`: options are
  non-negative integers or absent. Conversion from strings and negative
  values are not modelled.
- `Time.zone.now` and `Time.zone.parse`: both are parameters, and what
  `parse` does on malformed input is not modelled. The time given to
  `CsvName` is already in broken-down local form. The zone abbreviation is
  a string, and `strftime` is modelled only for this one format.
- `to_csv_by_sql`, and what `export` and `import_by_sql` do after the guard
  (`squish`, `sanitize_sql`, `connection.execute`, `INTO OUTFILE`,
  `LOAD DATA`): native SQL run by the database.
  `CSV_DATETIME_FORMAT` is defined but not used anywhere in the model file.
- `ProjectUserRelations.RelationColumns`: the column order is the one the
  migration creates (id, the two references, then the timestamps). The
  schema comment at the top of the model file lists the columns in another
  order.
- `ProjectUserRelations.Import`: what `insert_all` does with a batch is not
  modelled: unique-index conflicts and database-side errors are out.
- `ProjectUserRelations.FindOrCreate`: given values are compared as the
  strings the CSV holds. Active Record's cast of a value to the column type
  is not modelled, so `01` does not find `1`; only the cast of a blank
  value to nil is modelled. An unknown column raising an error is not
  modelled either.
- `ProjectUserRelations.Env`: the key the database assigns is an abstract
  fresh value `nextId`, and every created record gets the one clock
  reading `now`.
- `ProjectUserRelations.SelectSqlSplits`: it requires column names without
  commas or parentheses. SQL names of this table satisfy that.
- Storage-level constraints other than `NOT NULL` and the primary key:
  unique indexes, foreign keys and the database's collation. They are not
  modelled.
- The `belongs_to` presence validations of `ProjectUserRelation`: both
  references must be given. Whether the project and the user they name
  exist is the abstract parameter `valid` of
  `ProjectUserRelations.FindOrCreate`. The associated tables themselves are
  not modelled.
- `Users.Errors`: case-insensitive uniqueness compares ASCII lower case.
  The database's collation and Unicode case folding are not modelled.
- `Projects.NameErrors`: its own ensures only bounds the error set. What it
  means is stated by `Projects.NameValidIff`.
- `Projects.Stamp`: `%L` is the millisecond field of the given time.
  Sub-millisecond truncation is not modelled.
