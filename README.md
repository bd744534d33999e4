# A verified model of the food-consumption CRUD core

The application keeps a table of food-consumption figures (commodity, age group,
four consumption measures and notes). It has three parts that this project
models:

- **The schema validator** (`database/schema.py`).
  - It loads field rules from a configuration, or falls back to a built-in schema.
  - It checks a single record against the rules: required fields, conversion to
    the declared type, and `min`/`max` bounds.
  - It checks a whole batch column by column.
  - It prepares a batch for import: it keeps only the schema's columns and
    converts float and text columns.
- **The record store** (`database/db_manager.py`).
  - It adds, reads, updates and deletes rows of `food_consumption`. Every update
    raises a row's version.
  - Deletion is soft: it moves the row, as a snapshot, to a `deleted_records` log.
  - `undo_delete` restores the latest snapshot of an id.
  - `import_csv_data` adds the rows of a batch one by one.
- **The validation summary** (`components/utils.py`). It turns per-row error maps
  into an HTML message.

Each part is modelled in the form the code takes:

- **Dictionaries.** Python dictionaries, which keep insertion order, are
  association lists with `Lookup` and `Put` (module `Dicts`).
- **Batches.** A batch is an ordered list of named columns (module `Frames`).
- **Classes.** The validator and the store are classes whose methods carry the
  source's loops, each with its invariants. Each method is proved against a
  specification function: `FieldErrors`, `CoercedRecord`, `BatchErrors`,
  `ValidatedColumns`, `ImportColumns`, `AddStep`, `UpdateStep`, `DeleteStep`,
  `UndoStep`, `InsertedAll` and `Message`.
- **Properties.** Lemmas about those functions state what the code promises:
  - what a field's message is, case by case;
  - revalidation stability;
  - per-row errors;
  - store consistency;
  - delete/undo as a stack per id;
  - the summary's listing rules.

Parsing text as a number and rendering a number as text belong to Python and
pandas. They are the fields of a `Conversions` value that every operation takes
as a parameter, so each property holds for every parser and renderer. The
store's timestamps come from a logical clock that every insert, update and
delete advances. An undo keeps the clock, since the restored row keeps its own
timestamps.

Modules, in dependency order:

| module | file | contents |
|---|---|---|
| `Wrappers` | `wrappers.dfy` | `Option`, `Result` |
| `Dicts` | `dicts.dfy` | insertion-ordered dictionaries |
| `Frames` | `frames.dfy` | cell values, batches, conversions |
| `SchemaRules` | `schema_rules.dfy` | type names, rules, the built-in schema, loading |
| `SchemaValidation` | `schema_validator.dfy` | `SchemaValidator` and its specification |
| `DbManager` | `db_manager.dfy` | `DatabaseManager`, the statement semantics and their properties |
| `Utils` | `utils.dfy` | the validation summary |

## Model

| member | source | states |
|---|---|---|
| Dicts.Lookup | database/schema.py:103 | `d.get(k)` finds a value exactly when `k` is a key, and the value is an entry of `d` under `k` |
| Dicts.Put | database/schema.py:117 | `d[k] = v` makes `k` map to `v` and changes no other key's lookup. An existing key keeps its position; a new key is appended at the end |
| Frames.ToNumeric | database/schema.py:222 | `to_numeric(errors='coerce')` on one cell yields a number or missing. Numbers and missing cells stay as they are. Text becomes a number exactly when the parser accepts it, and then it is the parsed number |
| SchemaRules.NormalizeType | database/schema.py:57-70 | each accepted type name, compared after lower-casing, gives its type (`str`/`string`, `float`, `int`/`integer`, `bool`/`boolean`, `date`, `datetime`), in both directions. Any other name is kept as written |
| SchemaRules.NormalizeTypeIgnoresCase | database/schema.py:58 | two spellings that agree once lower-cased name the same known type |
| SchemaRules.ProcessRule | database/schema.py:55-71 | a rule is copied with `required`, `min` and `max` unchanged, and its type is converted exactly when it has one |
| SchemaRules.ProcessSchema | database/schema.py:51-74 | every table and every field of the configuration is kept, in order, and only the rules are converted |
| SchemaRules.DefaultSchema | database/schema.py:79-91 | one table, `food_consumption`, with seven fields in declaration order. Exactly `commodity` and `age_group` are required. The four consumption fields are floats with `min` 0 and no `max`; the other fields are text |
| SchemaRules.LoadSchema | database/schema.py:23-77 | a configuration that is missing or cannot be read yields the built-in schema. Otherwise the result is the processed configuration: every table and field kept in order, each type name converted (`ProcessSchema`) |
| SchemaRules.LoadedSchemaWellFormed | database/schema.py:51-74 | when every table of the configuration names each field once, so does every loaded table |
| SchemaValidation.SchemaValidator.constructor | database/schema.py:9-21 | the validator holds the loaded schemas, with each field once per table |
| SchemaValidation.Truncate | database/schema.py:119 | `int(x)` on a number drops the fraction toward zero: the result is within 1 of `x`, at most `x` when `x` is not negative and at least `x` when it is |
| SchemaValidation.Coerce | database/schema.py:112-124 | only float and int conversions can fail, and the failure names that type. A number under float is itself, and under int it is truncated toward zero. Text under float or int converts exactly when the parser accepts it, to the parsed number. A missing value under float or int is invalid. Under str, text is itself, a number is its rendering, and `None` becomes "None". Types other than float, int and str are not converted |
| SchemaValidation.BoundError | database/schema.py:126-131 | there is a bound message exactly when the field is numeric, its value is a number and the value breaks a bound. The `max` message wins when both bounds are broken |
| SchemaValidation.CheckField | database/schema.py:101-131 | checking a field never adds it to the record or removes it |
| SchemaValidation.SchemaValidator.CheckRecordField | database/schema.py:101-131 | one turn of the field loop records exactly `CheckField`'s message under the field, and writes the converted value into the record when there is one |
| SchemaValidation.SchemaValidator.ValidateRecord | database/schema.py:93-133 | fails with `UnknownTable` exactly when the table is unknown. Otherwise returns the converted record and the error map of the fields, in schema order |
| SchemaValidation.FieldErrorsKeys | database/schema.py:99-133 | messages are recorded only under schema fields, each field at most once |
| SchemaValidation.FieldErrorsLookup | database/schema.py:99-133 | the message under each schema field is the one `CheckField` gives that field |
| SchemaValidation.FieldErrorsAt | database/schema.py:99-133 | looking up any key in the error map gives the field's `CheckField` message, or nothing for a key outside the schema |
| SchemaValidation.CoercedRecordLookup | database/schema.py:114-121 | validation keeps every key of the record in place, and only schema fields take their checked value |
| SchemaValidation.BlankFieldOutcome | database/schema.py:103-109 | an absent, `None` or empty field stays as it is. Its only possible message is "is required", given exactly when the field is required |
| SchemaValidation.InvalidFieldOutcome | database/schema.py:114-124 | a value that does not convert is kept. Its field is float or int, and the only message is "must be a valid float/int" |
| SchemaValidation.CoercedFieldOutcome | database/schema.py:114-131 | a value that converts replaces the original (a number for a numeric field), and its message is the bound it breaks |
| SchemaValidation.CheckFieldIdempotent | database/schema.py:101-131 | checking a field again, on the value the first check left, changes nothing and gives the same message |
| SchemaValidation.RevalidationIsStable | database/schema.py:93-133 | validating a record that validation produced converts nothing further and reports the same messages |
| SchemaValidation.MissingRequired | database/schema.py:146-149 | a name is reported missing exactly when it is a required field with no column in the batch |
| SchemaValidation.SchemaValidator.ValidateDataframe | database/schema.py:135-203 | fails with `UnknownTable` for an unknown table, and with `MissingColumns` exactly when required columns are missing, listing them. On success: the converted batch, one error map per row (all of them the shared map), and `has_errors` exactly when some row's map is non-empty |
| SchemaValidation.SchemaValidator.ValidateColumn | database/schema.py:156-201 | one turn of the column loop converts that field's column in place and adds the column's message to the shared map |
| SchemaValidation.SchemaValidator.CheckFloatColumn | database/schema.py:166-190 | the passes over a float column leave the message of the last pass that fired: missing values when required, then `min`, then `max` |
| SchemaValidation.SchemaValidator.CheckTextColumn | database/schema.py:192-201 | a required text column with a blank cell gets "cannot be empty" |
| SchemaValidation.MarkRows | database/schema.py:172-175 | one pass over the rows writes its message exactly when some row fails the test, and sets the error flag exactly when the map is non-empty |
| SchemaValidation.ValidatedFrameShape | database/schema.py:142-194 | validation keeps the batch's columns in place and every row, and converts only schema columns |
| SchemaValidation.NoRowsNoErrors | database/schema.py:152-201 | a batch without rows produces no message |
| SchemaValidation.MissingTextPassesBlankCheck | database/schema.py:192-201 | missing cells of a required text column become `"nan"` and so pass the blank check |
| SchemaValidation.ColumnMessageClean | database/schema.py:166-201 | a column leaves no message exactly when none of its cells has one |
| SchemaValidation.RowErrorsKeys | database/schema.py:152-201 | a row's own error map holds messages only under schema fields, each field at most once |
| SchemaValidation.RowErrorsLookup | database/schema.py:152-201 | a row's own error map holds, under each field, the message of that row's own cell, and nothing another row caused |
| SchemaValidation.BatchErrorsEmptyIff | database/schema.py:152-203 | the shared map is empty exactly when every row's own map is |
| SchemaValidation.SharedMapBlamesCleanRow | database/schema.py:152 | in a two-row batch, the map returned for a clean row holds the message of the other row |
| SchemaValidation.Project | database/schema.py:213-215 | the kept columns are exactly the batch's columns whose names the schema lists, in the batch's order |
| SchemaValidation.ProjectKeys | database/schema.py:213-215 | the names kept are the schema's names that the batch has |
| SchemaValidation.ImportField | database/schema.py:218-225 | one turn of the import loop converts that field's column, when the batch has it, to its import form |
| SchemaValidation.SchemaValidator.CleanDataframeForImport | database/schema.py:205-227 | fails with `UnknownTable` exactly when the table is unknown. Otherwise returns the kept columns, converted for import, with every row |
| SchemaValidation.ImportedFrameShape | database/schema.py:213-227 | the imported batch has exactly the schema's columns that the batch has, in the batch's order and with every row |
| SchemaValidation.ImportedCellTypes | database/schema.py:218-225 | after import, text columns hold only text and float columns only numbers or missing cells |
| DbManager.DatabaseManager.constructor | database/db_manager.py:8-25 | the store opens on the database's contents |
| DbManager.DefaultSchemaMatchesTable | database/db_manager.py:29-43 | the built-in schema has the table's seven data columns, and its required fields are the `NOT NULL` columns |
| DbManager.DatabaseManager.GetAllRecords | database/db_manager.py:55-57 | for `food_consumption`: every active row exactly once. For `deleted_records`: the log. Any other table raises an error |
| DbManager.DatabaseManager.GetRecordById | database/db_manager.py:59-64 | returns the row with that id, or nothing. `deleted_records`, which has no `id`, and unknown tables raise errors |
| DbManager.UnknownColumn | database/db_manager.py:69-76 | finds a key of the data that is not a column exactly when one exists |
| DbManager.Fill | database/db_manager.py:66-76 | an inserted row holds the given value in each given column and `NULL` in the other columns |
| DbManager.Assign | database/db_manager.py:88-98 | an update writes the given columns and keeps the others |
| DbManager.FilledNotNull | database/db_manager.py:30-33 | the inserted row has no `NULL` in a `NOT NULL` column exactly when the data gives each of them a value |
| DbManager.InsertError | database/db_manager.py:66-76 | an insert succeeds exactly when the data names at least one column, only known columns, and both `NOT NULL` columns with values |
| DbManager.UpdateError | database/db_manager.py:88-98 | an update succeeds exactly when the data names at least one column, only known columns, and does not set a `NOT NULL` column to `NULL` |
| DbManager.DatabaseManager.AddRecord | database/db_manager.py:66-77 | keeps the store consistent and performs `AddStep` with an id that is not in use, which it returns |
| DbManager.AddThenGet | database/db_manager.py:66-77 | an added row can be read back under its id: version 1, the given columns, `NULL` elsewhere. No other row and not the log changes |
| DbManager.AddKeepsConsistent | database/db_manager.py:66-77 | adding a valid row under an unused id keeps the store consistent |
| DbManager.UnusedId | database/db_manager.py:77 | some id is not in use, so the database can always assign one |
| DbManager.DatabaseManager.UpdateRecord | database/db_manager.py:79-98 | keeps the store consistent and performs `UpdateStep` |
| DbManager.UpdateBumpsVersion | database/db_manager.py:82-98 | a successful update raises the version by exactly one, writes the given columns and `updated_at`, and changes nothing else |
| DbManager.FailedUpdateChangesNothing | database/db_manager.py:83-86 | updating an id without a row raises an error and, like any failed update, changes nothing |
| DbManager.UpdateKeepsConsistent | database/db_manager.py:79-98 | updating keeps the store consistent |
| DbManager.DatabaseManager.DeleteRecord | database/db_manager.py:100-117 | keeps the store consistent and performs `DeleteStep` |
| DbManager.DeleteKeepsConsistent | database/db_manager.py:100-117 | deleting keeps the store consistent |
| DbManager.DeletePushes | database/db_manager.py:103-116 | deleting pushes the row, as it was, onto the tombstone history of its id. Other ids' histories are untouched |
| DbManager.LastMatch | database/db_manager.py:122-125 | finds the last tombstone of (id, table) in the log, or reports that there is none |
| DbManager.LastMatchIsLatest | database/db_manager.py:123 | in a consistent store the last tombstone of an id in the log is the one with the latest `deleted_at` |
| DbManager.DatabaseManager.UndoDelete | database/db_manager.py:119-146 | keeps the store consistent and performs `UndoStep`, finding the latest tombstone by scanning the log |
| DbManager.UndoPops | database/db_manager.py:119-146 | a successful undo restores the newest snapshot and removes exactly that tombstone from its id's history |
| DbManager.UndoKeepsConsistent | database/db_manager.py:119-146 | undoing keeps the store consistent |
| DbManager.DeleteThenUndo | database/db_manager.py:100-146 | an undo straight after a delete restores the table and the log as they were |
| DbManager.NoDoubleUndo | database/db_manager.py:119-146 | a second undo of the same id never succeeds as well: the restored row clashes with any older tombstone |
| DbManager.CsvRecord | database/db_manager.py:158-166 | row `j` of a batch is passed on with exactly the data columns the batch has, each holding that row's cell. The columns keep the batch's order, and each appears once when the batch names each column once |
| DbManager.DatabaseManager.AddEach | database/db_manager.py:158-167 | the rows are added in order under fresh, distinct ids. The first failing row stops the loop, and the rows before it stay |
| DbManager.DatabaseManager.ImportCsvData | database/db_manager.py:148-170 | another table returns `False`, and a missing `commodity` or `age_group` column raises an error before any insert. Otherwise the rows are added in order, and on success all of them |
| DbManager.InsertedAllKeys | database/db_manager.py:158-167 | an import adds exactly its new ids, leaves the log alone and advances the clock once per row |
| DbManager.InsertedAllKeeps | database/db_manager.py:158-167 | rows that were there before an import stay unchanged |
| DbManager.InsertedAllRow | database/db_manager.py:158-167 | the `k`-th imported row holds the `k`-th record's data, at version 1 |
| DbManager.DatabaseManager.GetVersions | database/db_manager.py:172-179 | one entry with the current version and update time when the row exists, none otherwise |
| Utils.ShowNat | components/utils.py:61 | a row number or count is written as decimal digits without a leading zero |
| Utils.ShowNatRoundTrip | components/utils.py:67 | reading the written number back gives the number, so a row label names one row |
| Utils.ErroneousRowsFacts | components/utils.py:57-66 | the rows with errors are exactly the positions whose map is non-empty, in increasing order |
| Utils.ErrorCountRows | components/utils.py:57 | the count in the header is the number of rows with errors |
| Utils.Listed | components/utils.py:63-70 | the listed rows are positions of the batch |
| Utils.ValidIffNoErrors | components/utils.py:54-59 | the success note is shown exactly when no row has an error. An empty batch is valid |
| Utils.HeaderIsNotValid | components/utils.py:55-61 | an error summary never reads as the success note |
| Utils.ListedAreFirst | components/utils.py:63-70 | at most five rows are listed, all with errors and in order, and no row with errors is skipped in favour of a later one |
| Utils.OverflowCountsTheRest | components/utils.py:72-73 | the overflow line appears exactly when more than five rows have errors, and counts the rows not listed |
| Utils.ShowRow | components/utils.py:65-70 | one turn of the row loop lists a row with errors while fewer than five are shown |
| Utils.ShownAll | components/utils.py:64-73 | after the loop, the listed rows are those of the summary, and fewer rows are shown than have errors exactly when more than five do |
| Utils.FormatValidationMessage | components/utils.py:52-76 | the page's message is `Message`: the success note, or a header with the count, the first five rows with errors, an overflow line and the footer |

## Left out

- **I/O and libraries.** Reading the schema file (YAML or TOML), the database
  file, DuckDB connections and closing them are not modelled. The validator
  receives the parsed configuration, or `None` when the file is missing,
  unreadable or of an unsupported kind. The store opens on a given state.
- **Printed warnings.** The warnings `_load_schema` prints are left out.
- **Conversions.** `float(text)`, `int(text)`, `pd.to_numeric` on text, and
  `str`/f-string rendering of numbers are parameters. Their exact grammars and
  output are not modelled.
- **Numbers.** Numbers are reals. Floating-point rounding, NaN as a number and
  infinities are left out; pandas' NaN is the missing cell.
- CheckFieldIdempotent: holds only when rendering a number never gives the
  empty string (`RendersNonEmpty`). Python's `str` of a number never does, but
  the renderer is a parameter of the model.
- RevalidationIsStable: rests on the same assumption about rendering.
- **Booleans.** Python booleans as values, which `int`/`float` accept, are not
  values of the model.
- **Strings.** Lower-casing and `isspace` are modelled for ASCII only.
- **Returning the record.** `validate_record` writes converted values into the
  caller's dictionary. The model returns the converted record instead, so
  aliasing of that dictionary is not captured.
- **Timestamps.** The store's timestamps are readings of a logical clock, not
  wall-clock times.
- **Id assignment.** An insert receives some id not in use, as the code
  intends (see **DuckDB statements** below). Which id is left open, so the
  model allows reuse of a deleted row's id.
- **Row order.** The order of the rows `SELECT *` returns is left unspecified.
- **Concurrency.** Concurrent access is not modelled.
- **Database API.** `get_record_by_id`, `delete_record`, `undo_delete` and
  `get_versions` treat a fetched row as a mapping with `.keys()` and
  `["version"]`, and serialise it with `json.dumps`. The model follows that
  intent: a row is a record with named fields, and a tombstone holds the row
  itself rather than JSON text. How the database API actually returns rows is
  not part of this model.
- **DuckDB statements.** Three statements are modelled by their intent, not as
  DuckDB would run them. `id INTEGER PRIMARY KEY` (database/db_manager.py:31)
  has no default or sequence, so an insert that leaves out `id` does not get
  one assigned. `SELECT last_insert_rowid()` (database/db_manager.py:77) is not
  a DuckDB function. DuckDB's `DELETE` accepts no `ORDER BY ... LIMIT 1`
  (database/db_manager.py:141-144). The model assigns an unused id, returns
  it, and removes exactly the latest tombstone of the id.
- **Insert data.** Insert and update data that name `id`, `version` or a
  timestamp column are rejected as unknown columns. Column type casts
  performed by the database are not modelled.
- **Other files.** The pages and components other than
  `format_validation_message` (`app.py`, `components/data_entry.py`,
  `components/data_display.py` and the rest of `components/utils.py`) are not
  part of this model.

## Findings

| source | as written | input that shows it | evidently intended | confidence | as-written member | corrected member |
|---|---|---|---|---|---|---|
| database/schema.py:152 | `[{}] * len(validated_df)` repeats one dictionary, so every row's error map is the same object. A message for one row then appears in every row | a two-row `food_consumption` batch whose `commodity` column holds `"Apple"` and `""`: row 1 (the clean row) also reports "commodity cannot be empty" | one map per row, holding only the messages of that row's cells (`RowErrors`); `has_errors` then still means that some row has a message (`BatchErrorsEmptyIff`) | not executed | SchemaValidation.SharedMapBlamesCleanRow | SchemaValidation.RowErrorsLookup |
