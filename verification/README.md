# structify core, modelled in Dafny

structify turns documents into rows of user-defined tables. A **table** belongs to a user. It is an append-only series of **versions**, and each version is a list of **columns**: a column is an id plus a definition, which is a name, a description, a type and an optional flag. A **row** is extracted from some content against one version and holds one **cell** per column it fills.

This project models the core of that system as pure functions over immutable datatypes and proves properties about them:

- `Table.update` adds a version. It reuses the first known column whose definition matches each requested one and mints a column for every definition it has not seen. `getCurrentVersion` picks the version with the highest order number (`table.dfy`, module `TableModel`).
- The relational store is written by `ExposedTableRepository.persist` and `ExposedRowRepository.save` and read back by their finders. It is modelled as one map per table, keyed by each record's natural key (`storage.dfy`). Upsert-then-delete-stale becomes one generic reconciliation (`reconcile.dfy`). The column type codec, `fromDbType` with `toTypeName`/`toStringFormat`, lives in `table_repository.dfy`. The table finder lives in `table_finder.dfy` and the row repository in `row_repository.dfy`.
- The query-side read models for versions and rows join records and render ids as text (`version_read_model.dfy`, `row_read_model.dfy`, and `ids.dfy` for `UUID.toString()`).
- The in-memory repositories used as test fixtures are modelled too (`table_in_memory.dfy`, `row_in_memory.dfy`, `version_read_model_in_memory.dfy`).
- Three further pieces are modelled:
  - the HTTP column definition's `toDomain` (`column_dto.dfy`)
  - the JSON-schema generator that describes a version's columns to the extractor (`schema.dfy`)
  - the row command handler: find the table, find the requested version, extract, save (`row_commands.dfy`)

Exceptions become values of `Results.Result`, with one `Failure` constructor per exception the source raises:
- `NoEntityFound` is `NoEntityFoundException`.
- `NoSuchElement` is `NoSuchElementException`.
- `RowNotFound` is the fixture's `error(...)`.
- `MissingVersion` is the handler's `error(...)`.
- `UnknownColumnType` and `UnknownStringFormat` are the failures of `error(...)` in `fromDbType`/`toDomain` and of `StringFormat.valueOf`.

Identifiers are 128-bit numbers (`Ids.Uuid`). Whenever the source draws a random id, the model takes the id as a parameter. The order in which the database returns a scan, or in which a Kotlin `Set` is iterated, is not specified. The model fixes one such order per set of records (`Collections.Enumerate`) and states nothing about which order it is: every property holds whatever that order is. Because the order is fixed per set, two scans of the same records in the model return them in the same order; a property that compares two separate scans relies on that (see `VersionReadModel.CurrentIsListed` under "Left out").

## Model

| member | source | states |
|---|---|---|
| ColumnModel.FormatValueOf | domain/src/main/kotlin/io/structify/domain/table/model/ColumnType.kt:8-10 | `StringFormat.valueOf` accepts exactly `"DATE"` and gives back the constant of that name; every other string fails with `UnknownStringFormat` naming it |
| ColumnModel.FormatValueOfName | domain/src/main/kotlin/io/structify/domain/table/model/ColumnType.kt:8-10 | `valueOf` inverts `name` for every string format |
| ColumnModel.DefinitionEquality | domain/src/main/kotlin/io/structify/domain/table/model/Column.kt:10-15 | two definitions are equal iff name, description, type and optional flag all are, so a difference in any one field makes them unequal |
| ColumnModel.ColumnTypesDiffer | domain/src/main/kotlin/io/structify/domain/table/model/ColumnType.kt:3-6 | `StringType(DATE)` differs from the plain string type, `NumberType` differs from every string type, and the plain string type carries no format |
| ColumnModel.IdentityIsNotDefinition | domain/src/main/kotlin/io/structify/domain/table/model/Column.kt:5-8 | columns with equal definitions are equal iff their ids are: identity is not part of the definition |
| TableModel.AllColumns | domain/src/main/kotlin/io/structify/domain/table/model/Table.kt:15 | the flattened list holds every column of every version and nothing else |
| TableModel.FirstMatch | domain/src/main/kotlin/io/structify/domain/table/model/Table.kt:17 | the position found holds a column with the requested definition and no earlier column has it; it is the length of the list when none does |
| TableModel.Resolve | domain/src/main/kotlin/io/structify/domain/table/model/Table.kt:17 | the column a request resolves to carries the requested definition; it is the first known column with that definition when there is one, and otherwise a new column with the drawn id |
| TableModel.ResolvedColumns | domain/src/main/kotlin/io/structify/domain/table/model/Table.kt:16-18 | each column of the mapped list is the first known column with its request's definition, or, when no known column has it, a new column with its own drawn id |
| TableModel.Recent | domain/src/main/kotlin/io/structify/domain/table/model/Table.kt:14 | 0 for no versions; otherwise an order number that one of the versions has and none exceeds |
| TableModel.NewVersion | domain/src/main/kotlin/io/structify/domain/table/model/Table.kt:14-19 | the new version has the drawn id and one column per request; column i is the first column of any earlier version whose definition equals request i, or a new column with the i-th drawn id when none has; its order number is 1 for a table without versions, and otherwise one more than some existing version's number and larger than every existing one |
| TableModel.Update | domain/src/main/kotlin/io/structify/domain/table/model/Table.kt:13-20 | `update` keeps the table's id, owner and name and its earlier versions unchanged and in place, and appends exactly one version whose column i carries requested definition i |
| TableModel.UpdateOrderNumber | domain/src/main/kotlin/io/structify/domain/table/model/Table.kt:14-19 | the new order number is 1 on a table without versions, exceeds every earlier one, and is one more than some earlier one |
| TableModel.UpdateAddsExactlyOneVersion | domain/src/main/kotlin/io/structify/domain/table/model/Table.kt:19 | read as a set, the versions grow by exactly one new element |
| TableModel.UpdateReusesFirstMatch | domain/src/main/kotlin/io/structify/domain/table/model/Table.kt:15-17 | a request equal to a known column's definition becomes the first such column in iteration order, id included |
| TableModel.UpdateMintsUnmatched | domain/src/main/kotlin/io/structify/domain/table/model/Table.kt:17 | a request no known column matches becomes a new column under the freshly drawn id |
| TableModel.CurrentVersion | domain/src/main/kotlin/io/structify/domain/table/model/Table.kt:22 | `getCurrentVersion` fails with `NoSuchElement` iff there are no versions, and otherwise returns one of them whose order number none exceeds and which every version before it has a smaller number than: the first of the highest, as `maxBy` picks |
| TableModel.CurrentVersionAfterUpdate | domain/src/main/kotlin/io/structify/domain/table/model/Table.kt:13-22 | after `update` the current version is the one just appended |
| TableModel.UpdateKeepsAscending | domain/src/main/kotlin/io/structify/domain/table/model/Table.kt:14-19 | if order numbers strictly increase along the versions, they still do after `update` |
| TableModel.SameTableIgnoresState | domain/src/main/kotlin/io/structify/domain/table/model/Table.kt:24-35 | table equality compares ids only, whatever the owner, name and versions, and is symmetric |
| TableModel.UpdateKeepsNumbered | domain/src/main/kotlin/io/structify/domain/table/model/Table.kt:14-19 | if version k has order number k + 1, `update` keeps that so |
| TableModel.NumberedAfterUpdates | domain/src/main/kotlin/io/structify/domain/table/model/Table.kt:14-19 | n updates of a numbered table add n versions and keep it numbered |
| TableModel.OrderNumbersCountUp | domain/src/main/kotlin/io/structify/domain/table/model/Table.kt:14-22 | after n updates of a table without versions the order numbers are exactly 1..n in order, and the current version is the last one added |
| TableModel.KnownColumnIsStable | domain/src/main/kotlin/io/structify/domain/table/model/Table.kt:15-17 | once a definition has a known column, every later update resolves it to that same column |
| TableModel.ResolvedColumnIsRemembered | domain/src/main/kotlin/io/structify/domain/table/model/Table.kt:15-19 | the column a definition gets in one update is the column the next update gives it back |
| TableModel.IdsIdentifyAppend | domain/src/main/kotlin/io/structify/domain/table/model/Table.kt:15-18 | appending columns that are either known or new with fresh drawn ids keeps every column id standing for one definition |
| TableModel.UpdateKeepsIdsIdentifying | domain/src/main/kotlin/io/structify/domain/table/model/Table.kt:15-18 | with fresh ids drawn for new columns, no column id ever stands for two different definitions |
| Reconciliation.Upsert | infrastructure/src/main/kotlin/io/structify/infrastructure/table/persistence/ExposedTableRepository.kt:27-35 | after a series of upserts the keys are the old keys plus the written ones; a written key holds its last written value and every other key keeps its value |
| Reconciliation.DeleteStale | infrastructure/src/main/kotlin/io/structify/infrastructure/table/persistence/ExposedTableRepository.kt:112-126 | `deleteWhere { scope and key notInList keep }` removes exactly the in-scope entries whose key is not kept and changes no value |
| Reconciliation.ReconcileExact | infrastructure/src/main/kotlin/io/structify/infrastructure/table/persistence/ExposedTableRepository.kt:27-38 | after upserting a parent's children and deleting its stale ones, its children are exactly the written keys with their last values, and children of other parents are as they were |
| Reconciliation.ReconcileIdempotent | infrastructure/src/main/kotlin/io/structify/infrastructure/table/persistence/ExposedTableRepository.kt:22-40 | reconciling twice with the same children leaves what reconciling once does |
| Storage.Cascade | infrastructure/src/main/kotlin/io/structify/infrastructure/table/persistence/TableSchema.kt:23-25 | once versions are deleted, exactly their column records, the rows recorded against them and those rows' cells disappear; every surviving record keeps its value and table and version records are untouched |
| Storage.CascadeKeepsRows | infrastructure/src/main/kotlin/io/structify/infrastructure/row/persistence/RowsTable.kt:11-19 | which rows and cells a cascade removes depends on the row and cell records alone |
| TableRepository.FromDbType | infrastructure/src/main/kotlin/io/structify/infrastructure/table/persistence/ExposedTableRepository.kt:75-79 | `NUMBER` decodes to the number type whatever format is stored, `STRING` to a string type whose format must be a constant's name, any other type name fails with `UnknownColumnType`; a decoded type encodes back to the same type name |
| TableRepository.TypeCodecRoundTrip | infrastructure/src/main/kotlin/io/structify/infrastructure/table/persistence/ExposedTableRepository.kt:102-110 | decoding the stored type name and format of any column type gives that type back |
| TableRepository.ColumnEntries | infrastructure/src/main/kotlin/io/structify/infrastructure/table/persistence/ExposedTableRepository.kt:31-35 | one upsert per column, in column order, keyed by (version id, name) and holding that column's record, all inside the version |
| TableRepository.ReconciledVersionColumns | infrastructure/src/main/kotlin/io/structify/infrastructure/table/persistence/ExposedTableRepository.kt:31-36 | upserting a version's columns by (version, name) and deleting the names it no longer has leaves exactly its column names under it, each with its column's record when names are unique, and no other version's columns change |
| TableRepository.PersistVersion | infrastructure/src/main/kotlin/io/structify/infrastructure/table/persistence/ExposedTableRepository.kt:28-36 | one pass of the version loop stores the version under its id against the table with its order number, leaves exactly the version's column names under it, touches no other version record, no other version's columns, and no table, row or cell |
| TableRepository.PersistVersions | infrastructure/src/main/kotlin/io/structify/infrastructure/table/persistence/ExposedTableRepository.kt:27-37 | the version loop touches neither table records nor rows nor cells |
| TableRepository.RemoveStaleVersions | infrastructure/src/main/kotlin/io/structify/infrastructure/table/persistence/ExposedTableRepository.kt:112-118 | a version record survives iff it belongs to another table or is among the kept ids, unchanged; columns and rows survive iff their version was not deleted, and no table record, surviving record or cell value changes |
| TableRepository.Persist | infrastructure/src/main/kotlin/io/structify/infrastructure/table/persistence/ExposedTableRepository.kt:22-40 | `persist` writes the table record with the aggregate's owner and name and no other table record; afterwards every stored version of this table is one of the aggregate's, and rows and cells are only ever deleted, never altered |
| TableRepository.PersistVersionsVersions | infrastructure/src/main/kotlin/io/structify/infrastructure/table/persistence/ExposedTableRepository.kt:27-30 | the version loop upserts each version record in turn, later duplicates winning |
| TableRepository.PersistVersionsColumns | infrastructure/src/main/kotlin/io/structify/infrastructure/table/persistence/ExposedTableRepository.kt:31-36 | after the loop, the columns of a version of the aggregate are exactly those its last occurrence wrote; columns of other versions are as they were |
| TableRepository.PersistVersionLevel | infrastructure/src/main/kotlin/io/structify/infrastructure/table/persistence/ExposedTableRepository.kt:27-38 | at the version level `persist` is one reconciliation of this table's versions |
| TableRepository.PersistMatchesReference | infrastructure/src/main/kotlin/io/structify/infrastructure/table/persistence/ExposedTableRepository.kt:22-40 | `persist` equals a record-by-record description of the store it leaves: table record written, this table's versions exactly the aggregate's, their columns exactly those written, stale versions gone with their columns, rows and cells, everything else unchanged |
| TableRepository.PersistWritesTable | infrastructure/src/main/kotlin/io/structify/infrastructure/table/persistence/ExposedTableRepository.kt:23-25 | the table record holds the aggregate's owner and name, and no other table record changes |
| TableRepository.PersistWritesVersions | infrastructure/src/main/kotlin/io/structify/infrastructure/table/persistence/ExposedTableRepository.kt:27-30 | each version of the aggregate is stored under its id against this table, with its order number when ids are distinct |
| TableRepository.PersistVersionsExact | infrastructure/src/main/kotlin/io/structify/infrastructure/table/persistence/ExposedTableRepository.kt:38 | the stored versions of this table are exactly the aggregate's version ids |
| TableRepository.ColumnEntriesExact | infrastructure/src/main/kotlin/io/structify/infrastructure/table/persistence/ExposedTableRepository.kt:31-35 | with unique names the column upserts write one key per column name, holding that column's record |
| TableRepository.PersistColumnsExact | infrastructure/src/main/kotlin/io/structify/infrastructure/table/persistence/ExposedTableRepository.kt:31-36 | the stored column names of each aggregate version are exactly its column names, each with its description, type, format and optional flag |
| TableRepository.PersistIsScoped | infrastructure/src/main/kotlin/io/structify/infrastructure/table/persistence/ExposedTableRepository.kt:112-126 | versions of other tables, columns of versions this table did not own, and rows of versions that survive are left exactly as they were |
| TableRepository.PersistCascades | infrastructure/src/main/kotlin/io/structify/infrastructure/table/persistence/ExposedTableRepository.kt:112-118 | a version of this table the aggregate no longer has is deleted together with its columns, its rows and their cells |
| TableRepository.NothingStaleAfterPersist | infrastructure/src/main/kotlin/io/structify/infrastructure/table/persistence/ExposedTableRepository.kt:112-118 | after `persist` no version of this table lies outside the aggregate |
| TableRepository.PersistedTwice | infrastructure/src/main/kotlin/io/structify/infrastructure/table/persistence/ExposedTableRepository.kt:22-40 | the reference description of `persist` is idempotent |
| TableRepository.PersistIdempotent | infrastructure/src/main/kotlin/io/structify/infrastructure/table/persistence/ExposedTableRepository.kt:22-40 | persisting the same aggregate twice leaves the store as persisting it once |
| TableFinder.ColumnOf | infrastructure/src/main/kotlin/io/structify/infrastructure/table/persistence/ExposedTableRepository.kt:131-138 | a column record reads back iff its type decodes, keeping the stored id and taking its name from the key; failures are decoding failures |
| TableFinder.ColumnOfRecord | infrastructure/src/main/kotlin/io/structify/infrastructure/table/persistence/ExposedTableRepository.kt:93-100 | the record written for a column reads back as that column |
| TableFinder.ColumnRows | infrastructure/src/main/kotlin/io/structify/infrastructure/table/persistence/ExposedTableRepository.kt:129-130 | the selected records are those of the scanned keys, in scan order |
| TableFinder.FetchColumns | infrastructure/src/main/kotlin/io/structify/infrastructure/table/persistence/ExposedTableRepository.kt:128-139 | a failed read of a version's columns is a decoding failure |
| TableFinder.ReadVersion | infrastructure/src/main/kotlin/io/structify/infrastructure/table/persistence/ExposedTableRepository.kt:57-63 | a version read back keeps the record's id and order number; failures are decoding failures |
| TableFinder.VersionRows | infrastructure/src/main/kotlin/io/structify/infrastructure/table/persistence/ExposedTableRepository.kt:54-56 | the selected version records are those of the scanned ids, in scan order |
| TableFinder.VersionRowsElems | infrastructure/src/main/kotlin/io/structify/infrastructure/table/persistence/ExposedTableRepository.kt:54-56 | the selected records are exactly the records of the scanned ids |
| TableFinder.ReadVersions | infrastructure/src/main/kotlin/io/structify/infrastructure/table/persistence/ExposedTableRepository.kt:56-64 | a failed read of a list of versions is a decoding failure |
| TableFinder.ReadVersionsAllOk | infrastructure/src/main/kotlin/io/structify/infrastructure/table/persistence/ExposedTableRepository.kt:56-64 | when the list reads back, each of its versions does |
| TableFinder.ReadVersionsOkWhenAllOk | infrastructure/src/main/kotlin/io/structify/infrastructure/table/persistence/ExposedTableRepository.kt:56-64 | when each version reads back, so does the list |
| TableFinder.ReadVersionsOk | infrastructure/src/main/kotlin/io/structify/infrastructure/table/persistence/ExposedTableRepository.kt:56-64 | the list reads back iff every one of its versions does |
| TableFinder.ReadVersionsValues | infrastructure/src/main/kotlin/io/structify/infrastructure/table/persistence/ExposedTableRepository.kt:56-64 | a list read back holds each version in place, as it reads back on its own |
| TableFinder.LoadVersions | infrastructure/src/main/kotlin/io/structify/infrastructure/table/persistence/ExposedTableRepository.kt:54-64 | a failed load of a table's versions is a decoding failure |
| TableFinder.LoadVersionsOk | infrastructure/src/main/kotlin/io/structify/infrastructure/table/persistence/ExposedTableRepository.kt:54-64 | a table's versions load iff every stored version of the table reads back |
| TableFinder.LoadVersionsValues | infrastructure/src/main/kotlin/io/structify/infrastructure/table/persistence/ExposedTableRepository.kt:54-64 | the loaded versions carry exactly the stored version ids of the table, each once, each as it reads back |
| TableFinder.FindById | infrastructure/src/main/kotlin/io/structify/infrastructure/table/persistence/ExposedTableRepository.kt:42-68 | nothing unless a table record matches both id and owner; a table record of that owner whose stored versions all decode is found; a table found has that id, owner and stored name and exactly the table's stored version ids; failures are decoding failures |
| TableFinder.FindByIdThrow | infrastructure/src/main/kotlin/io/structify/infrastructure/table/persistence/ExposedTableRepository.kt:70-73 | `findByIdThrow` fails with `NoEntityFound` exactly when `findById` finds nothing, passes decoding failures on, and otherwise returns what `findById` found |
| TableFinder.ColumnKeysAfterPersist | infrastructure/src/main/kotlin/io/structify/infrastructure/table/persistence/ExposedTableRepository.kt:31-36 | after `persist`, the stored column keys of each aggregate version are exactly its column names |
| TableFinder.ColumnRecordsAfterPersist | infrastructure/src/main/kotlin/io/structify/infrastructure/table/persistence/ExposedTableRepository.kt:93-100 | after `persist`, each aggregate column is stored under its name with its record |
| TableFinder.PersistHolds | infrastructure/src/main/kotlin/io/structify/infrastructure/table/persistence/ExposedTableRepository.kt:22-40 | the store after `persist` holds the aggregate: its table record, exactly its versions, each with its order number and exactly its columns |
| TableFinder.ReadHeldKey | infrastructure/src/main/kotlin/io/structify/infrastructure/table/persistence/ExposedTableRepository.kt:128-139 | every stored column key of a held version reads back as one of its columns |
| TableFinder.ReadHeldColumn | infrastructure/src/main/kotlin/io/structify/infrastructure/table/persistence/ExposedTableRepository.kt:128-139 | every column of a held version is read back from its key |
| TableFinder.ReadHeldRows | infrastructure/src/main/kotlin/io/structify/infrastructure/table/persistence/ExposedTableRepository.kt:128-139 | reading a held version's records in any order that lists each key once succeeds and yields exactly its columns |
| TableFinder.FetchColumnsHeld | infrastructure/src/main/kotlin/io/structify/infrastructure/table/persistence/ExposedTableRepository.kt:128-139 | the columns fetched for a held version are exactly its columns |
| TableFinder.ReadHeldVersion | infrastructure/src/main/kotlin/io/structify/infrastructure/table/persistence/ExposedTableRepository.kt:57-63 | each stored version of a held aggregate reads back as one of its versions: same id, order number and columns |
| TableFinder.LoadHeld | infrastructure/src/main/kotlin/io/structify/infrastructure/table/persistence/ExposedTableRepository.kt:54-64 | the versions of a held aggregate load back as exactly its version ids, each agreeing with one of its versions |
| TableFinder.FindHeld | infrastructure/src/main/kotlin/io/structify/infrastructure/table/persistence/ExposedTableRepository.kt:42-68 | finding a held aggregate gives back its id, owner, name and as many versions, each agreeing with one of its own |
| TableFinder.FindAfterPersist | infrastructure/src/main/kotlin/io/structify/infrastructure/table/persistence/ExposedTableRepository.kt:22-68 | reading back a persisted well-formed aggregate gives the same table, up to the order of versions and columns |
| TableFinder.ForeignTableIsNotFound | infrastructure/src/main/kotlin/io/structify/infrastructure/table/persistence/ExposedTableRepository.kt:42-73 | after `persist`, a user other than the owner finds nothing and `findByIdThrow` gives `NoEntityFound` |
| ColumnDto.UpperChar | infrastructure/src/main/kotlin/io/structify/infrastructure/table/api/TableRoutes.kt:120 | the model's upper case of one character maps `a`-`z` to `A`-`Z` and is one or two characters long; the length bound is a property of this approximation only, since Kotlin's `uppercase()` turns some characters (the ligature `ﬃ`, U+0390) into three |
| ColumnDto.Uppercase | infrastructure/src/main/kotlin/io/structify/infrastructure/table/api/TableRoutes.kt:120 | the model's upper-casing keeps or lengthens a string, at most doubling it; as with `UpperChar`, the doubling bound holds of the approximation, not of Kotlin's full Unicode `uppercase()` |
| ColumnDto.ToDomain | infrastructure/src/main/kotlin/io/structify/infrastructure/table/api/TableRoutes.kt:119-131 | `STRING` in any case gives the plain string type without a format and the `DATE` type with format `"DATE"`, any other format failing; `NUMBER` in any case gives the number type whatever the format; any other type fails with `UnknownColumnType` naming it; name, description and optional flag are copied |
| ColumnDto.ToDomainAgreesWithStore | infrastructure/src/main/kotlin/io/structify/infrastructure/table/api/TableRoutes.kt:120-122 | a type accepted over HTTP parses to what the store decodes from its upper-cased name |
| ColumnDto.ToDomainIgnoresCase | infrastructure/src/main/kotlin/io/structify/infrastructure/table/api/TableRoutes.kt:120 | spellings of `STRING` or `NUMBER` that differ only in case parse alike |
| ColumnDto.UppercaseOfCapitals | infrastructure/src/main/kotlin/io/structify/infrastructure/table/api/TableRoutes.kt:120 | a name written in capital letters is its own upper case |
| ColumnDto.UppercaseOfSmall | infrastructure/src/main/kotlin/io/structify/infrastructure/table/api/TableRoutes.kt:120 | a name written in small letters upper-cases letter by letter to the same name in capitals |
| ColumnDto.StringSpellings | infrastructure/src/main/kotlin/io/structify/infrastructure/table/api/TableRoutes.kt:120 | `"string"` and `"STRING"` both upper-case to `"STRING"` |
| ColumnDto.NumberSpellings | infrastructure/src/main/kotlin/io/structify/infrastructure/table/api/TableRoutes.kt:120 | `"number"` and `"NUMBER"` both upper-case to `"NUMBER"` |
| ColumnDto.LowerCaseTypeNamesParse | infrastructure/src/main/kotlin/io/structify/infrastructure/table/api/TableRoutes.kt:120-122 | `"string"` parses as `"STRING"` does, and `"number"` as `"NUMBER"` does, to the number type |
| SchemaGenerator.ToProperty | infrastructure/src/main/kotlin/io/structify/infrastructure/row/extractos/openai/SchemaGenerator.kt:16-30 | the property is keyed by the column name, copies its description, and its type set holds `"string"` iff the column is a string, `"number"` iff it is a number and `"null"` iff it is optional |
| SchemaGenerator.RequiredColumnHasOneType | infrastructure/src/main/kotlin/io/structify/infrastructure/row/extractos/openai/SchemaGenerator.kt:19-27 | a required column admits exactly one JSON type |
| SchemaGenerator.OptionalColumnHasTwoTypes | infrastructure/src/main/kotlin/io/structify/infrastructure/row/extractos/openai/SchemaGenerator.kt:19-27 | an optional column admits exactly two JSON types |
| SchemaGenerator.PropertyEntries | infrastructure/src/main/kotlin/io/structify/infrastructure/row/extractos/openai/SchemaGenerator.kt:7 | one property pair per column, in column order |
| SchemaGenerator.GenerateSchema | infrastructure/src/main/kotlin/io/structify/infrastructure/row/extractos/openai/SchemaGenerator.kt:6-14 | an unnamed `object` schema whose `required` set is every column name and whose property keys are the same set, each property being that of a column with the name, and under each name the property of the last column with it, as `associate` keeps the last pair |
| SchemaGenerator.PropertiesAreLastNamed | infrastructure/src/main/kotlin/io/structify/infrastructure/row/extractos/openai/SchemaGenerator.kt:7 | a later column replaces an earlier one of the same name: the property under a name is the last such column's |
| SchemaGenerator.PropertiesFromColumns | infrastructure/src/main/kotlin/io/structify/infrastructure/row/extractos/openai/SchemaGenerator.kt:7 | every property comes from a column with its name |
| SchemaGenerator.SchemaDescribesEveryColumn | infrastructure/src/main/kotlin/io/structify/infrastructure/row/extractos/openai/SchemaGenerator.kt:6-14 | with unique names every column is required and described by its own property |
| RowRepository.CellEntries | infrastructure/src/main/kotlin/io/structify/infrastructure/row/persistence/ExposedRowRepository.kt:23-27 | one upsert per cell, in iteration order, keyed by (row id, column id) and holding its value |
| RowRepository.Save | infrastructure/src/main/kotlin/io/structify/infrastructure/row/persistence/ExposedRowRepository.kt:18-30 | `save` writes the row record with its version and changes no table, version or column record |
| RowRepository.ReconcileCells | infrastructure/src/main/kotlin/io/structify/infrastructure/row/persistence/ExposedRowRepository.kt:23-28 | reconciling a row's cells listed in any order stores one cell per column they fill, holding the value of one of them |
| RowRepository.SaveCellsExact | infrastructure/src/main/kotlin/io/structify/infrastructure/row/persistence/ExposedRowRepository.kt:23-28 | after `save` the row's stored cell keys are exactly the columns its cells fill, each holding a value of one of its cells |
| RowRepository.SaveStoresCells | infrastructure/src/main/kotlin/io/structify/infrastructure/row/persistence/ExposedRowRepository.kt:23-27 | with one cell per column, every cell is stored under (row id, column id) with its value |
| RowRepository.SaveIsScoped | infrastructure/src/main/kotlin/io/structify/infrastructure/row/persistence/ExposedRowRepository.kt:59-65 | `save` never adds, removes or changes a cell of another row |
| RowRepository.SaveIdempotent | infrastructure/src/main/kotlin/io/structify/infrastructure/row/persistence/ExposedRowRepository.kt:18-30 | saving the same row twice leaves the store as saving it once |
| RowRepository.CellsOf | infrastructure/src/main/kotlin/io/structify/infrastructure/row/persistence/ExposedRowRepository.kt:67-76 | the cells read back are exactly the stored cells of the row |
| RowRepository.FindById | infrastructure/src/main/kotlin/io/structify/infrastructure/row/persistence/ExposedRowRepository.kt:32-43 | `findById` finds a row iff its record exists, with its id and version, and its cells are exactly the cells stored for the row, each with its stored value |
| RowRepository.FindByIdOrThrow | infrastructure/src/main/kotlin/io/structify/infrastructure/row/persistence/ExposedRowRepository.kt:45-46 | `findByIdOrThrow` fails with `NoEntityFound` exactly when `findById` finds nothing |
| RowRepository.FindAfterSave | infrastructure/src/main/kotlin/io/structify/infrastructure/row/persistence/ExposedRowRepository.kt:18-46 | a saved row with one cell per column reads back as itself: id, version and exactly its cells |
| RowRepository.AbsentRowIsNotFound | infrastructure/src/main/kotlin/io/structify/infrastructure/row/persistence/ExposedRowRepository.kt:32-46 | a row never saved is not found, and the throwing finder gives `NoEntityFound` |
| RowCommands.FindVersion | domain/src/main/kotlin/io/structify/domain/row/RowCommands.kt:22 | the first version in iteration order with the requested order number, or nothing iff no version has it |
| RowCommands.RowFor | domain/src/main/kotlin/io/structify/domain/row/RowCommands.kt:22-25 | `MissingVersion` iff no version has the requested number; otherwise a row under the fresh id against such a version, with the cells the extractor makes of its columns and the content |
| RowCommands.Handle | domain/src/main/kotlin/io/structify/domain/row/RowCommands.kt:19-27 | an unknown or foreign table fails as `findByIdThrow` does and a missing version with `MissingVersion`, saving nothing; otherwise the row built from a version with the requested number is saved |
| RowCommands.HandleSavesOneRow | domain/src/main/kotlin/io/structify/domain/row/RowCommands.kt:25-26 | on success, when the extracted cells fill each column at most once, exactly the new row is stored and found again, and no other row record changes |
| VersionReadModel.FetchColumns | infrastructure/src/main/kotlin/io/structify/infrastructure/table/readmodel/VersionReadModelExposedRepository.kt:54-69 | one view per stored column of the version, each copying the stored id, description, type name, format and optional flag verbatim |
| VersionReadModel.FetchColumnsExact | infrastructure/src/main/kotlin/io/structify/infrastructure/table/readmodel/VersionReadModelExposedRepository.kt:54-57 | every stored column of the version is listed, and names are listed once |
| VersionReadModel.VersionViewOf | infrastructure/src/main/kotlin/io/structify/infrastructure/table/readmodel/VersionReadModelExposedRepository.kt:24-28 | a version's view carries its id as text and its stored order number |
| VersionReadModel.OwnedVersionIds | infrastructure/src/main/kotlin/io/structify/infrastructure/table/readmodel/VersionReadModelExposedRepository.kt:19-20 | the join selects exactly the versions of the table when the caller owns it, and nothing otherwise |
| VersionReadModel.FindAllVersions | infrastructure/src/main/kotlin/io/structify/infrastructure/table/readmodel/VersionReadModelExposedRepository.kt:18-30 | every listed view is that of an owned version |
| VersionReadModel.FindAllVersionsExact | infrastructure/src/main/kotlin/io/structify/infrastructure/table/readmodel/VersionReadModelExposedRepository.kt:18-30 | a version is listed iff it belongs to the table and the caller owns the table, and then with its stored order number and columns |
| VersionReadModel.ForeignVersionsAreHidden | infrastructure/src/main/kotlin/io/structify/infrastructure/table/readmodel/VersionReadModelExposedRepository.kt:18-21 | another user's table, or a missing one, lists no versions |
| VersionReadModel.OwnedRows | infrastructure/src/main/kotlin/io/structify/infrastructure/table/readmodel/VersionReadModelExposedRepository.kt:33-35 | the selected records are exactly the owned version records, each once |
| VersionReadModel.FindCurrent | infrastructure/src/main/kotlin/io/structify/infrastructure/table/readmodel/VersionReadModelExposedRepository.kt:32-47 | nothing iff no version is owned; otherwise the view of an owned version whose order number no owned version exceeds |
| VersionReadModel.FindCurrentOrThrow | infrastructure/src/main/kotlin/io/structify/infrastructure/table/readmodel/VersionReadModelExposedRepository.kt:49-52 | fails with `NoEntityFound` exactly when there is no current version, and otherwise returns it |
| VersionReadModel.NoCurrentIffNoneListed | infrastructure/src/main/kotlin/io/structify/infrastructure/table/readmodel/VersionReadModelExposedRepository.kt:32-38 | there is no current version iff nothing is listed |
| VersionReadModel.CurrentIsListed | infrastructure/src/main/kotlin/io/structify/infrastructure/table/readmodel/VersionReadModelExposedRepository.kt:32-47 | the current version is one of the listed versions |
| VersionReadModel.CurrentIsGreatest | infrastructure/src/main/kotlin/io/structify/infrastructure/table/readmodel/VersionReadModelExposedRepository.kt:33-37 | no listed version has a larger order number than the current one |
| VersionReadModel.VersionsAfterPersist | infrastructure/src/main/kotlin/io/structify/infrastructure/table/readmodel/VersionReadModelExposedRepository.kt:18-30 | after `persist` the owner sees exactly the aggregate's versions |
| RowReadModel.TableRowIds | infrastructure/src/main/kotlin/io/structify/infrastructure/row/readmodel/ExposedRowReadModelRepository.kt:16-20 | the join selects exactly the rows whose version belongs to the table, and only when the version and table records exist |
| RowReadModel.FindAllByTableId | infrastructure/src/main/kotlin/io/structify/infrastructure/row/readmodel/ExposedRowReadModelRepository.kt:15-36 | every selected row is listed with its cells, and there are exactly as many views as selected rows: no two rows collapse into one view |
| RowReadModel.ViewsCount | infrastructure/src/main/kotlin/io/structify/infrastructure/row/readmodel/ExposedRowReadModelRepository.kt:22-35 | rendering row ids as text never merges two rows, so a set of rows has as many views as rows |
| RowReadModel.CellViewsExact | infrastructure/src/main/kotlin/io/structify/infrastructure/row/readmodel/ExposedRowReadModelRepository.kt:23-30 | a row's view lists a cell iff it is stored for the row with that value |
| RowReadModel.CellViewsAreStored | infrastructure/src/main/kotlin/io/structify/infrastructure/row/readmodel/ExposedRowReadModelRepository.kt:23-30 | every listed cell renders a stored cell of the row |
| Ids.UuidTextInjective | infrastructure/src/main/kotlin/io/structify/infrastructure/row/readmodel/ExposedRowReadModelRepository.kt:27-32 | distinct ids render as distinct texts |
| RowReadModel.FindAllExact | infrastructure/src/main/kotlin/io/structify/infrastructure/row/readmodel/ExposedRowReadModelRepository.kt:15-36 | a row is listed iff its version belongs to the table, and then with exactly its stored cells |
| RowReadModel.EmptyRowIsListed | infrastructure/src/main/kotlin/io/structify/infrastructure/row/readmodel/ExposedRowReadModelRepository.kt:22-35 | a selected row without cells is still listed, with no cells |
| RowReadModel.SavedRowIsListed | infrastructure/src/main/kotlin/io/structify/infrastructure/row/readmodel/ExposedRowReadModelRepository.kt:15-36 | a row saved against a version of an existing table is listed for that table with exactly its cells |
| TableInMemory.Persist | domain/src/testFixtures/kotlin/io/structify/domain/test/fixtures/table/TableInMemoryRepository.kt:11-14 | the table replaces whatever was stored under its id, nothing else changes, and it is handed back |
| TableInMemory.FindById | domain/src/testFixtures/kotlin/io/structify/domain/test/fixtures/table/TableInMemoryRepository.kt:16-18 | a stored table is found iff the caller owns it, and then it is the stored table |
| TableInMemory.FindByIdThrow | domain/src/testFixtures/kotlin/io/structify/domain/test/fixtures/table/TableInMemoryRepository.kt:20-22 | fails with `NoSuchElement` exactly when `findById` finds nothing |
| TableInMemory.FindAll | domain/src/testFixtures/kotlin/io/structify/domain/test/fixtures/table/TableInMemoryRepository.kt:24 | one entry per stored id |
| TableInMemory.FindAllExact | domain/src/testFixtures/kotlin/io/structify/domain/test/fixtures/table/TableInMemoryRepository.kt:24 | `findAll` lists every stored table and nothing else |
| TableInMemory.FindAfterPersist | domain/src/testFixtures/kotlin/io/structify/domain/test/fixtures/table/TableInMemoryRepository.kt:11-22 | the owner finds a table just persisted; anyone else does not |
| TableInMemory.PersistIdempotent | domain/src/testFixtures/kotlin/io/structify/domain/test/fixtures/table/TableInMemoryRepository.kt:11-14 | persisting a table twice stores what persisting it once does |
| TableInMemory.FindAllCountsIds | domain/src/testFixtures/kotlin/io/structify/domain/test/fixtures/table/TableInMemoryRepository.kt:11-24 | persisting a new id adds one entry to `findAll`, a known id none |
| RowInMemory.Save | domain/src/testFixtures/kotlin/io/structify/domain/test/fixtures/row/RowInMemoryRepository.kt:12-15 | the whole row replaces whatever was stored under its id, nothing else changes, it is handed back, and rows stay stored under their own ids |
| RowInMemory.FirstWithId | domain/src/testFixtures/kotlin/io/structify/domain/test/fixtures/row/RowInMemoryRepository.kt:22 | the scan finds a row iff one has the id, and then a row of the list with that id |
| RowInMemory.FindById | domain/src/testFixtures/kotlin/io/structify/domain/test/fixtures/row/RowInMemoryRepository.kt:21-23 | `findById` finds a row iff some stored row has the id, and then returns a stored row with that id |
| RowInMemory.FindByIdIsLookup | domain/src/testFixtures/kotlin/io/structify/domain/test/fixtures/row/RowInMemoryRepository.kt:21-23 | with rows stored under their own ids, the scan finds exactly the row stored under the id |
| RowInMemory.FindByIdOrThrow | domain/src/testFixtures/kotlin/io/structify/domain/test/fixtures/row/RowInMemoryRepository.kt:25-26 | fails with `RowNotFound` exactly when `findById` finds nothing |
| RowInMemory.FindAll | domain/src/testFixtures/kotlin/io/structify/domain/test/fixtures/row/RowInMemoryRepository.kt:17-19 | one entry per stored id |
| RowInMemory.FindAllExact | domain/src/testFixtures/kotlin/io/structify/domain/test/fixtures/row/RowInMemoryRepository.kt:17-19 | `findAll` lists every stored row and nothing else |
| RowInMemory.FindAllCountsIds | domain/src/testFixtures/kotlin/io/structify/domain/test/fixtures/row/RowInMemoryRepository.kt:12-19 | saving a new id adds one entry to `findAll`, a known id none |
| RowInMemory.FindAfterSave | domain/src/testFixtures/kotlin/io/structify/domain/test/fixtures/row/RowInMemoryRepository.kt:12-23 | a saved row is found exactly as saved, whatever was stored under its id before |
| RowInMemory.AbsentRowIsNotFound | domain/src/testFixtures/kotlin/io/structify/domain/test/fixtures/row/RowInMemoryRepository.kt:21-26 | an id not stored makes the throwing finder fail with `RowNotFound` |
| RowInMemory.SaveIdempotent | domain/src/testFixtures/kotlin/io/structify/domain/test/fixtures/row/RowInMemoryRepository.kt:12-15 | saving a row twice stores what saving it once does |
| VersionReadModelInMemory.AddVersion | infrastructure/src/test/kotlin/io/structify/infrastructure/table/readmodel/VersionReadModelInMemoryRepository.kt:24-26 | appends the version under the pair, creating its list if need be, and leaves every other pair alone |
| VersionReadModelInMemory.Clear | infrastructure/src/test/kotlin/io/structify/infrastructure/table/readmodel/VersionReadModelInMemoryRepository.kt:28-30 | no pair lists anything |
| VersionReadModelInMemory.FindAllVersions | infrastructure/src/test/kotlin/io/structify/infrastructure/table/readmodel/VersionReadModelInMemoryRepository.kt:11-13 | exactly the versions added under the pair; none for a pair never added to |
| VersionReadModelInMemory.FindCurrent | infrastructure/src/test/kotlin/io/structify/infrastructure/table/readmodel/VersionReadModelInMemoryRepository.kt:15-17 | nothing iff nothing is listed; otherwise a listed version whose order number no listed one exceeds |
| VersionReadModelInMemory.FindCurrentOrThrow | infrastructure/src/test/kotlin/io/structify/infrastructure/table/readmodel/VersionReadModelInMemoryRepository.kt:19-22 | fails with `NoEntityFound` exactly when there is no current version |
| VersionReadModelInMemory.AddVersionKeeps | infrastructure/src/test/kotlin/io/structify/infrastructure/table/readmodel/VersionReadModelInMemoryRepository.kt:24-26 | adding a version lists it besides everything listed before, and changes no other pair's listing |
| VersionReadModelInMemory.CurrentAfterAdd | infrastructure/src/test/kotlin/io/structify/infrastructure/table/readmodel/VersionReadModelInMemoryRepository.kt:15-26 | after adding a version it is current iff nothing was or its order number is larger than the current one's; otherwise the current version stays (an equal number does not displace it) |
| VersionReadModelInMemory.ClearForgetsAll | infrastructure/src/test/kotlin/io/structify/infrastructure/table/readmodel/VersionReadModelInMemoryRepository.kt:28-30 | after `clear` nothing is listed, nothing is current and the throwing finder gives `NoEntityFound` |

## Left out

- I/O, transactions and coroutines (`suspend`, Exposed's transaction scope) are not modelled: each repository call is one function from store to store, and the atomicity the surrounding transaction gives is assumed.
- Randomness: `UUID.randomUUID()` for new versions, columns and rows is replaced by id parameters (`versionId`, `mint`, `rowId`); freshness is required only by the lemma that needs it (`TableModel.UpdateKeepsIdsIdentifying`).
- The authenticated-user provider of `RowCommandHandler` becomes the `userId` parameter, and the `RowExtractor` (the OpenAI call, `MockRowExtractor`) becomes an uninterpreted function parameter `extract`.
- Web routes, authentication, PDF reading, the OpenAI HTTP client, the dependency-injection wiring and the web front ends are outside the core and not modelled; of `TableRoutes.kt` only `ColumnDefinitionDto.toDomain` is.
- `ExposedTableReadModelRepository`, `TableReadModelInMemoryRepository` and `RowReadModelInMemoryRepository` are not part of this model, and neither is the older schema in `Tables.kt`, which the repositories do not use.
- The source types a version's columns as `ColumnDefinition` (`Version.kt`, line 7) while `Table.update` builds `Column`s with ids; the model uses `Column` throughout and stores each column's id in its `table_columns` record, which the Kotlin `updateWith` and `fetchColumns` neither write nor read. Without that, a column read back would lose the identity `update` relies on.
- The source's `Row` carries a `tableId` (`Row.kt`, line 7) while `ExposedRowRepository` and `RowCommandHandler` store a version id; the model's row carries `versionId`.
- The `table_columns` primary key is a `Long` autoincrement (`TableSchema.kt`, line 24) that the version read model returns as a column id; the model uses the stored column id instead, and it does not enforce the cells' foreign key to `table_columns`, whose type does not match it.
- `TableVersionsTable.description` is declared but never written; the model's version record has no description.
- ColumnDto.UpperChar: under Kotlin's full Unicode upper-casing one character can become up to three (`ﬃ` becomes `FFI`, and U+0390 also becomes three characters); the model's one-or-two-character bound is a property of its approximation only.
- ColumnDto.Uppercase: `String.uppercase()` is full Unicode upper-casing, so the model's at-most-doubling bound is likewise not Kotlin's. The model maps `a`-`z`, plus the four non-ASCII characters whose upper case spells part of `STRING` or `NUMBER` (`ı`, `ſ`, `ﬅ`, `ﬆ`), and keeps every other character unchanged. So it decides correctly which type names the route accepts, but it does not give the true upper case of other letters.
- TableModel.Update: order numbers are unbounded integers; Kotlin's 32-bit `Int` wrap-around after 2^31 - 1 versions is not modelled.
- RowRepository.Save: returns the new store only; the Kotlin `save` also returns its argument unchanged, which adds nothing to the state. It also stores a row whatever its version id, while in the database the `rows.version_id` foreign key (`RowsTable.kt`, line 11) makes saving a row against a missing version throw; that failure is not modelled. `RowCommands.Handle` only saves against a version it has just read from the stored table.
- TableRepository.Persist: returns the new store only; the Kotlin `persist` also returns its argument unchanged.
- TableFinder.FetchColumns: its own contract states only that a failure is a decoding failure; what a held version's columns read back as is stated by `TableFinder.FetchColumnsHeld`.
- TableFinder.ReadVersions: its own contract states only that a failure is a decoding failure; success and contents are stated by `TableFinder.ReadVersionsOk` and `TableFinder.ReadVersionsValues`.
- TableFinder.LoadVersions: its own contract states only that a failure is a decoding failure; success and contents are stated by `TableFinder.LoadVersionsOk` and `TableFinder.LoadVersionsValues`.
- VersionReadModel.FindCurrent: among owned versions sharing the highest order number, SQL's `ORDER BY ... DESC LIMIT 1` returns one of them unspecified; the model picks one in scan order and states only that it has the highest number.
- VersionReadModel.FindAllVersions: the Kotlin result is a `linkedSetOf()`, in insertion order; the model returns a mathematical set, so the order is not modelled.
- RowReadModel.FindAllByTableId: rows and their cells are likewise `linkedSetOf()` sets, modelled as mathematical sets without order.
- TableInMemory.Persist: the fixture's map holds a reference to the mutable `Table`, so a later `update` on that same object changes what the map holds without another `persist`; the model's tables are values, and a change is stored only by persisting again.
- VersionReadModel.CurrentIsListed: `findCurrentVersionByTableId` and `findAllVersionsByTableId` each run their own column query, and SQL does not promise that two such scans return a version's columns in the same order. The model reads a version's columns in one fixed order, so the lemma holds for the model; for the database it holds only up to the order of each version's columns.
- RowReadModel.CellView: carries the column id as text, as `ExposedRowReadModelRepository` builds it (`columnDefinitionId`, line 27); the `Cell(columnId: Int, value: String)` declared in `RowReadModelRepository.kt` (lines 17-20) is not followed.
- TableInMemory.FindAll: the fixture's `mutableMapOf()` is a `LinkedHashMap`, so `values.toList()` lists tables in the order their ids were first persisted; the model's map keeps no insertion history, so it states the contents and length, not that order.
- RowInMemory.FindAll: the fixture's `ConcurrentHashMap` lists rows in an unspecified hash order; the model states the contents and length, not the order.
- SQL ordering of scans in general (see above), connection pooling and schema creation are not modelled.
