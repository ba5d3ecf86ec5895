# System table service — a Dafny model

The system table service keeps the `_tables` catalog of a dynamic-schema
platform in step with the physical schema. Each catalog row (`name`,
`singular_name`, `is_enabled`, `column_count`, `unique_key`) has a physical
table of that name, with an `id serial` column whose sequence is
`{name}_id_seq` and a `{uuid}_pk` primary-key constraint. This holds for names
short enough that PostgreSQL does not truncate the derived identifiers (see
"## Left out"). A table may also have
one composite `UNIQUE` constraint `{uuid}_uk`. Its ordered column list is
stored on the row as the JSON text `{"columns":[...]}`, and each of its columns
carries its 1-based position in `_columns.position_in_unique_key`.

The model covers the `Service` class of `src/class.ts`:

- the name rule `checkName`;
- the six lifecycle hooks, and the create/update/delete lifecycle that calls
  them;
- `createUniqueKey` and `deleteUniqueKey`.

The modules are:

- `Model` (`model.dfy`): the records, the catalog `Row`, the `_columns` fields
  the unique key uses (`UniqueKeyColumn` in the source), the errors with their
  kinds, and the statements sent to the database.
- `Naming` (`naming.dfy`): `checkName` and the derived names `{name}_id_seq`,
  `{uuid}_pk` and `{uuid}_uk`.
- `UniqueKeyCodec` (`codec.dfy`): `JSON.stringify({ columns })` as the source
  writes it, including JSON.stringify's character escapes. It comes with a
  reader for that text and the round trip between the two.
- `Storage` (`database.dfy`): `class Database`. Its fields `tables`, `columns`
  and `schema` are what the query capability reaches. `issued` is the ordered
  log of every statement that changed them. Each method is one helper or one
  SQL statement the service uses, with its effect on those fields.
- `Consistency` (`consistency.dfy`): the invariant, the effect of each
  operation on a `Snapshot` of the state, and the proofs about those effects.
  - The invariant: no catalog name ends in `_lookup_values`. Physical tables
    are exactly the catalog names. Every table
    has its sequence and its `_pk` constraint. `unique_key` is set exactly
    when a `_uk` constraint exists. That constraint covers the stored columns'
    names in order. Positions are 1..n on exactly the key's columns.
  - The effect proofs: each operation keeps the invariant, and createUniqueKey
    followed by deleteUniqueKey restores the table.
- `TableService` (`service.dfy`): the hooks, the lifecycle and the two
  unique-key operations, as methods on a `Database`. Each method states:
  - its error cases, in source order;
  - that a refusal by a check changes nothing;
  - that on success the new state is the `Consistency` effect of the old one;
  - the exact sequence of statements it issued.

How failures are modelled:

- A statement may be refused by the engine for reasons outside the model, such
  as a privilege, a lock or a constraint over data. Each write therefore
  chooses its outcome nondeterministically.
- A statement that would break a constraint the model does see is always
  refused. Examples: creating a table that exists, dropping a constraint that
  does not.
- A refused statement changes nothing.
- Only a failed statement (an `Internal` error) may leave earlier statements
  of the same operation applied, as in the source. The caller's transaction
  then rolls them back.

## Model

| member | source | states |
|---|---|---|
| Naming.CheckName | src/class.ts:31-36 | fails exactly when the name ends in `_lookup_values`; the failure is `ReservedSuffix`, a BadRequest; every other name passes |
| Naming.IdSequenceInjective | src/class.ts:130-135 | two tables have the same `{name}_id_seq` sequence name exactly when their names are equal |
| Naming.UniqueKeyNameInjective | src/class.ts:216 | `{uuid}_uk` names of two tables coincide exactly when the uuids do |
| Naming.ConstraintNamesDiffer | src/class.ts:216 | a `{uuid}_pk` name is never a `{uuid}_uk` name, so adding or dropping the unique constraint never touches the primary key |
| Model.Patched | src/class.ts:233-235 | updateRow: the supplied fields replace the stored ones, omitted fields keep their value, uuid and column_count never change |
| Model.RenameRelation | src/class.ts:126-129 | `ALTER TABLE old RENAME TO new`: the schema loses `old` and gains `new` holding old's table; every other table is unchanged |
| Model.RenameSequenceIn | src/class.ts:131-135 | `ALTER SEQUENCE old RENAME TO new`: the table owning `old` now owns `new`; every other table is unchanged |
| Model.ColumnNames | src/class.ts:210-217 | the collected names have one entry per key column, in key order, each that column's name |
| UniqueKeyCodec.Encode | src/class.ts:234 | the stored text is never empty, so the stored key is truthy for the `row.unique_key` tests |
| UniqueKeyCodec.EscapeCharRoundTrip | src/class.ts:234 | every character JSON.stringify writes, escaped or not, reads back as itself |
| UniqueKeyCodec.StringRoundTrip | src/class.ts:234 | an escaped string followed by its closing quote reads back as the original string, leaving what follows |
| UniqueKeyCodec.ItemsRoundTrip | src/class.ts:234 | a non-empty comma-separated list of quoted ids before `]}` reads back as that list |
| UniqueKeyCodec.DecodeEncode | src/class.ts:267 | `JSON.parse(JSON.stringify({columns})).columns` gives back exactly `columns`, order included |
| UniqueKeyCodec.EncodeInjective | src/class.ts:234 | different column lists are stored as different texts |
| Storage.Database.CheckUniqueKey | src/class.ts:53 | checkUniqueKey fails, with a Conflict on that field and value, exactly when some catalog row already holds the value |
| Storage.Database.FindByPrimaryKey | src/class.ts:173-176 | findByPrimaryKey returns the row with that uuid, or NotFound exactly when there is none |
| Storage.Database.FindColumn | src/class.ts:190-196 | the column lookup returns the column exactly when it exists |
| Storage.Database.UpdateRow | src/class.ts:233-235 | a missing row is NotFound; on success the row becomes the patched row and the statement is logged; a refusal changes nothing |
| Storage.Database.SetPosition | src/class.ts:225-230 | on success only that column's position changes, to the given value (no column matches: no change) and the statement is logged; a refusal changes nothing |
| Storage.Database.ClearPositions | src/class.ts:268-273 | on success the listed columns lose their positions and no other column changes |
| Storage.Database.CreateTable | src/class.ts:106-117 | refused when a table of that name exists; otherwise adds it with sequence `{name}_id_seq` and only the `{uuid}_pk` constraint |
| Storage.Database.RenameTable | src/class.ts:126-129 | refused unless the old name exists and the new one does not; otherwise the relation is renamed |
| Storage.Database.RenameSequence | src/class.ts:131-135 | refused unless the old sequence exists and the new one does not; otherwise the sequence is renamed |
| Storage.Database.DropTable | src/class.ts:144-146 | refused when no table has that name; otherwise the table is removed |
| Storage.Database.AddUniqueConstraint | src/class.ts:214-219 | refused when the table is missing or already has a constraint of that name; otherwise adds `UNIQUE(names)` under that name |
| Storage.Database.DropConstraint | src/class.ts:260-262 | refused when the table or the constraint is missing; otherwise removes only that constraint |
| TableService.PreCreate | src/class.ts:45-59 | passes exactly when the name lacks the reserved suffix and neither name nor singular name is taken; errors come in order: suffix, then name Conflict, then singular-name Conflict |
| TableService.PreUpdate | src/class.ts:61-93 | a supplied and changed name is suffix-checked, then probed; a supplied and changed singular name is only probed; no change means no check; passes exactly when every check it runs passes, and reports the first failure in that order |
| TableService.PreDelete | src/class.ts:95-100 | always passes: no check is made before a delete |
| TableService.PostCreate | src/class.ts:102-119 | fails when the name is already a table; on success adds exactly the new physical table with its `_pk` constraint and logs one CREATE TABLE; a failure is Internal and changes nothing |
| TableService.PostUpdate | src/class.ts:121-138 | an unchanged name issues nothing; a changed name renames the table, then its sequence, in that order; a missing source or taken target fails on the first statement |
| TableService.PostDelete | src/class.ts:140-148 | fails when no table has the row's name; on success removes exactly that table and logs one DROP TABLE |
| TableService.Create | src/class.ts:45-119 | a taken supplied uuid is a Conflict; otherwise the errors come in source order: ReservedSuffix, then the name Conflict, then the singular-name Conflict; conversely a non-Internal failure happens only when one of these checks refuses, and changes nothing; success inserts the row with the defaults, issues INSERT then CREATE TABLE, and keeps the invariant |
| TableService.Update | src/class.ts:61-138 | a missing row is NotFound; a changed name with the reserved suffix fails with ReservedSuffix; a changed, unreserved, taken name fails with its Conflict; a changed taken singular name, when the name checks pass, fails with its Conflict; conversely a non-Internal failure happens only when the row is missing or one of these checks refuses, and changes nothing; success yields the merged row, issues the row update then the renames, and keeps the invariant |
| TableService.WriteUpdate | src/class.ts:121-138 | for a row whose merge changes something: on success the row is the merged row, the new state is `AfterUpdate` of the old one and the log gains the row update then postUpdate's renames; any failure is a refused statement (Internal) |
| TableService.Delete | src/class.ts:95-148 | a missing row is NotFound and changes nothing; conversely a non-Internal failure happens only when the row is missing; success issues the row delete then DROP TABLE and keeps the invariant |
| TableService.CheckColumns | src/class.ts:186-211 | the loop's refusal is the error for the first column, in caller order, that is missing, on another table, or nullable; with no refusal, the names are the key columns' names in order |
| TableService.SetPositions | src/class.ts:223-231 | on success every key column has position i+1 (`WithPositions`) and the log gains `PositionStatements(key)`, one `SET position_in_unique_key = i+1` per column in key order; a failure is a refused SetPosition; tables and schema untouched |
| TableService.CreateUniqueKeyChecks | src/class.ts:173-211 | fails exactly when the ordered refusal is set, with that error; otherwise yields the row and the collected names |
| TableService.CreateUniqueKey | src/class.ts:161-237 | any failed guard fails with the first refusal in source order and changes nothing; conversely a non-generic failure happens only when a guard refuses, with that guard's error; a failed ADD CONSTRAINT is the generic error and changes nothing; success leaves the state `AfterCreateUniqueKey` of the old one (constraint over the column names in caller order, position i+1 on column i, key stored) and issues ADD CONSTRAINT, the positions in order, then the row update |
| TableService.ClaimColumns | src/class.ts:223-235 | sets each key column's position to i+1, then stores the encoded key on the row; on failure only a refused statement is reported |
| TableService.DeleteUniqueKeyChecks | src/class.ts:250-256 | passes exactly when the row exists and has a key; otherwise NotFound for the row or for the missing key |
| TableService.DeleteUniqueKey | src/class.ts:246-277 | a missing row or key is NotFound and changes nothing; conversely a non-generic failure happens only when the row or its key is missing; a failed DROP CONSTRAINT is the generic error and changes nothing; success drops `{uuid}_uk`, clears the decoded columns' positions and nulls `unique_key`, in that order |
| TableService.ReleaseColumns | src/class.ts:266-275 | clears the positions of the listed columns, then sets the row's key to null; on failure only a refused statement is reported |
| Consistency.ColumnRefusalMeaning | src/class.ts:196-209 | a column is refused exactly when it is missing, on another table or nullable, and the error carries its 1-based position |
| Consistency.FirstIneligibleIsFirst | src/class.ts:189-211 | the loop passes exactly when every column is eligible; otherwise the error is that of the first ineligible column, and all earlier ones are eligible |
| Consistency.RefusalNoneIff | src/class.ts:173-211 | createUniqueKey's guards all pass exactly when the row exists and has no key, and the list is non-empty, free of duplicates and all eligible |
| Consistency.SetSizeDetectsDuplicates | src/class.ts:183-185 | `new Set(columns).size == columns.length` holds exactly when the list has no duplicates |
| Consistency.WithPositionsStep | src/class.ts:224-231 | after setting the positions of the first i columns, setting column i to i+1 extends the positions to the first i+1 columns |
| Consistency.CreateKeepsConsistent | src/class.ts:102-119 | a row that passed preCreate (name not reserved, name and singular name untaken), inserted with its physical table, keeps the invariant, including physical tables = catalog names and no reserved name |
| Consistency.RenamedSchema | src/class.ts:124-136 | renaming the table then its sequence moves the table to the new name with sequence `{new}_id_seq`; every other table is unchanged |
| Consistency.UpdateKeepsConsistent | src/class.ts:121-138 | an update whose changed fields passed preUpdate (a changed name not reserved and untaken, a changed singular name untaken), followed by postUpdate's renames, keeps the invariant |
| Consistency.DeleteKeepsConsistent | src/class.ts:140-148 | deleting a row that no column refers to and dropping its table keeps the invariant |
| Consistency.CreateUniqueKeyKeepsConsistent | src/class.ts:161-237 | when the guards pass, the constraint, positions and stored key that createUniqueKey writes keep the invariant: HasKey with positions 1..n on the key's columns in order |
| Consistency.StoredKeyDecodes | src/class.ts:267 | in a consistent state a set `unique_key` always parses, so deleteUniqueKey never meets a malformed key |
| Consistency.DeleteUniqueKeyKeepsConsistent | src/class.ts:246-277 | dropping the constraint, clearing the decoded columns' positions and nulling the key keeps the invariant (back to NoKey) |
| Consistency.PositionsRoundTrip | src/class.ts:268-273 | clearing the positions of the key's columns undoes setting them |
| Consistency.UniqueKeyRoundTrip | src/class.ts:161-277 | after a successful createUniqueKey the stored key decodes to exactly the column list, and deleteUniqueKey then restores the previous state |
| Consistency.CreateDeleteRoundTrip | src/class.ts:102-148 | creating a catalog row with its table and then deleting it restores the previous state |

## Left out

- Debug tracing (`Debug`, `MessageType`) has no effect on behaviour and is not modelled.
- SQL text, identifier quoting and case folding are not modelled; each statement is modelled as its effect on the state. Interpolating ids inside double quotes is not modelled either.
- Row locking (`forUpdate`, `FOR UPDATE`) is not modelled: each operation runs alone and in sequence.
- Transactions are not modelled. The rollback of a partly applied operation after an `Internal` failure belongs to the caller's transaction, so the model only states what such a failure may leave behind.
- `async`/Promise plumbing is not modelled.
- The base service (`base-service-class`) is not part of this model. `TableService.Create`, `Update` and `Delete` assume this order, which is an assumption of the model, not something the model derives:
  - the primary-key check (create only) or the row lookup (update, delete);
  - for an update, a stop with the stored row unchanged when the merged row equals it (no checks, no statements);
  - the pre hook, whose failure stops the operation;
  - the row write;
  - the post hook.

  `Storage.Database.CheckPrimaryKey`, `InsertRow` and `DeleteRow` model base-service steps, so they have no rows above.
- `database-helpers` is not part of this model. `checkUniqueKey`, `findByPrimaryKey` and `updateRow` are modelled by their effect on the catalog map.
- `is_enabled` defaults to false when it is not supplied on create. The `_tables` definition is not part of this model.
- `_columns.table_uuid` is taken to be a foreign key to `_tables` with the default NO ACTION. So `DeleteRow` is refused while columns refer to the row, and a deleted table never leaves stale positions behind.
- The unique indexes on `_tables.name` and `_tables.singular_name` are not modelled as refusals of the row write. Uniqueness comes from preCreate and preUpdate, whose probes see the same state in this sequential model.
- PostgreSQL's 63-byte identifier limit is not modelled: every name is assumed to fit, so that the table, its sequence and its constraints keep their full names. The engine truncates longer identifiers, and it builds a `serial` column's sequence name from at most the first 56 bytes of the table name, as `{first 56 bytes}_id_seq`. For a catalog name of 57 to 63 bytes the real sequence is therefore not `{name}_id_seq`, so `Naming.IdSequence`, the invariant's `sequence == IdSequence(name)` in `Consistency.Mirrors` and `Storage.Database.CreateTable`'s success state do not describe the engine. postUpdate's `ALTER SEQUENCE {old}_id_seq` (src/class.ts:131-135) then names a relation that does not exist, so every rename of such a table fails; the model can only show that failure as a nondeterministic refusal. Names over 63 bytes are truncated too, so two distinct catalog names can reach one physical table, which breaks "physical tables are exactly the catalog names" and makes `Naming.IdSequenceInjective` false of the engine's names. `checkName` (src/class.ts:31-36) does not bound the length.
- Physical tables and sequences share one relation namespace in PostgreSQL. The model keys tables by name and treats a sequence as belonging to its table, so a table named like another table's sequence is not refused.
- A constraint-DDL refusal over existing duplicate data, and any other engine refusal, is the nondeterministic refusal of the statement; data rows of the physical tables are not modelled.
- UniqueKeyCodec.Decode accepts the shape Encode writes, with any JSON string escape (`\/`, `\u0041`, upper- or lower-case hex), but no whitespace, no other key order and no other top-level shape. JSON.parse accepts more, but the service only reads text it wrote itself.
- `JSON.parse` throwing on a malformed stored key is modelled as the error `MalformedUniqueKey`. `Consistency.StoredKeyDecodes` shows this error is unreachable from a consistent state.
- Positions are set on the `_columns` row whose `uuid` matches (src/class.ts:228) but cleared on rows whose `column_uuid` matches (src/class.ts:271). Both are modelled as the column's id. As written, the clearing statement names a column (`column_uuid`) that the set statement does not use.
- Where the source throws `BadRequestError` for a nullable column, the model follows the source and uses BadRequest, not an InvalidArgument kind.
- `dist/`, `src/index.ts` and `test/main.ts` are not part of this model: they are build output, configuration and a live-database smoke test.
- TableService.CreateUniqueKey: the invariant is not restated in its own postcondition. It states its new state as `AfterCreateUniqueKey` of the old one, and `Consistency.CreateUniqueKeyKeepsConsistent` proves that effect keeps the invariant.
- TableService.DeleteUniqueKey: the invariant is not restated in its own postcondition. It states its new state as `AfterDeleteUniqueKey` of the old one, and `Consistency.DeleteUniqueKeyKeepsConsistent` and `Consistency.StoredKeyDecodes` prove the invariant and the absence of the malformed-key error.
