/**
 * The records the table service reads and writes: rows of the `_tables`
 * catalog, the columns of `_columns` that a unique key refers to, the
 * physical tables that mirror the catalog, the errors the service raises and
 * the statements it sends through its query capability.
 */
module Model {
  import opened Wrappers

  type Uuid = string

  /** A row of `_tables` (the source's `Row`). */
  datatype Row = Row(
    uuid: Uuid,
    name: string,
    singularName: string,
    isEnabled: bool,
    columnCount: int,
    uniqueKey: Option<string>)   // the JSON text written by createUniqueKey, or null

  /** What a caller supplies to create a catalog row (the source's `CreateData`). */
  datatype CreateData = CreateData(
    uuid: Option<Uuid>,
    name: string,
    singularName: string,
    isEnabled: Option<bool>)

  /** What a caller supplies to update a catalog row (the source's `UpdateData`). */
  datatype UpdateData = UpdateData(
    name: Option<string>,
    singularName: Option<string>,
    isEnabled: Option<bool>)

  /** The fields of a row of `_columns` that createUniqueKey and deleteUniqueKey use. */
  datatype Column = Column(
    tableUuid: Uuid,
    name: string,
    isNotNull: bool,
    position: Option<nat>)   // position_in_unique_key, 1-based

  datatype Constraint = PrimaryKey | Unique(columns: seq<string>)

  /** A physical table: the sequence behind its `id serial` column and its named constraints. */
  datatype PhysicalTable = PhysicalTable(sequence: string, constraints: map<string, Constraint>)

  /** Everything the service can observe through its query capability. */
  datatype Snapshot = Snapshot(
    tables: map<Uuid, Row>,            // `_tables`, by uuid
    columns: map<Uuid, Column>,        // `_columns`, by uuid
    schema: map<string, PhysicalTable>) // physical tables, by name

  /** The two catalog fields probed for uniqueness. */
  datatype Field = Name | SingularName

  function FieldValue(row: Row, f: Field): string
  {
    match f
    case Name => row.name
    case SingularName => row.singularName
  }

  /** Whether some row of `tables` already holds `value` in field `f`. */
  predicate Taken(tables: map<Uuid, Row>, f: Field, value: string)
  {
    exists u :: u in tables && FieldValue(tables[u], f) == value
  }

  /** A partial update of a catalog row; `None` leaves the field as it is. */
  datatype Patch = Patch(
    name: Option<string>,
    singularName: Option<string>,
    isEnabled: Option<bool>,
    uniqueKey: Option<Option<string>>)

  function DataPatch(data: UpdateData): Patch
  {
    Patch(data.name, data.singularName, data.isEnabled, None)
  }

  function UniqueKeyPatch(value: Option<string>): Patch
  {
    Patch(None, None, None, Some(value))
  }

  function Or<T>(o: Option<T>, default: T): T
  {
    match o
    case Some(v) => v
    case None => default
  }

  /** The row after `patch` is written over it. */
  function Patched(row: Row, patch: Patch): (r: Row)
    ensures r.uuid == row.uuid && r.columnCount == row.columnCount
    ensures patch.name.None? ==> r.name == row.name
    ensures patch.name.Some? ==> r.name == patch.name.value
    ensures patch.singularName.None? ==> r.singularName == row.singularName
    ensures patch.singularName.Some? ==> r.singularName == patch.singularName.value
    ensures patch.isEnabled.None? ==> r.isEnabled == row.isEnabled
    ensures patch.isEnabled.Some? ==> r.isEnabled == patch.isEnabled.value
    ensures patch.uniqueKey.None? ==> r.uniqueKey == row.uniqueKey
    ensures patch.uniqueKey.Some? ==> r.uniqueKey == patch.uniqueKey.value
  {
    Row(row.uuid,
        Or(patch.name, row.name),
        Or(patch.singularName, row.singularName),
        Or(patch.isEnabled, row.isEnabled),
        row.columnCount,
        Or(patch.uniqueKey, row.uniqueKey))
  }

  /**
   * `if (row.unique_key)`: JavaScript truthiness, so null and the empty
   * string both count as "no unique key".
   */
  predicate HasUniqueKey(row: Row)
  {
    row.uniqueKey.Some? && row.uniqueKey.value != ""
  }

  /** The errors the service raises, one per distinct throw site. */
  datatype Error =
    | ReservedSuffix                              // name ends in `_lookup_values`
    | DuplicateValue(field: Field, value: string) // checkUniqueKey found a row
    | PrimaryKeyTaken(uuid: Uuid)                 // the base service's primary-key check
    | RowNotFound(uuid: Uuid)                     // findByPrimaryKey found no row
    | AlreadyHasUniqueKey
    | NoColumns
    | DuplicateColumns
    | ColumnNotFound(position: nat)               // "Column {i+1} not found"
    | ColumnNotOnTable(position: nat)             // "Column {i+1} (...) not found on table"
    | ColumnNullable(position: nat)               // "Column {i+1} (...) cannot be nullable"
    | NoUniqueKey
    | AddConstraintFailed                         // Error('Could not add constraint')
    | DropConstraintFailed                        // Error('Could not drop constraint')
    | MalformedUniqueKey                          // JSON.parse of the stored text threw
    | StatementFailed(statement: Statement)       // any other statement the engine refused

  /** The error classes of the source: BadRequestError, ConflictError, NotFoundError, Error. */
  datatype Kind = BadRequest | Conflict | NotFound | Internal

  function KindOf(e: Error): Kind
  {
    match e
    case ReservedSuffix => BadRequest
    case DuplicateValue(_, _) => Conflict
    case PrimaryKeyTaken(_) => Conflict
    case RowNotFound(_) => NotFound
    case AlreadyHasUniqueKey => Conflict
    case NoColumns => BadRequest
    case DuplicateColumns => BadRequest
    case ColumnNotFound(_) => NotFound
    case ColumnNotOnTable(_) => NotFound
    case ColumnNullable(_) => BadRequest
    case NoUniqueKey => NotFound
    case AddConstraintFailed => Internal
    case DropConstraintFailed => Internal
    case MalformedUniqueKey => Internal
    case StatementFailed(_) => Internal
  }

  /** The statements that change the database, as the service sends them. */
  datatype Statement =
    | InsertRow(row: Row)                                  // createRow on `_tables`
    | UpdateRow(uuid: Uuid, patch: Patch)                  // updateRow on `_tables`
    | DeleteRow(uuid: Uuid)                                // deleteRow on `_tables`
    | CreateTable(table: string, primaryKey: string)       // CREATE TABLE ... CONSTRAINT pk PRIMARY KEY (id)
    | RenameTable(from: string, to: string)                // ALTER TABLE ... RENAME TO
    | RenameSequence(from: string, to: string)             // ALTER SEQUENCE ... RENAME TO
    | DropTable(table: string)                             // DROP TABLE
    | AddUnique(table: string, constraint: string, columns: seq<string>)
    | DropConstraint(table: string, constraint: string)
    | SetPosition(column: Uuid, position: nat)             // UPDATE _columns SET position_in_unique_key = n
    | ClearPositions(columns: seq<Uuid>)                   // UPDATE _columns SET position_in_unique_key = null

  /** ALTER TABLE from RENAME TO to: the table keeps its sequence and constraints. */
  function RenameRelation(schema: map<string, PhysicalTable>, from: string, to: string): (r: map<string, PhysicalTable>)
    requires from in schema
    ensures r.Keys == schema.Keys - {from} + {to}
    ensures r[to] == schema[from]
    ensures forall n :: n in schema && n != from && n != to ==> r[n] == schema[n]
  {
    (schema - {from})[to := schema[from]]
  }

  /** Whether some physical table's `id` column draws from sequence `name`. */
  predicate SequenceExists(schema: map<string, PhysicalTable>, name: string)
  {
    exists t :: t in schema && schema[t].sequence == name
  }

  /** ALTER SEQUENCE from RENAME TO to: the table owning `from` now owns `to`. */
  function RenameSequenceIn(schema: map<string, PhysicalTable>, from: string, to: string): (r: map<string, PhysicalTable>)
    ensures r.Keys == schema.Keys
    ensures forall t :: t in schema && schema[t].sequence != from ==> r[t] == schema[t]
    ensures forall t :: t in schema && schema[t].sequence == from ==> r[t] == schema[t].(sequence := to)
  {
    map t | t in schema :: if schema[t].sequence == from then schema[t].(sequence := to) else schema[t]
  }

  /** The first index at which `c` occurs in `key`. */
  function IndexOf(key: seq<Uuid>, c: Uuid): (i: nat)
    requires c in key
    ensures i < |key| && key[i] == c && c !in key[..i]
  {
    if key[0] == c then 0
    else
      assert c in key[1..];
      var j := IndexOf(key[1..], c);
      assert key[..j + 1] == [key[0]] + key[1..][..j];
      j + 1
  }

  /** `_columns` after the column `key[i]` is given position `i + 1`, for every i. */
  function WithPositions(columns: map<Uuid, Column>, key: seq<Uuid>): (r: map<Uuid, Column>)
    ensures r.Keys == columns.Keys
  {
    map c | c in columns :: if c in key then columns[c].(position := Some(IndexOf(key, c) + 1)) else columns[c]
  }

  /** `_columns` after the columns in `key` lose their position. */
  function WithoutPositions(columns: map<Uuid, Column>, key: seq<Uuid>): (r: map<Uuid, Column>)
    ensures r.Keys == columns.Keys
  {
    map c | c in columns :: if c in key then columns[c].(position := None) else columns[c]
  }

  /** The physical names of the columns of `key`, in key order. */
  function ColumnNames(columns: map<Uuid, Column>, key: seq<Uuid>): (names: seq<string>)
    requires forall c :: c in key ==> c in columns
    ensures |names| == |key|
    ensures forall i :: 0 <= i < |key| ==> names[i] == columns[key[i]].name
  {
    if key == [] then [] else [columns[key[0]].name] + ColumnNames(columns, key[1..])
  }

  /** No column id occurs twice. */
  predicate Distinct(key: seq<Uuid>)
  {
    forall i, j :: 0 <= i < j < |key| ==> key[i] != key[j]
  }
}
