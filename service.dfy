/**
 * The table service: the hooks the base service calls around each catalog
 * write, the lifecycle that calls them, and the two operations that add and
 * remove a table's composite unique key.
 *
 * The hooks read `createData`, `row`, `createdRow` and `updatedRow`, which the
 * base service stores on the instance before calling them; here they are
 * parameters. Every statement goes through `db`.
 */
module TableService {
  import opened Wrappers
  import opened Model
  import opened Naming
  import opened Consistency
  import opened Storage
  import UniqueKeyCodec

  // ---------------------------------------------------------------------
  // Hooks

  /** preCreate: the suffix check, then the `name` probe, then the `singular_name` probe. */
  method PreCreate(db: Database, data: CreateData) returns (r: Outcome<Error>)
    ensures r.Pass? <==>
      !MatchesSuffixPattern(data.name) && !Taken(db.tables, Name, data.name) && !Taken(db.tables, SingularName, data.singularName)
    ensures MatchesSuffixPattern(data.name) ==> r == Fail(ReservedSuffix)
    ensures !MatchesSuffixPattern(data.name) && Taken(db.tables, Name, data.name) ==>
      r == Fail(DuplicateValue(Name, data.name))
    ensures !MatchesSuffixPattern(data.name) && !Taken(db.tables, Name, data.name) ==>
      r.Pass? || r == Fail(DuplicateValue(SingularName, data.singularName))
  {
    r := CheckName(data.name);
    if r.Fail? {
      return;
    }
    r := db.CheckUniqueKey(Name, data.name);
    if r.Fail? {
      return;
    }
    r := db.CheckUniqueKey(SingularName, data.singularName);
  }

  /** `name` is supplied and differs from the stored one. */
  predicate NameChanges(row: Row, data: UpdateData)
  {
    data.name.Some? && data.name.value != row.name
  }

  /** `singular_name` is supplied and differs from the stored one. */
  predicate SingularNameChanges(row: Row, data: UpdateData)
  {
    data.singularName.Some? && data.singularName.value != row.singularName
  }

  /**
   * preUpdate: a changed `name` is suffix-checked and then probed; a changed
   * `singular_name` is probed (never suffix-checked). Unchanged fields are
   * not checked at all.
   */
  method PreUpdate(db: Database, row: Row, data: UpdateData) returns (r: Outcome<Error>)
    ensures r.Pass? <==>
      && (NameChanges(row, data) ==> !MatchesSuffixPattern(data.name.value) && !Taken(db.tables, Name, data.name.value))
      && (SingularNameChanges(row, data) ==> !Taken(db.tables, SingularName, data.singularName.value))
    ensures !NameChanges(row, data) && !SingularNameChanges(row, data) ==> r == Pass
    ensures NameChanges(row, data) && MatchesSuffixPattern(data.name.value) ==> r == Fail(ReservedSuffix)
    ensures NameChanges(row, data) && !MatchesSuffixPattern(data.name.value) && Taken(db.tables, Name, data.name.value) ==>
      r == Fail(DuplicateValue(Name, data.name.value))
    ensures r.Fail? && !(NameChanges(row, data) && (MatchesSuffixPattern(data.name.value) || Taken(db.tables, Name, data.name.value))) ==>
      SingularNameChanges(row, data) && r == Fail(DuplicateValue(SingularName, data.singularName.value))
  {
    r := Pass;
    if NameChanges(row, data) {
      r := CheckName(data.name.value);
      if r.Fail? {
        return;
      }
      r := db.CheckUniqueKey(Name, data.name.value);
      if r.Fail? {
        return;
      }
    }
    if SingularNameChanges(row, data) {
      r := db.CheckUniqueKey(SingularName, data.singularName.value);
    }
  }

  /** preDelete checks nothing (the check for rows that refer to the table is still to be written). */
  method PreDelete() returns (r: Outcome<Error>)
    ensures r == Pass
  {
    r := Pass;
  }

  /** postCreate: the physical table named after the row, with its `{uuid}_pk` constraint. */
  method PostCreate(db: Database, createdRow: Row) returns (r: Outcome<Error>)
    modifies db
    ensures createdRow.name in old(db.schema) ==> r.Fail?
    ensures r.Pass? ==> (db.schema == old(db.schema)[createdRow.name := NewPhysicalTable(createdRow.name, createdRow.uuid)]
      && db.issued == old(db.issued) + [Statement.CreateTable(createdRow.name, PrimaryKeyName(createdRow.uuid))])
    ensures r.Fail? ==> db.schema == old(db.schema) && db.issued == old(db.issued) && KindOf(r.error) == Internal
    ensures db.tables == old(db.tables) && db.columns == old(db.columns)
  {
    r := db.CreateTable(createdRow.name, PrimaryKeyName(createdRow.uuid));
  }

  /**
   * postUpdate: when the name changed, rename the table and then its `id`
   * sequence; otherwise issue nothing.
   */
  method PostUpdate(db: Database, row: Row, updatedRow: Row) returns (r: Outcome<Error>)
    modifies db
    ensures updatedRow.name == row.name ==> r == Pass && db.schema == old(db.schema) && db.issued == old(db.issued)
    ensures updatedRow.name != row.name && r.Pass? ==> (row.name in old(db.schema)
      && db.schema == Renamed(old(db.schema), row.name, updatedRow.name)
      && db.issued == old(db.issued) + [Statement.RenameTable(row.name, updatedRow.name),
                                        Statement.RenameSequence(IdSequence(row.name), IdSequence(updatedRow.name))])
    ensures updatedRow.name != row.name && (row.name !in old(db.schema) || updatedRow.name in old(db.schema)) ==>
      r == Fail(StatementFailed(Statement.RenameTable(row.name, updatedRow.name))) && db.schema == old(db.schema)
    ensures r.Fail? ==> KindOf(r.error) == Internal
    ensures db.tables == old(db.tables) && db.columns == old(db.columns)
  {
    if updatedRow.name != row.name {
      r := db.RenameTable(row.name, updatedRow.name);
      if r.Fail? {
        return;
      }
      r := db.RenameSequence(IdSequence(row.name), IdSequence(updatedRow.name));
    } else {
      r := Pass;
    }
  }

  /** postDelete: drop the table named after the deleted row. */
  method PostDelete(db: Database, row: Row) returns (r: Outcome<Error>)
    modifies db
    ensures row.name !in old(db.schema) ==> r.Fail?
    ensures r.Pass? ==> db.schema == old(db.schema) - {row.name} && db.issued == old(db.issued) + [Statement.DropTable(row.name)]
    ensures r.Fail? ==> db.schema == old(db.schema) && db.issued == old(db.issued) && KindOf(r.error) == Internal
    ensures db.tables == old(db.tables) && db.columns == old(db.columns)
  {
    r := db.DropTable(row.name);
  }

  // ---------------------------------------------------------------------
  // The lifecycle around the hooks

  /**
   * Create: the primary-key check when a uuid is supplied, preCreate, the row
   * insert, postCreate. Refusals by a check happen before any statement.
   */
  method Create(db: Database, data: CreateData, generated: Uuid) returns (r: Result<Row, Error>)
    modifies db
    ensures data.uuid.Some? && data.uuid.value in old(db.tables) ==> r == Failure(PrimaryKeyTaken(data.uuid.value))
    ensures MatchesSuffixPattern(data.name) ==> r.Failure? && KindOf(r.error) != Internal
    ensures Taken(old(db.tables), Name, data.name) || Taken(old(db.tables), SingularName, data.singularName) ==>
      r.Failure? && KindOf(r.error) != Internal
    ensures (data.uuid.None? || data.uuid.value !in old(db.tables)) && MatchesSuffixPattern(data.name) ==>
      r == Failure(ReservedSuffix)
    ensures ((data.uuid.None? || data.uuid.value !in old(db.tables)) && !MatchesSuffixPattern(data.name)
             && Taken(old(db.tables), Name, data.name)) ==>
      r == Failure(DuplicateValue(Name, data.name))
    ensures ((data.uuid.None? || data.uuid.value !in old(db.tables)) && !MatchesSuffixPattern(data.name)
             && !Taken(old(db.tables), Name, data.name) && Taken(old(db.tables), SingularName, data.singularName)) ==>
      r == Failure(DuplicateValue(SingularName, data.singularName))
    ensures r.Failure? && KindOf(r.error) != Internal ==>
      (data.uuid.Some? && data.uuid.value in old(db.tables)) || MatchesSuffixPattern(data.name)
      || Taken(old(db.tables), Name, data.name) || Taken(old(db.tables), SingularName, data.singularName)
    ensures r.Failure? && KindOf(r.error) != Internal ==> db.Snap() == old(db.Snap()) && db.issued == old(db.issued)
    ensures r.Success? ==> (r.value == NewRow(Or(data.uuid, generated), data)
      && db.Snap() == AfterCreate(old(db.Snap()), r.value)
      && db.issued == old(db.issued) + [Statement.InsertRow(r.value), Statement.CreateTable(data.name, PrimaryKeyName(r.value.uuid))])
    ensures r.Success? && old(db.Valid()) ==> db.Valid()
  {
    ghost var s0 := db.Snap();
    var u := generated;
    if data.uuid.Some? {
      var free := db.CheckPrimaryKey(data.uuid.value);
      if free.Fail? {
        return Failure(free.error);
      }
      u := data.uuid.value;
    }
    var pre := PreCreate(db, data);
    if pre.Fail? {
      return Failure(pre.error);
    }
    var row := NewRow(u, data);
    var inserted := db.InsertRow(row);
    if inserted.Fail? {
      return Failure(inserted.error);
    }
    var post := PostCreate(db, row);
    if post.Fail? {
      return Failure(post.error);
    }
    r := Success(row);
    if Consistent(s0) {
      CreateKeepsConsistent(s0, row);
    }
  }

  /** The statements a successful update issues. */
  function UpdateStatements(row: Row, data: UpdateData): seq<Statement>
  {
    var updated := Patched(row, DataPatch(data));
    if updated == row then []
    else
      var renames :=
        if updated.name == row.name then []
        else [Statement.RenameTable(row.name, updated.name), Statement.RenameSequence(IdSequence(row.name), IdSequence(updated.name))];
      [Statement.UpdateRow(row.uuid, DataPatch(data))] + renames
  }

  /**
   * Update: find the row, stop if the merged row equals it, preUpdate, the
   * row update, postUpdate.
   */
  method Update(db: Database, u: Uuid, data: UpdateData) returns (r: Result<Row, Error>)
    modifies db
    ensures u !in old(db.tables) ==> r == Failure(RowNotFound(u))
    ensures u in old(db.tables) && NameChanges(old(db.tables)[u], data) && MatchesSuffixPattern(data.name.value) ==>
      r == Failure(ReservedSuffix)
    ensures (u in old(db.tables) && NameChanges(old(db.tables)[u], data) && !MatchesSuffixPattern(data.name.value)
             && Taken(old(db.tables), Name, data.name.value)) ==>
      r == Failure(DuplicateValue(Name, data.name.value))
    ensures (u in old(db.tables) && SingularNameChanges(old(db.tables)[u], data)
             && Taken(old(db.tables), SingularName, data.singularName.value)
             && !(NameChanges(old(db.tables)[u], data)
                  && (MatchesSuffixPattern(data.name.value) || Taken(old(db.tables), Name, data.name.value)))) ==>
      r == Failure(DuplicateValue(SingularName, data.singularName.value))
    ensures r.Failure? && KindOf(r.error) != Internal ==>
      u !in old(db.tables)
      || (NameChanges(old(db.tables)[u], data)
          && (MatchesSuffixPattern(data.name.value) || Taken(old(db.tables), Name, data.name.value)))
      || (SingularNameChanges(old(db.tables)[u], data) && Taken(old(db.tables), SingularName, data.singularName.value))
    ensures r.Failure? && KindOf(r.error) != Internal ==> db.Snap() == old(db.Snap()) && db.issued == old(db.issued)
    ensures r.Success? ==> (u in old(db.tables)
      && r.value == Patched(old(db.tables)[u], DataPatch(data))
      && (r.value.name != old(db.tables)[u].name ==> old(db.tables)[u].name in old(db.schema))
      && db.Snap() == AfterUpdate(old(db.Snap()), u, data)
      && db.issued == old(db.issued) + UpdateStatements(old(db.tables)[u].(uuid := u), data))
    ensures r.Success? && old(db.Valid()) ==> db.Valid()
  {
    ghost var s0 := db.Snap();
    var found := db.FindByPrimaryKey(u);
    if found.Failure? {
      return Failure(found.error);
    }
    var row := found.value;
    var merged := Patched(row, DataPatch(data));
    if merged == row {
      assert s0.tables[u := merged] == s0.tables;
      return Success(row);
    }
    var pre := PreUpdate(db, row, data);
    if pre.Fail? {
      return Failure(pre.error);
    }
    r := WriteUpdate(db, u, row, data);
    if r.Success? && Consistent(s0) {
      UpdateKeepsConsistent(s0, u, data);
    }
  }

  /** The writes of an update that passed its checks: the row update, then postUpdate. */
  method WriteUpdate(db: Database, u: Uuid, row: Row, data: UpdateData) returns (r: Result<Row, Error>)
    requires u in db.tables && db.tables[u] == row && Patched(row, DataPatch(data)) != row
    modifies db
    ensures r.Success? ==> (r.value == Patched(row, DataPatch(data))
      && (r.value.name != row.name ==> row.name in old(db.schema))
      && db.Snap() == AfterUpdate(old(db.Snap()), u, data)
      && db.issued == old(db.issued) + UpdateStatements(row.(uuid := u), data))
    ensures r.Failure? ==> KindOf(r.error) == Internal
  {
    var updated := db.UpdateRow(u, DataPatch(data));
    if updated.Failure? {
      return Failure(updated.error);
    }
    var post := PostUpdate(db, row, updated.value);
    if post.Fail? {
      return Failure(post.error);
    }
    r := Success(updated.value);
  }

  /** Delete: find the row, preDelete, the row delete, postDelete. */
  method Delete(db: Database, u: Uuid) returns (r: Outcome<Error>)
    modifies db
    ensures u !in old(db.tables) ==> r == Fail(RowNotFound(u)) && db.Snap() == old(db.Snap())
    ensures r.Fail? && KindOf(r.error) != Internal ==> u !in old(db.tables)
    ensures r.Fail? && KindOf(r.error) != Internal ==> db.Snap() == old(db.Snap()) && db.issued == old(db.issued)
    ensures r.Pass? ==> (u in old(db.tables)
      && db.Snap() == AfterDelete(old(db.Snap()), u)
      && db.issued == old(db.issued) + [Statement.DeleteRow(u), Statement.DropTable(old(db.tables)[u].name)])
    ensures r.Pass? && old(db.Valid()) ==> db.Valid()
  {
    ghost var s0 := db.Snap();
    var found := db.FindByPrimaryKey(u);
    if found.Failure? {
      return Fail(found.error);
    }
    var row := found.value;
    var pre := PreDelete();
    if pre.Fail? {
      return pre;
    }
    var deleted := db.DeleteRow(u);
    if deleted.Fail? {
      return deleted;
    }
    r := PostDelete(db, row);
    if r.Pass? && Consistent(s0) {
      DeleteKeepsConsistent(s0, u);
    }
  }

  // ---------------------------------------------------------------------
  // The unique key

  /** One `SET position_in_unique_key = i + 1` per column, in key order. */
  function PositionStatements(key: seq<Uuid>): (stmts: seq<Statement>)
    ensures |stmts| == |key|
    ensures forall i :: 0 <= i < |key| ==> stmts[i] == Statement.SetPosition(key[i], i + 1)
  {
    seq(|key|, i requires 0 <= i < |key| => Statement.SetPosition(key[i], i + 1))
  }

  lemma PositionStatementsStep(key: seq<Uuid>, i: nat)
    requires i < |key|
    ensures PositionStatements(key)[..i + 1] == PositionStatements(key)[..i] + [Statement.SetPosition(key[i], i + 1)]
  {
  }

  /**
   * The first loop of createUniqueKey: each column in caller order must
   * exist, belong to table `u` and be NOT NULL; the names are collected in
   * that order. The refusal is the one for the first column that fails.
   */
  method CheckColumns(db: Database, u: Uuid, key: seq<Uuid>) returns (names: seq<string>, refusal: Option<Error>)
    ensures refusal == FirstIneligible(db.columns, u, key, 0)
    ensures refusal.None? ==> (forall c :: c in key ==> c in db.columns) && names == ColumnNames(db.columns, key)
  {
    names := [];
    var i := 0;
    while i < |key|
      invariant 0 <= i <= |key|
      invariant |names| == i
      invariant forall j :: 0 <= j < i ==> Eligible(db.columns, u, key[j]) && names[j] == db.columns[key[j]].name
      invariant FirstIneligible(db.columns, u, key, 0) == FirstIneligible(db.columns, u, key, i)
    {
      var column := db.FindColumn(key[i]);
      if column.None? {
        return names, Some(ColumnNotFound(i + 1));
      }
      if column.value.tableUuid != u {
        return names, Some(ColumnNotOnTable(i + 1));
      }
      if !column.value.isNotNull {
        return names, Some(ColumnNullable(i + 1));
      }
      names := names + [column.value.name];
      i := i + 1;
    }
    refusal := None;
    EligibleOwned(db.columns, u, key);
  }

  /** The second loop of createUniqueKey: column `key[i]` gets position `i + 1`. */
  method SetPositions(db: Database, key: seq<Uuid>) returns (r: Outcome<Error>)
    requires Distinct(key) && forall c :: c in key ==> c in db.columns
    modifies db
    ensures r.Pass? ==> db.columns == WithPositions(old(db.columns), key) && db.issued == old(db.issued) + PositionStatements(key)
    ensures r.Fail? ==> r.error.StatementFailed? && r.error.statement.SetPosition?
    ensures db.tables == old(db.tables) && db.schema == old(db.schema)
  {
    ghost var c0 := db.columns;
    ghost var log0 := db.issued;
    var i := 0;
    while i < |key|
      invariant 0 <= i <= |key|
      invariant db.tables == old(db.tables) && db.schema == old(db.schema)
      invariant db.columns == WithPositions(c0, key[..i])
      invariant db.issued == log0 + PositionStatements(key)[..i]
    {
      WithPositionsStep(c0, key, i);
      r := db.SetPosition(key[i], i + 1);
      if r.Fail? {
        return;
      }
      PositionStatementsStep(key, i);
      i := i + 1;
    }
    assert key[..|key|] == key;
    assert PositionStatements(key)[..|key|] == PositionStatements(key);
    r := Pass;
  }

  /**
   * The guards of createUniqueKey, in source order, before any statement:
   * the row must exist and have no key, the column list must be non-empty and
   * free of duplicates, and every column must pass CheckColumns.
   */
  method CreateUniqueKeyChecks(db: Database, u: Uuid, key: seq<Uuid>) returns (r: Result<(Row, seq<string>), Error>)
    ensures r.Failure? <==> CreateUniqueKeyRefusal(db.Snap(), u, key).Some?
    ensures r.Failure? ==> r.error == CreateUniqueKeyRefusal(db.Snap(), u, key).value
    ensures r.Success? ==> (u in db.tables && r.value.0 == db.tables[u]
      && (forall c :: c in key ==> c in db.columns) && r.value.1 == ColumnNames(db.columns, key))
  {
    var found := db.FindByPrimaryKey(u);
    if found.Failure? {
      return Failure(found.error);
    }
    var row := found.value;
    if HasUniqueKey(row) {
      return Failure(AlreadyHasUniqueKey);
    }
    if |key| == 0 {
      return Failure(NoColumns);
    }
    SetSizeDetectsDuplicates(key);
    if |set c | c in key| != |key| {
      return Failure(DuplicateColumns);
    }
    var names, refusal := CheckColumns(db, u, key);
    if refusal.Some? {
      return Failure(refusal.value);
    }
    r := Success((row, names));
  }

  /**
   * createUniqueKey: the guards in order (row found, no key yet, columns
   * given, no duplicates, then each column in caller order), the UNIQUE
   * constraint over the column names in that order, the 1-based positions,
   * and finally the encoded column list on the row.
   */
  method CreateUniqueKey(db: Database, u: Uuid, key: seq<Uuid>) returns (r: Outcome<Error>)
    modifies db
    ensures CreateUniqueKeyRefusal(old(db.Snap()), u, key).Some? ==>
      r == Fail(CreateUniqueKeyRefusal(old(db.Snap()), u, key).value)
    ensures r.Fail? && KindOf(r.error) != Internal ==> CreateUniqueKeyRefusal(old(db.Snap()), u, key) == Some(r.error)
    ensures r.Fail? && KindOf(r.error) != Internal ==> db.Snap() == old(db.Snap()) && db.issued == old(db.issued)
    ensures r == Fail(AddConstraintFailed) ==> db.Snap() == old(db.Snap()) && db.issued == old(db.issued)
    ensures r.Pass? ==> (CreateUniqueKeyRefusal(old(db.Snap()), u, key).None?
      && u in old(db.tables) && old(db.tables)[u].name in old(db.schema)
      && (forall c :: c in key ==> c in old(db.columns))
      && db.Snap() == AfterCreateUniqueKey(old(db.Snap()), u, key)
      && db.issued == old(db.issued)
           + [Statement.AddUnique(old(db.tables)[u].name, UniqueKeyName(u), ColumnNames(old(db.columns), key))]
           + PositionStatements(key)
           + [Statement.UpdateRow(u, UniqueKeyPatch(Some(UniqueKeyCodec.Encode(key))))])
  {
    ghost var s0 := db.Snap();
    var checked := CreateUniqueKeyChecks(db, u, key);
    if checked.Failure? {
      return Fail(checked.error);
    }
    var (row, names) := checked.value;
    var added := db.AddUniqueConstraint(row.name, UniqueKeyName(u), names);
    if added.Fail? {
      return Fail(AddConstraintFailed);
    }
    r := ClaimColumns(db, u, key);
  }

  /**
   * The last writes of createUniqueKey: each column's 1-based position set
   * in key order, then the key stored on the row as JSON text.
   */
  method ClaimColumns(db: Database, u: Uuid, key: seq<Uuid>) returns (r: Outcome<Error>)
    requires u in db.tables && Distinct(key) && forall c :: c in key ==> c in db.columns
    modifies db
    ensures r.Pass? ==> (db.tables == old(db.tables)[u := Patched(old(db.tables)[u], UniqueKeyPatch(Some(UniqueKeyCodec.Encode(key))))]
      && db.columns == WithPositions(old(db.columns), key)
      && db.issued == old(db.issued) + PositionStatements(key)
           + [Statement.UpdateRow(u, UniqueKeyPatch(Some(UniqueKeyCodec.Encode(key))))])
    ensures r.Fail? ==> r.error.StatementFailed?
    ensures db.schema == old(db.schema)
  {
    var positioned := SetPositions(db, key);
    if positioned.Fail? {
      return positioned;
    }
    var updated := db.UpdateRow(u, UniqueKeyPatch(Some(UniqueKeyCodec.Encode(key))));
    if updated.Failure? {
      return Fail(updated.error);
    }
    r := Pass;
  }

  /** The guards of deleteUniqueKey: the row must exist and hold a key. */
  method DeleteUniqueKeyChecks(db: Database, u: Uuid) returns (r: Result<Row, Error>)
    ensures r.Success? <==> u in db.tables && HasUniqueKey(db.tables[u])
    ensures r.Success? ==> r.value == db.tables[u]
    ensures u !in db.tables ==> r == Failure(RowNotFound(u))
    ensures u in db.tables && !HasUniqueKey(db.tables[u]) ==> r == Failure(NoUniqueKey)
  {
    r := db.FindByPrimaryKey(u);
    if r.Success? && !HasUniqueKey(r.value) {
      r := Failure(NoUniqueKey);
    }
  }

  /**
   * deleteUniqueKey: the guards (row found, key present), the constraint
   * drop, the positions of the stored columns cleared, and the row's key set
   * to null.
   *
   * The source sets positions on the `_columns` row whose `uuid` matches
   * (src/class.ts:228) but clears them on the rows whose `column_uuid`
   * matches (src/class.ts:271); both are modelled as the column's id.
   */
  method DeleteUniqueKey(db: Database, u: Uuid) returns (r: Outcome<Error>)
    modifies db
    ensures u !in old(db.tables) ==> r == Fail(RowNotFound(u))
    ensures u in old(db.tables) && !HasUniqueKey(old(db.tables)[u]) ==> r == Fail(NoUniqueKey)
    ensures r.Fail? && KindOf(r.error) != Internal ==> u !in old(db.tables) || !HasUniqueKey(old(db.tables)[u])
    ensures r.Fail? && KindOf(r.error) != Internal ==> db.Snap() == old(db.Snap()) && db.issued == old(db.issued)
    ensures r == Fail(DropConstraintFailed) ==> db.Snap() == old(db.Snap()) && db.issued == old(db.issued)
    ensures r == Fail(MalformedUniqueKey) ==> (u in old(db.tables) && HasUniqueKey(old(db.tables)[u])
      && UniqueKeyCodec.Decode(old(db.tables)[u].uniqueKey.value).None?)
    ensures r.Pass? ==> (u in old(db.tables) && HasUniqueKey(old(db.tables)[u])
      && old(db.tables)[u].name in old(db.schema)
      && UniqueKeyCodec.Decode(old(db.tables)[u].uniqueKey.value).Some?
      && var key := UniqueKeyCodec.Decode(old(db.tables)[u].uniqueKey.value).value;
         && db.Snap() == AfterDeleteUniqueKey(old(db.Snap()), u, key)
         && db.issued == old(db.issued) + [Statement.DropConstraint(old(db.tables)[u].name, UniqueKeyName(u)),
                                           Statement.ClearPositions(key),
                                           Statement.UpdateRow(u, UniqueKeyPatch(None))])
  {
    ghost var s0 := db.Snap();
    var found := DeleteUniqueKeyChecks(db, u);
    if found.Failure? {
      return Fail(found.error);
    }
    var row := found.value;
    var dropped := db.DropConstraint(row.name, UniqueKeyName(u));
    if dropped.Fail? {
      return Fail(DropConstraintFailed);
    }
    var decoded := UniqueKeyCodec.Decode(row.uniqueKey.value);
    if decoded.None? {
      return Fail(MalformedUniqueKey);
    }
    r := ReleaseColumns(db, u, decoded.value);
  }

  /**
   * The last two writes of deleteUniqueKey: the positions of the key's
   * columns cleared, then the row's key set to null.
   */
  method ReleaseColumns(db: Database, u: Uuid, key: seq<Uuid>) returns (r: Outcome<Error>)
    requires u in db.tables
    modifies db
    ensures r.Pass? ==> (db.tables == old(db.tables)[u := Patched(old(db.tables)[u], UniqueKeyPatch(None))]
      && db.columns == WithoutPositions(old(db.columns), key)
      && db.issued == old(db.issued) + [Statement.ClearPositions(key), Statement.UpdateRow(u, UniqueKeyPatch(None))])
    ensures r.Fail? ==> r.error.StatementFailed?
    ensures db.schema == old(db.schema)
  {
    var cleared := db.ClearPositions(key);
    if cleared.Fail? {
      return cleared;
    }
    var updated := db.UpdateRow(u, UniqueKeyPatch(None));
    if updated.Failure? {
      return Fail(updated.error);
    }
    r := Pass;
  }
}
