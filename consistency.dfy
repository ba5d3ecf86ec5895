/**
 * The invariant the table service keeps between the `_tables` catalog, the
 * `_columns` positions and the physical schema, the effect of each operation
 * on a snapshot of that state, and the proofs that each operation keeps the
 * invariant when its checks pass.
 */
module Consistency {
  import opened Wrappers
  import opened Model
  import opened Naming
  import UniqueKeyCodec

  function CatalogNames(tables: map<Uuid, Row>): set<string>
  {
    set u | u in tables :: tables[u].name
  }

  /** No two catalog rows share a value of field `f`. */
  ghost predicate UniqueField(tables: map<Uuid, Row>, f: Field)
  {
    forall u, v :: u in tables && v in tables && u != v ==> FieldValue(tables[u], f) != FieldValue(tables[v], f)
  }

  /** Column `c` exists, belongs to table `u` and is declared NOT NULL. */
  predicate Eligible(columns: map<Uuid, Column>, u: Uuid, c: Uuid)
  {
    c in columns && columns[c].tableUuid == u && columns[c].isNotNull
  }

  ghost predicate NoPositions(columns: map<Uuid, Column>, u: Uuid)
  {
    forall c :: c in columns && columns[c].tableUuid == u ==> columns[c].position.None?
  }

  /** The columns of table `u` carry positions 1..|key|, exactly the columns of `key`, in key order. */
  ghost predicate KeyColumns(columns: map<Uuid, Column>, u: Uuid, key: seq<Uuid>)
  {
    && |key| > 0
    && Distinct(key)
    && (forall i :: 0 <= i < |key| ==> Eligible(columns, u, key[i]) && columns[key[i]].position == Some(i + 1))
    && (forall c :: c in columns && columns[c].tableUuid == u && c !in key ==> columns[c].position.None?)
  }

  /** The stored `unique_key` text names a key that the columns and the `{uuid}_uk` constraint agree with. */
  ghost predicate StoredKeyHolds(u: Uuid, text: string, pt: PhysicalTable, columns: map<Uuid, Column>)
  {
    match UniqueKeyCodec.Decode(text)
    case None => false
    case Some(key) =>
      && KeyColumns(columns, u, key)
      && UniqueKeyName(u) in pt.constraints
      && pt.constraints[UniqueKeyName(u)] == Unique(ColumnNames(columns, key))
  }

  /** The physical table `pt` mirrors catalog row `row` (whose uuid is `u`). */
  ghost predicate Mirrors(u: Uuid, row: Row, pt: PhysicalTable, columns: map<Uuid, Column>)
  {
    && pt.sequence == IdSequence(row.name)
    && pt.constraints.Keys <= {PrimaryKeyName(u), UniqueKeyName(u)}
    && PrimaryKeyName(u) in pt.constraints
    && pt.constraints[PrimaryKeyName(u)] == PrimaryKey
    && (UniqueKeyName(u) in pt.constraints <==> row.uniqueKey.Some?)
    && (row.uniqueKey.None? ==> NoPositions(columns, u))
    && (row.uniqueKey.Some? ==> StoredKeyHolds(u, row.uniqueKey.value, pt, columns))
  }

  /**
   * The invariant: rows are keyed by their uuid; `name` and `singular_name`
   * are unique; no name carries the reserved suffix; the physical tables are exactly the catalog names, each with
   * its `{name}_id_seq` sequence, its `{uuid}_pk` constraint and a `{uuid}_uk`
   * constraint exactly when `unique_key` is set; and every column belongs to
   * a catalogued table.
   */
  ghost predicate Consistent(s: Snapshot)
  {
    && KeyedByUuid(s.tables)
    && UniqueField(s.tables, Name)
    && UniqueField(s.tables, SingularName)
    && NoReservedNames(s.tables)
    && s.schema.Keys == CatalogNames(s.tables)
    && AllMirrored(s)
    && ColumnsOwned(s)
  }

  /** No catalog name ends in `_lookup_values`. */
  ghost predicate NoReservedNames(tables: map<Uuid, Row>)
  {
    forall u :: u in tables ==> !MatchesSuffixPattern(tables[u].name)
  }

  ghost predicate KeyedByUuid(tables: map<Uuid, Row>)
  {
    forall u :: u in tables ==> tables[u].uuid == u
  }

  /** Every catalog row has its physical table, and that table mirrors it. */
  ghost predicate AllMirrored(s: Snapshot)
  {
    forall u :: u in s.tables ==>
      s.tables[u].name in s.schema && Mirrors(u, s.tables[u], s.schema[s.tables[u].name], s.columns)
  }

  /** Every column belongs to a catalogued table. */
  ghost predicate ColumnsOwned(s: Snapshot)
  {
    forall c :: c in s.columns ==> s.columns[c].tableUuid in s.tables
  }

  // ---------------------------------------------------------------------
  // The effect of each operation on a snapshot

  /** The row the base service inserts: system fields start at 0 and null. */
  function NewRow(u: Uuid, data: CreateData): Row
  {
    Row(u, data.name, data.singularName, Or(data.isEnabled, false), 0, None)
  }

  /** The table postCreate creates: `id serial` (hence `{name}_id_seq`) and the `{uuid}_pk` constraint. */
  function NewPhysicalTable(name: string, u: Uuid): PhysicalTable
  {
    PhysicalTable(IdSequence(name), map[PrimaryKeyName(u) := PrimaryKey])
  }

  function AfterCreate(s: Snapshot, row: Row): Snapshot
  {
    Snapshot(s.tables[row.uuid := row], s.columns, s.schema[row.name := NewPhysicalTable(row.name, row.uuid)])
  }

  /** The schema after the table is renamed and then its sequence. */
  function Renamed(schema: map<string, PhysicalTable>, from: string, to: string): map<string, PhysicalTable>
    requires from in schema
  {
    RenameSequenceIn(RenameRelation(schema, from, to), IdSequence(from), IdSequence(to))
  }

  function AfterUpdate(s: Snapshot, u: Uuid, data: UpdateData): Snapshot
    requires u in s.tables
    requires Patched(s.tables[u], DataPatch(data)).name != s.tables[u].name ==> s.tables[u].name in s.schema
  {
    var row := s.tables[u];
    var updated := Patched(row, DataPatch(data));
    Snapshot(s.tables[u := updated], s.columns,
             if updated.name == row.name then s.schema else Renamed(s.schema, row.name, updated.name))
  }

  function AfterDelete(s: Snapshot, u: Uuid): Snapshot
    requires u in s.tables
  {
    Snapshot(s.tables - {u}, s.columns, s.schema - {s.tables[u].name})
  }

  function AfterCreateUniqueKey(s: Snapshot, u: Uuid, key: seq<Uuid>): Snapshot
    requires u in s.tables && s.tables[u].name in s.schema
    requires forall c :: c in key ==> c in s.columns
  {
    var row := s.tables[u];
    var pt := s.schema[row.name];
    Snapshot(s.tables[u := Patched(row, UniqueKeyPatch(Some(UniqueKeyCodec.Encode(key))))],
             WithPositions(s.columns, key),
             s.schema[row.name := pt.(constraints := pt.constraints[UniqueKeyName(u) := Unique(ColumnNames(s.columns, key))])])
  }

  function AfterDeleteUniqueKey(s: Snapshot, u: Uuid, key: seq<Uuid>): Snapshot
    requires u in s.tables && s.tables[u].name in s.schema
  {
    var row := s.tables[u];
    var pt := s.schema[row.name];
    Snapshot(s.tables[u := Patched(row, UniqueKeyPatch(None))],
             WithoutPositions(s.columns, key),
             s.schema[row.name := pt.(constraints := pt.constraints - {UniqueKeyName(u)})])
  }

  // ---------------------------------------------------------------------
  // The checks of createUniqueKey

  /** The three checks on the column at 1-based position `position`, in source order. */
  function ColumnRefusal(columns: map<Uuid, Column>, u: Uuid, c: Uuid, position: nat): Option<Error>
  {
    if c !in columns then Some(ColumnNotFound(position))
    else if columns[c].tableUuid != u then Some(ColumnNotOnTable(position))
    else if !columns[c].isNotNull then Some(ColumnNullable(position))
    else None
  }

  /** The refusal of the first column of `key[from..]` that fails a check. */
  function FirstIneligible(columns: map<Uuid, Column>, u: Uuid, key: seq<Uuid>, from: nat): Option<Error>
    decreases |key| - from
  {
    if from >= |key| then None
    else if ColumnRefusal(columns, u, key[from], from + 1).Some? then ColumnRefusal(columns, u, key[from], from + 1)
    else FirstIneligible(columns, u, key, from + 1)
  }

  /** What createUniqueKey refuses with, if anything, before it issues any statement. */
  function CreateUniqueKeyRefusal(s: Snapshot, u: Uuid, key: seq<Uuid>): Option<Error>
  {
    if u !in s.tables then Some(RowNotFound(u))
    else if HasUniqueKey(s.tables[u]) then Some(AlreadyHasUniqueKey)
    else if |key| == 0 then Some(NoColumns)
    else if !Distinct(key) then Some(DuplicateColumns)
    else FirstIneligible(s.columns, u, key, 0)
  }

  lemma ColumnRefusalMeaning(columns: map<Uuid, Column>, u: Uuid, c: Uuid, position: nat)
    ensures ColumnRefusal(columns, u, c, position).None? <==> Eligible(columns, u, c)
    ensures ColumnRefusal(columns, u, c, position).Some? ==>
      var e := ColumnRefusal(columns, u, c, position).value;
      (e.ColumnNotFound? || e.ColumnNotOnTable? || e.ColumnNullable?) && e.position == position
  {
  }

  /**
   * The column loop refuses exactly when some column is ineligible, and then
   * with the refusal of the first such column in caller order.
   */
  lemma {:induction false} FirstIneligibleIsFirst(columns: map<Uuid, Column>, u: Uuid, key: seq<Uuid>, from: nat)
    requires from <= |key|
    ensures FirstIneligible(columns, u, key, from).None? <==>
              forall i :: from <= i < |key| ==> Eligible(columns, u, key[i])
    ensures FirstIneligible(columns, u, key, from).Some? ==>
              exists p :: from <= p < |key|
                && (forall i :: from <= i < p ==> Eligible(columns, u, key[i]))
                && ColumnRefusal(columns, u, key[p], p + 1) == FirstIneligible(columns, u, key, from)
    decreases |key| - from
  {
    if from < |key| {
      ColumnRefusalMeaning(columns, u, key[from], from + 1);
      if ColumnRefusal(columns, u, key[from], from + 1).None? {
        FirstIneligibleIsFirst(columns, u, key, from + 1);
        if FirstIneligible(columns, u, key, from).Some? {
          var p :| from + 1 <= p < |key|
                && (forall i :: from + 1 <= i < p ==> Eligible(columns, u, key[i]))
                && ColumnRefusal(columns, u, key[p], p + 1) == FirstIneligible(columns, u, key, from + 1);
          assert forall i :: from <= i < p ==> Eligible(columns, u, key[i]);
        }
      } else {
        assert !Eligible(columns, u, key[from]);
      }
    }
  }

  /** The checks of createUniqueKey pass exactly for an eligible, duplicate-free, non-empty key on a table without one. */
  lemma RefusalNoneIff(s: Snapshot, u: Uuid, key: seq<Uuid>)
    ensures CreateUniqueKeyRefusal(s, u, key).None? <==>
      && u in s.tables
      && !HasUniqueKey(s.tables[u])
      && |key| > 0
      && Distinct(key)
      && (forall i :: 0 <= i < |key| ==> Eligible(s.columns, u, key[i]))
  {
    FirstIneligibleIsFirst(s.columns, u, key, 0);
  }

  lemma {:induction false} ElementCountAtMost(key: seq<Uuid>)
    ensures |set c | c in key| <= |key|
  {
    if key != [] {
      ElementCountAtMost(key[1..]);
      assert (set c | c in key) == {key[0]} + (set c | c in key[1..]);
    }
  }

  /** `new Set(columns).size == columns.length` holds exactly when no column id repeats. */
  lemma {:induction false} SetSizeDetectsDuplicates(key: seq<Uuid>)
    ensures |set c | c in key| == |key| <==> Distinct(key)
  {
    if key != [] {
      var rest := key[1..];
      SetSizeDetectsDuplicates(rest);
      assert (set c | c in key) == {key[0]} + (set c | c in rest);
      if key[0] in rest {
        ElementCountAtMost(rest);
        assert (set c | c in key) == (set c | c in rest);
        var j :| 0 <= j < |rest| && rest[j] == key[0];
        assert key[0] == key[j + 1];
      } else {
        assert Distinct(key) <==> Distinct(rest) by {
          if Distinct(rest) {
            forall i, j | 0 <= i < j < |key| ensures key[i] != key[j] {
              if i > 0 { assert key[i] == rest[i - 1] && key[j] == rest[j - 1]; }
              else { assert key[j] == rest[j - 1]; }
            }
          }
          if Distinct(key) {
            forall i, j | 0 <= i < j < |rest| ensures rest[i] != rest[j] {
              assert rest[i] == key[i + 1] && rest[j] == key[j + 1];
            }
          }
        }
      }
    }
  }

  // ---------------------------------------------------------------------
  // Helpers about the column maps

  lemma IndexOfDistinct(key: seq<Uuid>, i: nat)
    requires Distinct(key) && i < |key|
    ensures IndexOf(key, key[i]) == i
  {
    var j := IndexOf(key, key[i]);
    assert key[j] == key[i];
  }

  /** Giving `key[i]` position `i + 1` extends the positions of `key[..i]` to `key[..i + 1]`. */
  lemma WithPositionsStep(columns: map<Uuid, Column>, key: seq<Uuid>, i: nat)
    requires Distinct(key) && i < |key| && key[i] in columns
    ensures WithPositions(columns, key[..i])[key[i]] == columns[key[i]]
    ensures WithPositions(columns, key[..i + 1]) ==
      WithPositions(columns, key[..i])[key[i] := columns[key[i]].(position := Some(i + 1))]
  {
    var before, after := key[..i], key[..i + 1];
    assert Distinct(after) by {
      forall a, b | 0 <= a < b < |after| ensures after[a] != after[b] {
        assert after[a] == key[a] && after[b] == key[b];
      }
    }
    assert Distinct(before) by {
      forall a, b | 0 <= a < b < |before| ensures before[a] != before[b] {
        assert before[a] == key[a] && before[b] == key[b];
      }
    }
    assert key[i] !in before by {
      forall a | 0 <= a < |before| ensures before[a] != key[i] {
        assert before[a] == key[a];
      }
    }
    IndexOfDistinct(after, i);
    forall j | 0 <= j < i ensures IndexOf(after, before[j]) == IndexOf(before, before[j]) {
      IndexOfDistinct(after, j);
      IndexOfDistinct(before, j);
    }
  }

  lemma ColumnNamesFrame(c1: map<Uuid, Column>, c2: map<Uuid, Column>, key: seq<Uuid>)
    requires forall c :: c in key ==> c in c1 && c in c2 && c1[c].name == c2[c].name
    ensures ColumnNames(c1, key) == ColumnNames(c2, key)
  {
  }

  /**
   * Mirrors only depends on the columns of its own table: if those are the
   * same in `c2`, and no column moved to another table, it carries over.
   */
  lemma MirrorsColumnsFrame(u: Uuid, row: Row, pt: PhysicalTable, c1: map<Uuid, Column>, c2: map<Uuid, Column>)
    requires c1.Keys == c2.Keys
    requires forall c :: c in c1 ==> c2[c].tableUuid == c1[c].tableUuid
    requires forall c :: c in c1 && c1[c].tableUuid == u ==> c2[c] == c1[c]
    requires Mirrors(u, row, pt, c1)
    ensures Mirrors(u, row, pt, c2)
  {
    if row.uniqueKey.Some? {
      var key := UniqueKeyCodec.Decode(row.uniqueKey.value).value;
      assert KeyColumns(c2, u, key);
      ColumnNamesFrame(c1, c2, key);
    }
  }

  // ---------------------------------------------------------------------
  // Each operation keeps the invariant

  lemma CatalogNamesMember(tables: map<Uuid, Row>, u: Uuid)
    requires u in tables
    ensures tables[u].name in CatalogNames(tables)
  {
  }

  lemma CatalogNamesInsert(tables: map<Uuid, Row>, row: Row)
    requires row.uuid !in tables
    ensures CatalogNames(tables[row.uuid := row]) == CatalogNames(tables) + {row.name}
  {
    var t := tables[row.uuid := row];
    forall n | n in CatalogNames(t) ensures n in CatalogNames(tables) + {row.name} {
      var v :| v in t && t[v].name == n;
      if v != row.uuid { CatalogNamesMember(tables, v); }
    }
    forall n | n in CatalogNames(tables) + {row.name} ensures n in CatalogNames(t) {
      if n == row.name { CatalogNamesMember(t, row.uuid); }
      else { var v :| v in tables && tables[v].name == n; CatalogNamesMember(t, v); }
    }
  }

  lemma CatalogNamesRemove(tables: map<Uuid, Row>, u: Uuid)
    requires u in tables && UniqueField(tables, Name)
    ensures CatalogNames(tables - {u}) == CatalogNames(tables) - {tables[u].name}
  {
    var t := tables - {u};
    forall n | n in CatalogNames(t) ensures n in CatalogNames(tables) - {tables[u].name} {
      var v :| v in t && t[v].name == n;
      CatalogNamesMember(tables, v);
      assert FieldValue(tables[v], Name) != FieldValue(tables[u], Name);
    }
    forall n | n in CatalogNames(tables) - {tables[u].name} ensures n in CatalogNames(t) {
      var v :| v in tables && tables[v].name == n;
      CatalogNamesMember(t, v);
    }
  }

  /** Replacing row `u` by one with the same or a new name. */
  lemma CatalogNamesReplace(tables: map<Uuid, Row>, u: Uuid, row: Row)
    requires u in tables && UniqueField(tables, Name)
    ensures CatalogNames(tables[u := row]) == CatalogNames(tables) - {tables[u].name} + {row.name}
  {
    var t := tables[u := row];
    forall n | n in CatalogNames(t) ensures n in CatalogNames(tables) - {tables[u].name} + {row.name} {
      var v :| v in t && t[v].name == n;
      if v != u {
        CatalogNamesMember(tables, v);
        assert FieldValue(tables[v], Name) != FieldValue(tables[u], Name);
      }
    }
    forall n | n in CatalogNames(tables) - {tables[u].name} + {row.name} ensures n in CatalogNames(t) {
      if n == row.name { CatalogNamesMember(t, u); }
      else { var v :| v in tables && tables[v].name == n; CatalogNamesMember(t, v); }
    }
  }

  lemma UniqueFieldInsert(tables: map<Uuid, Row>, row: Row, f: Field)
    requires UniqueField(tables, f) && row.uuid !in tables
    requires !Taken(tables, f, FieldValue(row, f))
    ensures UniqueField(tables[row.uuid := row], f)
  {
    var t := tables[row.uuid := row];
    forall v, w | v in t && w in t && v != w ensures FieldValue(t[v], f) != FieldValue(t[w], f) {
      if v == row.uuid { assert FieldValue(tables[w], f) != FieldValue(row, f); }
      if w == row.uuid { assert FieldValue(tables[v], f) != FieldValue(row, f); }
    }
  }

  lemma UniqueFieldReplace(tables: map<Uuid, Row>, u: Uuid, row: Row, f: Field)
    requires UniqueField(tables, f) && u in tables
    requires FieldValue(row, f) != FieldValue(tables[u], f) ==> !Taken(tables, f, FieldValue(row, f))
    ensures UniqueField(tables[u := row], f)
  {
    var t := tables[u := row];
    forall v, w | v in t && w in t && v != w ensures FieldValue(t[v], f) != FieldValue(t[w], f) {
      if v == u { assert FieldValue(tables[w], f) != FieldValue(row, f); }
      if w == u { assert FieldValue(tables[v], f) != FieldValue(row, f); }
    }
  }

  /** Mirrors(v, ...) carries over to a snapshot where v's row, table and columns are unchanged. */
  lemma MirrorsCarry(s: Snapshot, t: Snapshot, v: Uuid)
    requires Consistent(s) && v in s.tables && v in t.tables
    requires t.tables[v] == s.tables[v] && t.columns == s.columns
    requires s.tables[v].name in t.schema && t.schema[s.tables[v].name] == s.schema[s.tables[v].name]
    ensures t.tables[v].name in t.schema && Mirrors(v, t.tables[v], t.schema[t.tables[v].name], t.columns)
  {
  }

  /**
   * Inserting a row whose uuid, name and singular name are new and whose name
   * is not reserved, and creating its table, keeps the invariant.
   */
  lemma CreateKeepsConsistent(s: Snapshot, row: Row)
    requires Consistent(s)
    requires row.uuid !in s.tables && row.uniqueKey.None? && !MatchesSuffixPattern(row.name)
    requires !Taken(s.tables, Name, row.name) && !Taken(s.tables, SingularName, row.singularName)
    ensures Consistent(AfterCreate(s, row))
  {
    CreateKeepsCatalog(s, row);
    CreateMirrorsAll(s, row);
  }

  lemma CreateKeepsCatalog(s: Snapshot, row: Row)
    requires KeyedByUuid(s.tables) && NoReservedNames(s.tables) && ColumnsOwned(s)
    requires UniqueField(s.tables, Name) && UniqueField(s.tables, SingularName)
    requires s.schema.Keys == CatalogNames(s.tables)
    requires row.uuid !in s.tables && !MatchesSuffixPattern(row.name)
    requires !Taken(s.tables, Name, row.name) && !Taken(s.tables, SingularName, row.singularName)
    ensures var t := AfterCreate(s, row);
      && KeyedByUuid(t.tables) && NoReservedNames(t.tables) && ColumnsOwned(t)
      && UniqueField(t.tables, Name) && UniqueField(t.tables, SingularName)
      && t.schema.Keys == CatalogNames(t.tables)
  {
    var t := AfterCreate(s, row);
    CatalogNamesInsert(s.tables, row);
    UniqueFieldInsert(s.tables, row, Name);
    UniqueFieldInsert(s.tables, row, SingularName);
    assert KeyedByUuid(t.tables);
    assert NoReservedNames(t.tables);
    assert ColumnsOwned(t);
  }

  lemma CreateMirrorsAll(s: Snapshot, row: Row)
    requires Consistent(s)
    requires row.uuid !in s.tables && row.uniqueKey.None?
    requires !Taken(s.tables, Name, row.name)
    ensures AllMirrored(AfterCreate(s, row))
  {
    var t := AfterCreate(s, row);
    var u := row.uuid;
    forall v | v in t.tables
      ensures t.tables[v].name in t.schema && Mirrors(v, t.tables[v], t.schema[t.tables[v].name], t.columns)
    {
      if v != u {
        assert FieldValue(s.tables[v], Name) != row.name;
        MirrorsCarry(s, t, v);
      } else {
        ConstraintNamesDiffer(u, u);
        assert NoPositions(s.columns, u) by {
          assert ColumnsOwned(s);
        }
      }
    }
  }

  lemma RenamedSchema(s: Snapshot, u: Uuid, newName: string)
    requires Consistent(s) && u in s.tables
    requires newName != s.tables[u].name && !Taken(s.tables, Name, newName)
    ensures var from := s.tables[u].name;
      var r := Renamed(s.schema, from, newName);
      && r.Keys == s.schema.Keys - {from} + {newName}
      && r[newName] == s.schema[from].(sequence := IdSequence(newName))
      && forall n :: n in s.schema && n != from ==> r[n] == s.schema[n]
  {
    var from := s.tables[u].name;
    var moved := RenameRelation(s.schema, from, newName);
    assert newName !in s.schema;
    forall n | n in s.schema && n != from ensures moved[n].sequence != IdSequence(from) {
      var v :| v in s.tables && s.tables[v].name == n;
      IdSequenceInjective(n, from);
    }
  }

  /**
   * An update whose changed name is neither reserved nor taken, and whose
   * changed singular name is not taken, keeps the invariant.
   */
  lemma UpdateKeepsConsistent(s: Snapshot, u: Uuid, data: UpdateData)
    requires Consistent(s) && u in s.tables
    requires data.name.Some? && data.name.value != s.tables[u].name ==>
               !MatchesSuffixPattern(data.name.value) && !Taken(s.tables, Name, data.name.value)
    requires data.singularName.Some? && data.singularName.value != s.tables[u].singularName ==>
               !Taken(s.tables, SingularName, data.singularName.value)
    ensures Consistent(AfterUpdate(s, u, data))
  {
    var row := s.tables[u];
    var updated := Patched(row, DataPatch(data));
    var t := AfterUpdate(s, u, data);
    CatalogNamesReplace(s.tables, u, updated);
    CatalogNamesMember(s.tables, u);
    UniqueFieldReplace(s.tables, u, updated, Name);
    UniqueFieldReplace(s.tables, u, updated, SingularName);
    assert KeyedByUuid(t.tables);
    assert NoReservedNames(t.tables);
    assert ColumnsOwned(t);
    if updated.name != row.name {
      RenamedSchema(s, u, updated.name);
    }
    UpdateMirrorsAll(s, u, data);
  }

  lemma UpdateMirrorsAll(s: Snapshot, u: Uuid, data: UpdateData)
    requires Consistent(s) && u in s.tables
    requires data.name.Some? && data.name.value != s.tables[u].name ==> !Taken(s.tables, Name, data.name.value)
    ensures AllMirrored(AfterUpdate(s, u, data))
  {
    var row := s.tables[u];
    var updated := Patched(row, DataPatch(data));
    var t := AfterUpdate(s, u, data);
    if updated.name != row.name {
      RenamedSchema(s, u, updated.name);
    }
    forall v | v in t.tables
      ensures t.tables[v].name in t.schema && Mirrors(v, t.tables[v], t.schema[t.tables[v].name], t.columns)
    {
      if v != u {
        assert FieldValue(s.tables[v], Name) != FieldValue(row, Name);
        assert FieldValue(s.tables[v], Name) != updated.name;
        MirrorsCarry(s, t, v);
      } else {
        assert Mirrors(u, row, s.schema[row.name], s.columns);
      }
    }
  }

  /** Deleting a row that no column refers to, and dropping its table, keeps the invariant. */
  lemma DeleteKeepsConsistent(s: Snapshot, u: Uuid)
    requires Consistent(s) && u in s.tables
    requires forall c :: c in s.columns ==> s.columns[c].tableUuid != u
    ensures Consistent(AfterDelete(s, u))
  {
    var t := AfterDelete(s, u);
    CatalogNamesRemove(s.tables, u);
    assert UniqueField(t.tables, Name);
    assert UniqueField(t.tables, SingularName);
    assert KeyedByUuid(t.tables);
    assert ColumnsOwned(t) by {
      assert ColumnsOwned(s);
    }
    forall v | v in t.tables
      ensures t.tables[v].name in t.schema && Mirrors(v, t.tables[v], t.schema[t.tables[v].name], t.columns)
    {
      assert FieldValue(s.tables[v], Name) != FieldValue(s.tables[u], Name);
      MirrorsCarry(s, t, v);
    }
  }

  /** The row a unique key is written to mirrors its table afterwards. */
  lemma CreateUniqueKeyMirrorsOwn(s: Snapshot, u: Uuid, key: seq<Uuid>)
    requires Consistent(s)
    requires u in s.tables && s.tables[u].uniqueKey.None?
    requires |key| > 0 && Distinct(key) && forall i :: 0 <= i < |key| ==> Eligible(s.columns, u, key[i])
    ensures s.tables[u].name in s.schema && forall c :: c in key ==> c in s.columns
    ensures var t := AfterCreateUniqueKey(s, u, key);
      Mirrors(u, t.tables[u], t.schema[s.tables[u].name], t.columns)
  {
    var row := s.tables[u];
    var pt := s.schema[row.name];
    assert Mirrors(u, row, pt, s.columns);
    PositionsMakeKeyColumns(s.columns, u, key);
    var t := AfterCreateUniqueKey(s, u, key);
    ConstraintNamesDiffer(u, u);
    MirrorsWithKey(u, t.tables[u], t.schema[row.name], t.columns, key);
  }

  /** Giving a table's key columns their positions, where it had none, yields exactly KeyColumns. */
  lemma PositionsMakeKeyColumns(columns: map<Uuid, Column>, u: Uuid, key: seq<Uuid>)
    requires NoPositions(columns, u)
    requires |key| > 0 && Distinct(key) && forall i :: 0 <= i < |key| ==> Eligible(columns, u, key[i])
    ensures forall c :: c in key ==> c in columns
    ensures KeyColumns(WithPositions(columns, key), u, key)
    ensures ColumnNames(WithPositions(columns, key), key) == ColumnNames(columns, key)
  {
    EligibleOwned(columns, u, key);
    var after := WithPositions(columns, key);
    forall i | 0 <= i < |key| ensures after[key[i]].position == Some(i + 1) {
      IndexOfDistinct(key, i);
    }
    ColumnNamesFrame(columns, after, key);
  }

  /** The conditions under which a row holding the encoding of `key` mirrors `pt`. */
  lemma MirrorsWithKey(u: Uuid, row: Row, pt: PhysicalTable, columns: map<Uuid, Column>, key: seq<Uuid>)
    requires pt.sequence == IdSequence(row.name)
    requires pt.constraints.Keys <= {PrimaryKeyName(u), UniqueKeyName(u)}
    requires PrimaryKeyName(u) in pt.constraints && pt.constraints[PrimaryKeyName(u)] == PrimaryKey
    requires row.uniqueKey == Some(UniqueKeyCodec.Encode(key))
    requires KeyColumns(columns, u, key)
    requires UniqueKeyName(u) in pt.constraints && pt.constraints[UniqueKeyName(u)] == Unique(ColumnNames(columns, key))
    ensures Mirrors(u, row, pt, columns)
  {
    UniqueKeyCodec.DecodeEncode(key);
  }

  /** `c2` differs from `c1` at most on the columns of table `u`, and moves no column. */
  ghost predicate SameOutside(c1: map<Uuid, Column>, c2: map<Uuid, Column>, u: Uuid)
  {
    && c1.Keys == c2.Keys
    && (forall c :: c in c1 ==> c2[c].tableUuid == c1[c].tableUuid)
    && (forall c :: c in c1 && c1[c].tableUuid != u ==> c2[c] == c1[c])
  }

  lemma WithPositionsOutside(columns: map<Uuid, Column>, u: Uuid, key: seq<Uuid>)
    requires forall c :: c in key ==> c in columns && columns[c].tableUuid == u
    ensures SameOutside(columns, WithPositions(columns, key), u)
  {
  }

  lemma WithoutPositionsOutside(columns: map<Uuid, Column>, u: Uuid, key: seq<Uuid>)
    requires forall c :: c in key ==> c in columns && columns[c].tableUuid == u
    ensures SameOutside(columns, WithoutPositions(columns, key), u)
  {
  }

  /** The columns of an eligible key all belong to table `u`. */
  lemma EligibleOwned(columns: map<Uuid, Column>, u: Uuid, key: seq<Uuid>)
    requires forall i :: 0 <= i < |key| ==> Eligible(columns, u, key[i])
    ensures forall c :: c in key ==> c in columns && columns[c].tableUuid == u
  {
    forall c | c in key ensures c in columns && columns[c].tableUuid == u {
      var i :| 0 <= i < |key| && key[i] == c;
      assert Eligible(columns, u, key[i]);
    }
  }

  /**
   * Row `u` is replaced by one with the same uuid, name and singular name:
   * the catalog-level conjuncts of the invariant still hold.
   */
  lemma ReplaceKeepsCatalog(s: Snapshot, t: Snapshot, u: Uuid)
    requires Consistent(s) && u in s.tables
    requires u in t.tables && t.tables == s.tables[u := t.tables[u]]
    requires t.tables[u].uuid == u && t.tables[u].name == s.tables[u].name
    requires t.tables[u].singularName == s.tables[u].singularName
    requires t.schema.Keys == s.schema.Keys
    requires SameOutside(s.columns, t.columns, u)
    ensures KeyedByUuid(t.tables) && ColumnsOwned(t) && NoReservedNames(t.tables)
    ensures UniqueField(t.tables, Name) && UniqueField(t.tables, SingularName)
    ensures t.schema.Keys == CatalogNames(t.tables)
  {
    CatalogNamesReplace(s.tables, u, t.tables[u]);
    CatalogNamesMember(s.tables, u);
    UniqueFieldReplace(s.tables, u, t.tables[u], Name);
    UniqueFieldReplace(s.tables, u, t.tables[u], SingularName);
    assert ColumnsOwned(s);
  }

  /**
   * Only row `u`, its physical table and its own columns change: every other
   * row still mirrors its table.
   */
  lemma ReplaceKeepsOthers(s: Snapshot, t: Snapshot, u: Uuid)
    requires Consistent(s) && u in s.tables
    requires u in t.tables && t.tables == s.tables[u := t.tables[u]]
    requires t.schema.Keys == s.schema.Keys
    requires forall n :: n in s.schema && n != s.tables[u].name ==> t.schema[n] == s.schema[n]
    requires SameOutside(s.columns, t.columns, u)
    ensures forall v :: v in t.tables && v != u ==>
      t.tables[v].name in t.schema && Mirrors(v, t.tables[v], t.schema[t.tables[v].name], t.columns)
  {
    forall v | v in t.tables && v != u
      ensures t.tables[v].name in t.schema && Mirrors(v, t.tables[v], t.schema[t.tables[v].name], t.columns)
    {
      OtherMirrors(s, t, u, v);
    }
  }

  lemma OtherMirrors(s: Snapshot, t: Snapshot, u: Uuid, v: Uuid)
    requires Consistent(s) && u in s.tables && v in s.tables && v != u
    requires t.schema.Keys == s.schema.Keys
    requires forall n :: n in s.schema && n != s.tables[u].name ==> t.schema[n] == s.schema[n]
    requires SameOutside(s.columns, t.columns, u)
    ensures s.tables[v].name in t.schema && Mirrors(v, s.tables[v], t.schema[s.tables[v].name], t.columns)
  {
    var row := s.tables[v];
    assert FieldValue(row, Name) != FieldValue(s.tables[u], Name);
    assert Mirrors(v, row, s.schema[row.name], s.columns);
    MirrorsColumnsFrame(v, row, s.schema[row.name], s.columns, t.columns);
  }

  /** A key that passes createUniqueKey's checks, once written, keeps the invariant. */
  lemma CreateUniqueKeyKeepsConsistent(s: Snapshot, u: Uuid, key: seq<Uuid>)
    requires Consistent(s)
    requires CreateUniqueKeyRefusal(s, u, key).None?
    ensures u in s.tables && s.tables[u].name in s.schema && forall c :: c in key ==> c in s.columns
    ensures Consistent(AfterCreateUniqueKey(s, u, key))
  {
    RefusalNoneIff(s, u, key);
    KeylessBefore(s, u, key);
    CreateUniqueKeyMirrorsOwn(s, u, key);
    WithPositionsOutside(s.columns, u, key);
    ReplaceKeepsConsistent(s, AfterCreateUniqueKey(s, u, key), u);
  }

  /**
   * Row `u` is replaced by one with the same uuid, name and singular name,
   * only its physical table and its own columns change, and it mirrors its
   * table afterwards: the invariant still holds.
   */
  lemma ReplaceKeepsConsistent(s: Snapshot, t: Snapshot, u: Uuid)
    requires Consistent(s) && u in s.tables
    requires u in t.tables && t.tables == s.tables[u := t.tables[u]]
    requires t.tables[u].uuid == u && t.tables[u].name == s.tables[u].name
    requires t.tables[u].singularName == s.tables[u].singularName
    requires t.schema.Keys == s.schema.Keys
    requires forall n :: n in s.schema && n != s.tables[u].name ==> t.schema[n] == s.schema[n]
    requires SameOutside(s.columns, t.columns, u)
    requires s.tables[u].name in t.schema && Mirrors(u, t.tables[u], t.schema[s.tables[u].name], t.columns)
    ensures Consistent(t)
  {
    ReplaceKeepsCatalog(s, t, u);
    ReplaceKeepsOthers(s, t, u);
    assert AllMirrored(t);
  }

  /** Under the invariant, a stored unique key always reads back. */
  lemma StoredKeyDecodes(s: Snapshot, u: Uuid)
    requires Consistent(s) && u in s.tables && HasUniqueKey(s.tables[u])
    ensures UniqueKeyCodec.Decode(s.tables[u].uniqueKey.value).Some?
  {
    var row := s.tables[u];
    assert Mirrors(u, row, s.schema[row.name], s.columns);
  }

  /** The row whose unique key is removed mirrors its table afterwards. */
  lemma DeleteUniqueKeyMirrorsOwn(s: Snapshot, u: Uuid)
    requires Consistent(s) && u in s.tables && HasUniqueKey(s.tables[u])
    ensures s.tables[u].name in s.schema
    ensures UniqueKeyCodec.Decode(s.tables[u].uniqueKey.value).Some?
    ensures var t := AfterDeleteUniqueKey(s, u, UniqueKeyCodec.Decode(s.tables[u].uniqueKey.value).value);
      Mirrors(u, t.tables[u], t.schema[s.tables[u].name], t.columns)
  {
    var row := s.tables[u];
    assert Mirrors(u, row, s.schema[row.name], s.columns);
    var key := UniqueKeyCodec.Decode(row.uniqueKey.value).value;
    assert KeyColumns(s.columns, u, key);
    ConstraintNamesDiffer(u, u);
  }

  /** Removing the stored key of a table that has one keeps the invariant. */
  lemma DeleteUniqueKeyKeepsConsistent(s: Snapshot, u: Uuid)
    requires Consistent(s) && u in s.tables && HasUniqueKey(s.tables[u])
    ensures s.tables[u].name in s.schema
    ensures UniqueKeyCodec.Decode(s.tables[u].uniqueKey.value).Some?
    ensures Consistent(AfterDeleteUniqueKey(s, u, UniqueKeyCodec.Decode(s.tables[u].uniqueKey.value).value))
  {
    DeleteUniqueKeyMirrorsOwn(s, u);
    var row := s.tables[u];
    var key := UniqueKeyCodec.Decode(row.uniqueKey.value).value;
    assert KeyColumns(s.columns, u, key) by {
      assert Mirrors(u, row, s.schema[row.name], s.columns);
    }
    EligibleOwned(s.columns, u, key);
    WithoutPositionsOutside(s.columns, u, key);
    ReplaceKeepsConsistent(s, AfterDeleteUniqueKey(s, u, key), u);
  }

  // ---------------------------------------------------------------------
  // Round trips

  /**
   * NoKey -> HasKey -> NoKey: deleting a freshly created unique key gives back
   * exactly the state before it was created.
   */
  lemma UniqueKeyRoundTrip(s: Snapshot, u: Uuid, key: seq<Uuid>)
    requires Consistent(s)
    requires CreateUniqueKeyRefusal(s, u, key).None?
    ensures u in s.tables && s.tables[u].name in s.schema && forall c :: c in key ==> c in s.columns
    ensures var t := AfterCreateUniqueKey(s, u, key);
      && HasUniqueKey(t.tables[u])
      && UniqueKeyCodec.Decode(t.tables[u].uniqueKey.value) == Some(key)
      && AfterDeleteUniqueKey(t, u, key) == s
  {
    KeylessBefore(s, u, key);
    UniqueKeyCodec.DecodeEncode(key);
    RestoredAfterDelete(s, u, key);
  }

  /** What the invariant says about a table whose unique key passes createUniqueKey's checks. */
  lemma KeylessBefore(s: Snapshot, u: Uuid, key: seq<Uuid>)
    requires Consistent(s)
    requires CreateUniqueKeyRefusal(s, u, key).None?
    ensures u in s.tables && s.tables[u].name in s.schema && s.tables[u].uniqueKey.None?
    ensures UniqueKeyName(u) !in s.schema[s.tables[u].name].constraints
    ensures NoPositions(s.columns, u)
    ensures forall c :: c in key ==> c in s.columns && s.columns[c].tableUuid == u
  {
    RefusalNoneIff(s, u, key);
    EligibleOwned(s.columns, u, key);
    var row := s.tables[u];
    assert Mirrors(u, row, s.schema[row.name], s.columns);
    assert row.uniqueKey.None? by {
      assert UniqueKeyCodec.Decode("") == None;
    }
  }

  lemma RestoredAfterDelete(s: Snapshot, u: Uuid, key: seq<Uuid>)
    requires u in s.tables && s.tables[u].name in s.schema && s.tables[u].uniqueKey.None?
    requires UniqueKeyName(u) !in s.schema[s.tables[u].name].constraints
    requires NoPositions(s.columns, u)
    requires forall c :: c in key ==> c in s.columns && s.columns[c].tableUuid == u
    ensures AfterDeleteUniqueKey(AfterCreateUniqueKey(s, u, key), u, key) == s
  {
    var row := s.tables[u];
    var pt := s.schema[row.name];
    PositionsRoundTrip(s.columns, u, key);
    var back := AfterDeleteUniqueKey(AfterCreateUniqueKey(s, u, key), u, key);
    assert back.tables == s.tables by {
      assert back.tables[u] == row;
    }
    assert back.schema == s.schema by {
      assert back.schema[row.name].constraints == pt.constraints;
    }
  }

  /** Clearing the positions just given to a key's columns restores the columns. */
  lemma PositionsRoundTrip(columns: map<Uuid, Column>, u: Uuid, key: seq<Uuid>)
    requires NoPositions(columns, u)
    requires forall c :: c in key ==> c in columns && columns[c].tableUuid == u
    ensures WithoutPositions(WithPositions(columns, key), key) == columns
  {
    var back := WithoutPositions(WithPositions(columns, key), key);
    forall c | c in columns ensures back[c] == columns[c] {
    }
  }

  /** Creating a table and then deleting it gives back the state before. */
  lemma CreateDeleteRoundTrip(s: Snapshot, row: Row)
    requires Consistent(s)
    requires row.uuid !in s.tables && !Taken(s.tables, Name, row.name)
    ensures AfterDelete(AfterCreate(s, row), row.uuid) == s
  {
    assert row.name !in s.schema;
    var back := AfterDelete(AfterCreate(s, row), row.uuid);
    assert back.tables == s.tables;
    assert back.schema == s.schema;
  }
}
