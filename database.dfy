/**
 * The database the service reaches through its query capability: the
 * `_tables` and `_columns` catalogs, the physical schema, and the ordered log
 * of the statements that changed any of them.
 *
 * Every statement may be refused by the engine for a reason this model does
 * not see (a privilege, a lock, a constraint on data), which is why each
 * writing method chooses its outcome with `*`; a statement that would break a
 * constraint the model does see is always refused. A refused statement
 * changes nothing and is not logged.
 */
module Storage {
  import opened Wrappers
  import opened Model
  import opened Naming
  import opened Consistency

  class Database {
    var tables: map<Uuid, Row>
    var columns: map<Uuid, Column>
    var schema: map<string, PhysicalTable>
    var issued: seq<Statement>

    constructor (s: Snapshot)
      ensures Snap() == s && issued == []
    {
      tables, columns, schema := s.tables, s.columns, s.schema;
      issued := [];
    }

    function Snap(): Snapshot
      reads this
    {
      Snapshot(tables, columns, schema)
    }

    ghost predicate Valid()
      reads this
    {
      Consistent(Snap())
    }

    // -------------------------------------------------------------------
    // Reads (the row-CRUD probes and the column lookup)

    /** checkPrimaryKey: Conflict when a row with this uuid exists. */
    method CheckPrimaryKey(u: Uuid) returns (r: Outcome<Error>)
      ensures r.Fail? <==> u in tables
      ensures r.Fail? ==> r.error == PrimaryKeyTaken(u) && KindOf(r.error) == Conflict
    {
      if u in tables {
        r := Fail(PrimaryKeyTaken(u));
      } else {
        r := Pass;
      }
    }

    /** checkUniqueKey: Conflict when some row already holds `value` in field `f`. */
    method CheckUniqueKey(f: Field, value: string) returns (r: Outcome<Error>)
      ensures r.Fail? <==> exists v :: v in tables && FieldValue(tables[v], f) == value
      ensures r.Fail? ==> r.error == DuplicateValue(f, value) && KindOf(r.error) == Conflict
    {
      if Taken(tables, f, value) {
        r := Fail(DuplicateValue(f, value));
      } else {
        r := Pass;
      }
    }

    /** findByPrimaryKey: the row with this uuid, or NotFound. */
    method FindByPrimaryKey(u: Uuid) returns (r: Result<Row, Error>)
      ensures r.Success? <==> u in tables
      ensures r.Success? ==> r.value == tables[u]
      ensures r.Failure? ==> r.error == RowNotFound(u) && KindOf(r.error) == NotFound
    {
      if u in tables {
        r := Success(tables[u]);
      } else {
        r := Failure(RowNotFound(u));
      }
    }

    /** SELECT table_uuid, name, is_not_null FROM _columns WHERE uuid = c: at most one row. */
    method FindColumn(c: Uuid) returns (r: Option<Column>)
      ensures r.Some? <==> c in columns
      ensures r.Some? ==> r.value == columns[c]
    {
      if c in columns {
        r := Some(columns[c]);
      } else {
        r := None;
      }
    }

    // -------------------------------------------------------------------
    // Writes to the catalogs

    /** createRow on `_tables`; the primary key refuses a uuid already present. */
    method InsertRow(row: Row) returns (r: Outcome<Error>)
      modifies this
      ensures row.uuid in old(tables) ==> r.Fail?
      ensures r.Pass? ==> tables == old(tables)[row.uuid := row] && issued == old(issued) + [Statement.InsertRow(row)]
      ensures r.Fail? ==> tables == old(tables) && issued == old(issued) && r.error == StatementFailed(Statement.InsertRow(row))
      ensures columns == old(columns) && schema == old(schema)
    {
      var accepted: bool := *;
      if row.uuid in tables || !accepted {
        r := Fail(StatementFailed(Statement.InsertRow(row)));
      } else {
        tables := tables[row.uuid := row];
        issued := issued + [Statement.InsertRow(row)];
        r := Pass;
      }
    }

    /** updateRow on `_tables`: the row after the patch, or NotFound. */
    method UpdateRow(u: Uuid, patch: Patch) returns (r: Result<Row, Error>)
      modifies this
      ensures u !in old(tables) ==> r == Failure(RowNotFound(u))
      ensures r.Success? ==> (u in old(tables) && r.value == Patched(old(tables)[u], patch)
        && tables == old(tables)[u := r.value] && issued == old(issued) + [Statement.UpdateRow(u, patch)])
      ensures r.Failure? ==> (tables == old(tables) && issued == old(issued)
        && r.error == if u in old(tables) then StatementFailed(Statement.UpdateRow(u, patch)) else RowNotFound(u))
      ensures columns == old(columns) && schema == old(schema)
    {
      if u !in tables {
        return Failure(RowNotFound(u));
      }
      var accepted: bool := *;
      if !accepted {
        return Failure(StatementFailed(Statement.UpdateRow(u, patch)));
      }
      var updated := Patched(tables[u], patch);
      tables := tables[u := updated];
      issued := issued + [Statement.UpdateRow(u, patch)];
      r := Success(updated);
    }

    /**
     * deleteRow on `_tables`. `_columns.table_uuid` refers to `_tables`, so a
     * row that some column still belongs to cannot be deleted.
     */
    method DeleteRow(u: Uuid) returns (r: Outcome<Error>)
      modifies this
      ensures u !in old(tables) ==> r.Fail?
      ensures (exists c :: c in columns && columns[c].tableUuid == u) ==> r.Fail?
      ensures r.Pass? ==> tables == old(tables) - {u} && issued == old(issued) + [Statement.DeleteRow(u)]
      ensures r.Fail? ==> tables == old(tables) && issued == old(issued) && r.error == StatementFailed(Statement.DeleteRow(u))
      ensures columns == old(columns) && schema == old(schema)
    {
      var accepted: bool := *;
      if u !in tables || (exists c :: c in columns && columns[c].tableUuid == u) || !accepted {
        r := Fail(StatementFailed(Statement.DeleteRow(u)));
      } else {
        tables := tables - {u};
        issued := issued + [Statement.DeleteRow(u)];
        r := Pass;
      }
    }

    /** UPDATE _columns SET position_in_unique_key = n WHERE uuid = c (no row matches: no change). */
    method SetPosition(c: Uuid, n: nat) returns (r: Outcome<Error>)
      modifies this
      ensures r.Pass? ==> (issued == old(issued) + [Statement.SetPosition(c, n)]
        && columns == if c in old(columns) then old(columns)[c := old(columns)[c].(position := Some(n))] else old(columns))
      ensures r.Fail? ==> columns == old(columns) && issued == old(issued) && r.error == StatementFailed(Statement.SetPosition(c, n))
      ensures tables == old(tables) && schema == old(schema)
    {
      var accepted: bool := *;
      if !accepted {
        r := Fail(StatementFailed(Statement.SetPosition(c, n)));
      } else {
        if c in columns {
          columns := columns[c := columns[c].(position := Some(n))];
        }
        issued := issued + [Statement.SetPosition(c, n)];
        r := Pass;
      }
    }

    /** UPDATE _columns SET position_in_unique_key = null WHERE ... IN (cs). */
    method ClearPositions(cs: seq<Uuid>) returns (r: Outcome<Error>)
      modifies this
      ensures r.Pass? ==> columns == WithoutPositions(old(columns), cs) && issued == old(issued) + [Statement.ClearPositions(cs)]
      ensures r.Fail? ==> columns == old(columns) && issued == old(issued) && r.error == StatementFailed(Statement.ClearPositions(cs))
      ensures tables == old(tables) && schema == old(schema)
    {
      var accepted: bool := *;
      if !accepted {
        r := Fail(StatementFailed(Statement.ClearPositions(cs)));
      } else {
        columns := WithoutPositions(columns, cs);
        issued := issued + [Statement.ClearPositions(cs)];
        r := Pass;
      }
    }

    // -------------------------------------------------------------------
    // Statements on the physical schema

    /** CREATE TABLE table (id serial, ..., CONSTRAINT primaryKey PRIMARY KEY (id)). */
    method CreateTable(table: string, primaryKey: string) returns (r: Outcome<Error>)
      modifies this
      ensures table in old(schema) ==> r.Fail?
      ensures r.Pass? ==> (schema == old(schema)[table := PhysicalTable(IdSequence(table), map[primaryKey := PrimaryKey])]
        && issued == old(issued) + [Statement.CreateTable(table, primaryKey)])
      ensures r.Fail? ==> schema == old(schema) && issued == old(issued) && r.error == StatementFailed(Statement.CreateTable(table, primaryKey))
      ensures tables == old(tables) && columns == old(columns)
    {
      var accepted: bool := *;
      if table in schema || !accepted {
        r := Fail(StatementFailed(Statement.CreateTable(table, primaryKey)));
      } else {
        schema := schema[table := PhysicalTable(IdSequence(table), map[primaryKey := PrimaryKey])];
        issued := issued + [Statement.CreateTable(table, primaryKey)];
        r := Pass;
      }
    }

    /** ALTER TABLE from RENAME TO to. */
    method RenameTable(from: string, to: string) returns (r: Outcome<Error>)
      modifies this
      ensures from !in old(schema) || to in old(schema) ==> r.Fail?
      ensures r.Pass? ==> (from in old(schema) && schema == RenameRelation(old(schema), from, to)
        && issued == old(issued) + [Statement.RenameTable(from, to)])
      ensures r.Fail? ==> schema == old(schema) && issued == old(issued) && r.error == StatementFailed(Statement.RenameTable(from, to))
      ensures tables == old(tables) && columns == old(columns)
    {
      var accepted: bool := *;
      if from !in schema || to in schema || !accepted {
        r := Fail(StatementFailed(Statement.RenameTable(from, to)));
      } else {
        schema := RenameRelation(schema, from, to);
        issued := issued + [Statement.RenameTable(from, to)];
        r := Pass;
      }
    }

    /** ALTER SEQUENCE from RENAME TO to. */
    method RenameSequence(from: string, to: string) returns (r: Outcome<Error>)
      modifies this
      ensures !SequenceExists(old(schema), from) || SequenceExists(old(schema), to) ==> r.Fail?
      ensures r.Pass? ==> schema == RenameSequenceIn(old(schema), from, to) && issued == old(issued) + [Statement.RenameSequence(from, to)]
      ensures r.Fail? ==> schema == old(schema) && issued == old(issued) && r.error == StatementFailed(Statement.RenameSequence(from, to))
      ensures tables == old(tables) && columns == old(columns)
    {
      var accepted: bool := *;
      if !SequenceExists(schema, from) || SequenceExists(schema, to) || !accepted {
        r := Fail(StatementFailed(Statement.RenameSequence(from, to)));
      } else {
        schema := RenameSequenceIn(schema, from, to);
        issued := issued + [Statement.RenameSequence(from, to)];
        r := Pass;
      }
    }

    /** DROP TABLE table (its `id` sequence goes with it). */
    method DropTable(table: string) returns (r: Outcome<Error>)
      modifies this
      ensures table !in old(schema) ==> r.Fail?
      ensures r.Pass? ==> schema == old(schema) - {table} && issued == old(issued) + [Statement.DropTable(table)]
      ensures r.Fail? ==> schema == old(schema) && issued == old(issued) && r.error == StatementFailed(Statement.DropTable(table))
      ensures tables == old(tables) && columns == old(columns)
    {
      var accepted: bool := *;
      if table !in schema || !accepted {
        r := Fail(StatementFailed(Statement.DropTable(table)));
      } else {
        schema := schema - {table};
        issued := issued + [Statement.DropTable(table)];
        r := Pass;
      }
    }

    /** ALTER TABLE table ADD CONSTRAINT constraint UNIQUE (names). */
    method AddUniqueConstraint(table: string, constraint: string, names: seq<string>) returns (r: Outcome<Error>)
      modifies this
      ensures table !in old(schema) || constraint in old(schema)[table].constraints ==> r.Fail?
      ensures r.Pass? ==> (table in old(schema)
        && schema == old(schema)[table := old(schema)[table].(constraints := old(schema)[table].constraints[constraint := Unique(names)])]
        && issued == old(issued) + [Statement.AddUnique(table, constraint, names)])
      ensures r.Fail? ==> (schema == old(schema) && issued == old(issued)
        && r.error == StatementFailed(Statement.AddUnique(table, constraint, names)))
      ensures tables == old(tables) && columns == old(columns)
    {
      var accepted: bool := *;
      if table !in schema || constraint in schema[table].constraints || !accepted {
        r := Fail(StatementFailed(Statement.AddUnique(table, constraint, names)));
      } else {
        var pt := schema[table];
        schema := schema[table := pt.(constraints := pt.constraints[constraint := Unique(names)])];
        issued := issued + [Statement.AddUnique(table, constraint, names)];
        r := Pass;
      }
    }

    /** ALTER TABLE table DROP CONSTRAINT constraint. */
    method DropConstraint(table: string, constraint: string) returns (r: Outcome<Error>)
      modifies this
      ensures table !in old(schema) || constraint !in old(schema)[table].constraints ==> r.Fail?
      ensures r.Pass? ==> (table in old(schema)
        && schema == old(schema)[table := old(schema)[table].(constraints := old(schema)[table].constraints - {constraint})]
        && issued == old(issued) + [Statement.DropConstraint(table, constraint)])
      ensures r.Fail? ==> (schema == old(schema) && issued == old(issued)
        && r.error == StatementFailed(Statement.DropConstraint(table, constraint)))
      ensures tables == old(tables) && columns == old(columns)
    {
      var accepted: bool := *;
      if table !in schema || constraint !in schema[table].constraints || !accepted {
        r := Fail(StatementFailed(Statement.DropConstraint(table, constraint)));
      } else {
        var pt := schema[table];
        schema := schema[table := pt.(constraints := pt.constraints - {constraint})];
        issued := issued + [Statement.DropConstraint(table, constraint)];
        r := Pass;
      }
    }
  }
}
