/**
 * The SQLite helpers of db2.py, modelled as an abstract store: a map from
 * table name to a table holding its declared schema and its rows in insertion
 * order. A connection is an open database or `None`; every helper catches
 * only SQLite errors, so a `None` connection makes it raise, while a missing
 * table is reported and otherwise ignored.
 */
module Store {
  import opened Wrappers

  /** A stored value: the AUTOINCREMENT id or a text column. */
  datatype Value = IntVal(i: int) | TextVal(s: string)

  type Row = seq<Value>

  /** A table's declared shape: whether it has an AUTOINCREMENT `id`, and its other columns in order. */
  datatype Schema = Schema(name: string, autoId: bool, columns: seq<string>)

  datatype Table = Table(schema: Schema, rows: seq<Row>)

  datatype Db = Db(tables: map<string, Table>)

  /** `sqlite3.connect(...)` or `None` when connecting failed. */
  type Connection = Option<Db>

  /** What a helper call leaves behind: the exception it raises, or its result. */
  datatype Outcome<T> = Raised | Done(value: T)

  const StatesSchema: Schema := Schema("States", true, ["state_name", "state_code"])
  const DistrictsSchema: Schema := Schema("Districts", false, ["state_code", "district_name", "district_code"])
  const HtmlSchema: Schema := Schema("COURTS_HTML", true,
    ["date_scraped", "state_code", "district_code", "court_code", "establishment_code",
     "act_code", "case_status", "html_content"])
  const CnrSchema: Schema := Schema("CNR", true,
    ["date_processed", "date_scraped", "state_code", "district_code", "court_code", "est_code",
     "act_code", "section_number", "case_status", "case_type_number_year",
     "petitioner_responder", "cnr_number"])
  const CourtsSchema: Schema := Schema("Courts", true,
    ["date_scraped", "state_code", "district_code", "court_code", "court_name",
     "establishment_code", "establishment_name"])
  const ActsSchema: Schema := Schema("Acts", true,
    ["date_scraped", "state_code", "district_code", "court_code", "establishment_code",
     "act_code", "act_name"])

  /** The number of values in a row of the table: the columns, plus the id when there is one. */
  function Width(schema: Schema): nat
  {
    |schema.columns| + if schema.autoId then 1 else 0
  }

  function TextValues(vs: seq<string>): (r: Row)
    ensures |r| == |vs|
  {
    seq(|vs|, i requires 0 <= i < |vs| => TextVal(vs[i]))
  }

  /** The row stored by the `k`-th insert into a table (counting from 0). */
  function StoredRow(schema: Schema, k: nat, vs: seq<string>): Row
  {
    (if schema.autoId then [IntVal(k + 1)] else []) + TextValues(vs)
  }

  /** The text values of a stored row, without its id. */
  function Fields(schema: Schema, row: Row): seq<Value>
  {
    if schema.autoId && row != [] then row[1..] else row
  }

  /**
   * Well-formed tables: each is filed under its own name, each row has one
   * value per column, and an AUTOINCREMENT table numbers its rows 1, 2, ...
   */
  predicate RowWf(schema: Schema, k: nat, row: Row)
  {
    && |row| == Width(schema)
    && (schema.autoId ==> row[0] == IntVal(k + 1))
    && forall v :: v in Fields(schema, row) ==> v.TextVal?
  }

  predicate TableWf(t: Table)
  {
    forall k :: 0 <= k < |t.rows| ==> RowWf(t.schema, k, t.rows[k])
  }

  /** The tables the scraper creates, each with the columns its `create_*` helper declares. */
  const Schemas: seq<Schema> := [StatesSchema, DistrictsSchema, HtmlSchema, CnrSchema, CourtsSchema, ActsSchema]

  /**
   * A well-formed store: every table is filed under its own name and well
   * formed, and a table with the name of one of the scraper's tables has that
   * table's columns.
   */
  predicate Wf(db: Db)
  {
    && (forall n :: n in db.tables ==> db.tables[n].schema.name == n && TableWf(db.tables[n]))
    && (forall s :: s in Schemas && s.name in db.tables ==> db.tables[s.name].schema == s)
  }

  /** A row of `width` values whose first is the id and whose others are text. */
  predicate TextRow(row: Row, width: nat)
  {
    |row| == width && forall j :: 1 <= j < width ==> row[j].TextVal?
  }

  /** The rows of one of the scraper's tables with an id, none when the table is missing. */
  function TableRows(db: Db, schema: Schema): (rows: seq<Row>)
    requires Wf(db) && schema in Schemas && schema.autoId
    ensures forall i :: 0 <= i < |rows| ==> TextRow(rows[i], Width(schema))
    ensures schema.name in db.tables ==> rows == db.tables[schema.name].rows
    ensures schema.name !in db.tables ==> rows == []
  {
    if schema.name in db.tables then
      var t := db.tables[schema.name];
      assert forall i :: 0 <= i < |t.rows| ==> TextRow(t.rows[i], Width(schema)) by {
        forall i | 0 <= i < |t.rows| ensures TextRow(t.rows[i], Width(schema)) {
          assert RowWf(t.schema, i, t.rows[i]);
          forall j | 1 <= j < Width(schema) ensures t.rows[i][j].TextVal? {
            assert t.rows[i][j] in Fields(t.schema, t.rows[i]);
          }
        }
      }
      t.rows
    else []
  }

  // ---------------------------------------------------------------------------
  // The helpers.
  // ---------------------------------------------------------------------------

  /** `CREATE TABLE IF NOT EXISTS`: adds an empty table only when none has the name. */
  function CreateTable(conn: Connection, schema: Schema): (r: Outcome<Connection>)
    ensures conn.None? <==> r.Raised?
  {
    match conn
    case None => Raised
    case Some(db) =>
      if schema.name in db.tables then Done(conn)
      else Done(Some(Db(db.tables[schema.name := Table(schema, [])])))
  }

  /** `DROP TABLE IF EXISTS`. */
  function DropTable(conn: Connection, name: string): (r: Outcome<Connection>)
    ensures conn.None? <==> r.Raised?
  {
    match conn
    case None => Raised
    case Some(db) => Done(Some(Db(db.tables - {name})))
  }

  /**
   * A parameterised `INSERT` naming `columns`: appends one row when the table
   * exists with exactly those columns. Any SQLite error (no such table, a
   * named column it lacks) is printed and the store is left as it was. Only
   * tables whose columns are exactly the named ones are covered: SQLite would
   * also accept a table with further nullable or defaulted columns, which this
   * model treats like a failed insert.
   */
  function Insert(conn: Connection, name: string, columns: seq<string>, vs: seq<string>): (r: Outcome<Connection>)
    ensures conn.None? <==> r.Raised?
  {
    match conn
    case None => Raised
    case Some(db) =>
      if name in db.tables && db.tables[name].schema.columns == columns && |vs| == |columns| then
        var t := db.tables[name];
        Done(Some(Db(db.tables[name := Table(t.schema, t.rows + [StoredRow(t.schema, |t.rows|, vs)])])))
      else Done(conn)
  }

  /** `SELECT * FROM name`: every row in insertion order, or `None` when the query fails. */
  function FetchAll(conn: Connection, name: string): (r: Outcome<Option<seq<Row>>>)
    ensures conn.None? <==> r.Raised?
  {
    match conn
    case None => Raised
    case Some(db) => if name in db.tables then Done(Some(db.tables[name].rows)) else Done(None)
  }

  function CreateStatesTable(conn: Connection): Outcome<Connection> { CreateTable(conn, StatesSchema) }
  function CreateDistrictTable(conn: Connection): Outcome<Connection> { CreateTable(conn, DistrictsSchema) }
  function CreateHtmlTable(conn: Connection): Outcome<Connection> { CreateTable(conn, HtmlSchema) }
  function CreateCnrTable(conn: Connection): Outcome<Connection> { CreateTable(conn, CnrSchema) }
  function CreateCourtTable(conn: Connection): Outcome<Connection> { CreateTable(conn, CourtsSchema) }
  function CreateActTable(conn: Connection): Outcome<Connection> { CreateTable(conn, ActsSchema) }

  /** `save_html_to_db`. */
  function SaveHtml(conn: Connection, date: string, state: string, district: string, court: string,
                    est: string, act: string, status: string, html: string): Outcome<Connection>
  {
    Insert(conn, HtmlSchema.name, HtmlSchema.columns, [date, state, district, court, est, act, status, html])
  }

  /** `save_codes_to_db`. */
  function SaveCodes(conn: Connection, date: string, state: string, district: string, court: string,
                     courtName: string, est: string, estName: string): Outcome<Connection>
  {
    Insert(conn, CourtsSchema.name, CourtsSchema.columns, [date, state, district, court, courtName, est, estName])
  }

  /** `save_acts_to_db`. */
  function SaveActs(conn: Connection, date: string, state: string, district: string, court: string,
                    est: string, act: string, actName: string): Outcome<Connection>
  {
    Insert(conn, ActsSchema.name, ActsSchema.columns, [date, state, district, court, est, act, actName])
  }

  function FetchDistrictRows(conn: Connection): Outcome<Option<seq<Row>>> { FetchAll(conn, DistrictsSchema.name) }
  function FetchCourtRows(conn: Connection): Outcome<Option<seq<Row>>> { FetchAll(conn, CourtsSchema.name) }
  function FetchActsRows(conn: Connection): Outcome<Option<seq<Row>>> { FetchAll(conn, ActsSchema.name) }
  function FetchCourtPages(conn: Connection): Outcome<Option<seq<Row>>> { FetchAll(conn, HtmlSchema.name) }

  /** One insert per value list, in order, stopping at the first raise. */
  function InsertAll(conn: Connection, name: string, columns: seq<string>, rows: seq<seq<string>>): Outcome<Connection>
    decreases |rows|
  {
    if rows == [] then Done(conn)
    else match Insert(conn, name, columns, rows[0])
      case Raised => Raised
      case Done(c) => InsertAll(c, name, columns, rows[1..])
  }

  // ---------------------------------------------------------------------------
  // Properties.
  // ---------------------------------------------------------------------------

  /** Inserts into an open store never raise and leave it open. */
  lemma {:induction false} InsertAllSome(conn: Connection, name: string, columns: seq<string>, rows: seq<seq<string>>)
    requires conn.Some?
    ensures InsertAll(conn, name, columns, rows).Done? && InsertAll(conn, name, columns, rows).value.Some?
    decreases |rows|
  {
    if rows != [] {
      InsertAllSome(Insert(conn, name, columns, rows[0]).value, name, columns, rows[1..]);
    }
  }

  /**
   * An insert into an existing table with the named columns appends exactly one
   * row, holding the given values in column order behind the next id; no other
   * table and no earlier row changes.
   */
  lemma InsertAppendsOneRow(db: Db, name: string, vs: seq<string>)
    requires name in db.tables && |vs| == |db.tables[name].schema.columns|
    ensures Insert(Some(db), name, db.tables[name].schema.columns, vs).Done?
    ensures Insert(Some(db), name, db.tables[name].schema.columns, vs).value.Some?
    ensures var db' := Insert(Some(db), name, db.tables[name].schema.columns, vs).value.value;
      && db'.tables.Keys == db.tables.Keys
      && db'.tables[name].schema == db.tables[name].schema
      && |db'.tables[name].rows| == |db.tables[name].rows| + 1
      && db'.tables[name].rows[..|db.tables[name].rows|] == db.tables[name].rows
      && Fields(db.tables[name].schema, db'.tables[name].rows[|db.tables[name].rows|]) == TextValues(vs)
      && (forall n :: n in db.tables && n != name ==> db'.tables[n] == db.tables[n])
  {
    var t := db.tables[name];
    var row := StoredRow(t.schema, |t.rows|, vs);
    assert (t.rows + [row])[..|t.rows|] == t.rows;
    if t.schema.autoId {
      assert row[1..] == TextValues(vs);
    }
  }

  /** Storage errors are swallowed: an insert into a missing table changes nothing and raises nothing. */
  lemma InsertIntoMissingTable(db: Db, name: string, columns: seq<string>, vs: seq<string>)
    requires name !in db.tables
    ensures Insert(Some(db), name, columns, vs) == Done(Some(db))
  {
  }

  /** Every insert keeps the store well formed. */
  lemma InsertKeepsWf(db: Db, name: string, columns: seq<string>, vs: seq<string>)
    requires Wf(db)
    ensures Insert(Some(db), name, columns, vs).value.Some?
    ensures Wf(Insert(Some(db), name, columns, vs).value.value)
  {
    if name in db.tables && db.tables[name].schema.columns == columns && |vs| == |columns| {
      var t := db.tables[name];
      var row := StoredRow(t.schema, |t.rows|, vs);
      var t' := Table(t.schema, t.rows + [row]);
      assert TableWf(t') by {
        forall k | 0 <= k < |t'.rows| ensures RowWf(t'.schema, k, t'.rows[k]) {
          if k < |t.rows| {
            assert t'.rows[k] == t.rows[k];
          } else {
            assert Fields(t.schema, row) == TextValues(vs);
          }
        }
      }
    }
  }

  /** Creating a table keeps the store well formed, and creating it a second time changes nothing. */
  lemma CreateTableIdempotent(db: Db, schema: Schema)
    requires Wf(db) && schema in Schemas
    ensures CreateTable(Some(db), schema).value.Some?
    ensures Wf(CreateTable(Some(db), schema).value.value)
    ensures CreateTable(CreateTable(Some(db), schema).value, schema) == CreateTable(Some(db), schema)
  {
  }

  /** `IF NOT EXISTS`: creating a table that exists leaves its rows, and every other table, as they were. */
  lemma CreateKeepsRows(db: Db, schema: Schema)
    ensures CreateTable(Some(db), schema).value.value.tables.Keys == db.tables.Keys + {schema.name}
    ensures forall n :: n in db.tables ==> CreateTable(Some(db), schema).value.value.tables[n] == db.tables[n]
    ensures schema.name !in db.tables ==>
      CreateTable(Some(db), schema).value.value.tables[schema.name] == Table(schema, [])
  {
  }

  /** Dropping removes the table whether or not it existed; dropping twice is dropping once. */
  lemma DropTableIdempotent(db: Db, name: string)
    requires Wf(db)
    ensures DropTable(Some(db), name).value.Some?
    ensures name !in DropTable(Some(db), name).value.value.tables
    ensures Wf(DropTable(Some(db), name).value.value)
    ensures DropTable(DropTable(Some(db), name).value, name) == DropTable(Some(db), name)
    ensures name !in db.tables ==> DropTable(Some(db), name) == Done(Some(db))
    ensures forall n :: n in db.tables && n != name ==> DropTable(Some(db), name).value.value.tables[n] == db.tables[n]
  {
    assert db.tables - {name} - {name} == db.tables - {name};
    if name !in db.tables {
      assert db.tables - {name} == db.tables;
    }
  }

  /** A fetch after an insert sees the earlier rows followed by the new one. */
  lemma FetchAfterInsert(db: Db, name: string, vs: seq<string>)
    requires name in db.tables && |vs| == |db.tables[name].schema.columns|
    ensures var t := db.tables[name];
      FetchAll(Insert(Some(db), name, t.schema.columns, vs).value, name)
        == Done(Some(t.rows + [StoredRow(t.schema, |t.rows|, vs)]))
  {
  }

  /** Inserting `a` and then `b` is inserting `a + b`. */
  lemma {:induction false} InsertAllAppend(conn: Connection, name: string, columns: seq<string>,
                                           a: seq<seq<string>>, b: seq<seq<string>>)
    ensures InsertAll(conn, name, columns, a + b)
      == match InsertAll(conn, name, columns, a)
         case Raised => Raised
         case Done(c) => InsertAll(c, name, columns, b)
    decreases |a|
  {
    if a != [] {
      assert (a + b)[1..] == a[1..] + b;
      match Insert(conn, name, columns, a[0])
      case Raised =>
      case Done(c) => InsertAllAppend(c, name, columns, a[1..], b);
    } else {
      assert a + b == b;
    }
  }

  /** The rows stored by a run of inserts into a table that already holds `start` rows. */
  function StoredRows(schema: Schema, start: nat, rows: seq<seq<string>>): (r: seq<Row>)
    ensures |r| == |rows|
    decreases |rows|
  {
    if rows == [] then [] else [StoredRow(schema, start, rows[0])] + StoredRows(schema, start + 1, rows[1..])
  }

  /** The `i`-th insert of the run stores its values under the id `start + i + 1`. */
  lemma {:induction false} StoredRowsSpec(schema: Schema, start: nat, rows: seq<seq<string>>)
    ensures forall i :: 0 <= i < |rows| ==> StoredRows(schema, start, rows)[i] == StoredRow(schema, start + i, rows[i])
    decreases |rows|
  {
    if rows != [] {
      StoredRowsSpec(schema, start + 1, rows[1..]);
      forall i | 1 <= i < |rows|
        ensures StoredRows(schema, start, rows)[i] == StoredRow(schema, start + i, rows[i])
      {
        assert rows[1..][i - 1] == rows[i];
      }
    }
  }

  /**
   * `fetch_*` returns every row in insertion order: after a run of inserts into
   * one table, its rows are the earlier rows followed by one stored row per
   * insert, in the order of the inserts; no other table changes.
   */
  lemma {:induction false} FetchAfterInsertAll(db: Db, name: string, rows: seq<seq<string>>)
    requires name in db.tables
    requires forall i :: 0 <= i < |rows| ==> |rows[i]| == |db.tables[name].schema.columns|
    ensures var t := db.tables[name];
      && InsertAll(Some(db), name, t.schema.columns, rows).Done?
      && InsertAll(Some(db), name, t.schema.columns, rows).value.Some?
      && var db' := InsertAll(Some(db), name, t.schema.columns, rows).value.value;
      && db'.tables.Keys == db.tables.Keys
      && db'.tables[name] == Table(t.schema, t.rows + StoredRows(t.schema, |t.rows|, rows))
      && (forall n :: n in db.tables && n != name ==> db'.tables[n] == db.tables[n])
    decreases |rows|
  {
    var t := db.tables[name];
    if rows != [] {
      InsertAppendsOneRow(db, name, rows[0]);
      var db1 := Insert(Some(db), name, t.schema.columns, rows[0]).value.value;
      var t1 := db1.tables[name];
      assert t1.rows == t.rows + [StoredRow(t.schema, |t.rows|, rows[0])];
      FetchAfterInsertAll(db1, name, rows[1..]);
      var first := StoredRow(t.schema, |t.rows|, rows[0]);
      var later := StoredRows(t.schema, |t.rows| + 1, rows[1..]);
      assert StoredRows(t.schema, |t.rows|, rows) == [first] + later;
      assert (t.rows + [first]) + later == t.rows + ([first] + later);
    } else {
      assert t.rows + [] == t.rows;
    }
  }

  /** With no connection every helper raises instead of reporting an error. */
  lemma NoConnectionRaises(schema: Schema, name: string, columns: seq<string>, vs: seq<string>)
    ensures CreateTable(None, schema) == Raised
    ensures DropTable(None, name) == Raised
    ensures Insert(None, name, columns, vs) == Raised
    ensures FetchAll(None, name) == Raised
  {
  }

  /** An insert into a table with an id stores the next id followed by the given values. */
  lemma InsertWithId(db: Db, schema: Schema, vs: seq<string>)
    requires schema.name in db.tables && db.tables[schema.name].schema == schema
    requires schema.autoId && |vs| == |schema.columns|
    ensures var t := db.tables[schema.name];
      Insert(Some(db), schema.name, schema.columns, vs).value.value.tables[schema.name].rows
        == t.rows + [[IntVal(|t.rows| + 1)] + TextValues(vs)]
  {
  }

  /** `save_html_to_db` stores its eight values behind the id in declared column order. */
  lemma SaveHtmlColumnOrder(db: Db, date: string, state: string, district: string, court: string,
                            est: string, act: string, status: string, html: string)
    requires HtmlSchema.name in db.tables && db.tables[HtmlSchema.name].schema == HtmlSchema
    ensures var t := db.tables[HtmlSchema.name];
      SaveHtml(Some(db), date, state, district, court, est, act, status, html).value.value.tables[HtmlSchema.name].rows
        == t.rows + [[IntVal(|t.rows| + 1), TextVal(date), TextVal(state), TextVal(district), TextVal(court),
                      TextVal(est), TextVal(act), TextVal(status), TextVal(html)]]
  {
    var vs := [date, state, district, court, est, act, status, html];
    InsertWithId(db, HtmlSchema, vs);
    var n := |db.tables[HtmlSchema.name].rows| + 1;
    assert [IntVal(n)] + TextValues(vs) == [IntVal(n), TextVal(date), TextVal(state), TextVal(district), TextVal(court),
                                            TextVal(est), TextVal(act), TextVal(status), TextVal(html)];
  }

  /** `save_codes_to_db` stores its seven values behind the id in declared column order. */
  lemma SaveCodesColumnOrder(db: Db, date: string, state: string, district: string, court: string,
                             courtName: string, est: string, estName: string)
    requires CourtsSchema.name in db.tables && db.tables[CourtsSchema.name].schema == CourtsSchema
    ensures var t := db.tables[CourtsSchema.name];
      SaveCodes(Some(db), date, state, district, court, courtName, est, estName).value.value.tables[CourtsSchema.name].rows
        == t.rows + [[IntVal(|t.rows| + 1), TextVal(date), TextVal(state), TextVal(district), TextVal(court),
                      TextVal(courtName), TextVal(est), TextVal(estName)]]
  {
    var vs := [date, state, district, court, courtName, est, estName];
    InsertWithId(db, CourtsSchema, vs);
    var n := |db.tables[CourtsSchema.name].rows| + 1;
    assert [IntVal(n)] + TextValues(vs) == [IntVal(n), TextVal(date), TextVal(state), TextVal(district), TextVal(court),
                                            TextVal(courtName), TextVal(est), TextVal(estName)];
  }

  /** `save_acts_to_db` stores its seven values behind the id in declared column order. */
  lemma SaveActsColumnOrder(db: Db, date: string, state: string, district: string, court: string,
                            est: string, act: string, actName: string)
    requires ActsSchema.name in db.tables && db.tables[ActsSchema.name].schema == ActsSchema
    ensures var t := db.tables[ActsSchema.name];
      SaveActs(Some(db), date, state, district, court, est, act, actName).value.value.tables[ActsSchema.name].rows
        == t.rows + [[IntVal(|t.rows| + 1), TextVal(date), TextVal(state), TextVal(district), TextVal(court),
                      TextVal(est), TextVal(act), TextVal(actName)]]
  {
    var vs := [date, state, district, court, est, act, actName];
    InsertWithId(db, ActsSchema, vs);
    var n := |db.tables[ActsSchema.name].rows| + 1;
    assert [IntVal(n)] + TextValues(vs) == [IntVal(n), TextVal(date), TextVal(state), TextVal(district), TextVal(court),
                                            TextVal(est), TextVal(act), TextVal(actName)];
  }
}
