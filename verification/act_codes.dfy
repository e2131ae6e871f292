/**
 * The act-code fetch (`get_act_codes.py`): the `Acts` table is dropped and
 * re-created, and for every `Courts` row, in table order, the act list of that
 * court is requested and every IPC-related act with a code is saved. The
 * server is a parameter: a function from request to reply.
 */
module ActCodes {
  import opened Wrappers
  import opened Seqs
  import opened Text
  import opened IpcRegex
  import opened Store
  import Courts

  /**
   * The varying fields of a `fillActType` request; the others are always
   * `search_act = ""`, `ajax_req = "true"` and `app_token = ""`.
   */
  datatype ActRequest = ActRequest(state: string, district: string, court: string, est: string)

  /** An `<option>` of the returned act list: its `value` attribute, if it has one, and its text. */
  datatype ActOption = ActOption(value: Option<string>, text: string)

  /** A reply: the status code and the options of its `act_list` HTML (none when the key is missing). */
  datatype ActListResponse = ActListResponse(status: int, options: seq<ActOption>)

  /** The server, as far as this model sees it. */
  type ActServer = ActRequest -> ActListResponse

  /**
   * What `datetime.date.today()` gives while the `n`-th `Courts` row is
   * handled: every request reads the clock afresh, so a run that crosses
   * midnight stores more than one date.
   */
  type Clock = nat -> string

  /** An option is saved when it has a non-empty code and its stripped text is an IPC act. */
  predicate Keep(o: ActOption)
  {
    o.value.Some? && o.value.value != "" && PyStrip(o.text) != "" && IpcMatch(PyStrip(o.text))
  }

  /** The values handed to `save_acts_to_db` for a kept option, in its parameter order. */
  function ActRow(date: string, req: ActRequest, o: ActOption): seq<string>
  {
    [date, req.state, req.district, req.court, req.est, (match o.value case Some(c) => c case None => ""), PyStrip(o.text)]
  }

  function KeptRows(date: string, req: ActRequest, opts: seq<ActOption>): seq<seq<string>>
  {
    if opts == [] then []
    else (if Keep(opts[0]) then [ActRow(date, req, opts[0])] else []) + KeptRows(date, req, opts[1..])
  }

  /** `get_act_codes`: the rows one request saves, in option order; none unless the status is 200. */
  function ActRows(date: string, req: ActRequest, resp: ActListResponse): seq<seq<string>>
  {
    if resp.status == 200 then KeptRows(date, req, resp.options) else []
  }

  /** The establishment code sent for a `Courts` row: the `E003` sentinel becomes the empty code. */
  function NormaliseEst(est: string): (r: string)
    ensures r != Courts.E003
    ensures r == "" <==> est == Courts.E003 || est == ""
    ensures est != Courts.E003 ==> r == est
  {
    if est == Courts.E003 then "" else est
  }

  /** A `Courts` row as stored: the id and seven text columns. */
  predicate CourtsRow(row: Row)
  {
    TextRow(row, Width(CourtsSchema))
  }

  /** The request made for a `Courts` row: its state, district, court code up to any `@`, and establishment. */
  function RequestFor(row: Row): (r: ActRequest)
    requires CourtsRow(row)
    ensures r.state == row[2].s && r.district == row[3].s
    ensures '@' !in r.court && r.court <= row[4].s
    ensures |r.court| < |row[4].s| ==> row[4].s[|r.court|] == '@'
    ensures '@' !in row[4].s ==> r.court == row[4].s
    ensures r.est != Courts.E003
    ensures row[6].s == Courts.E003 ==> r.est == ""
    ensures row[6].s != Courts.E003 ==> r.est == row[6].s
  {
    ActRequest(row[2].s, row[3].s, BeforeFirst(row[4].s, '@'), NormaliseEst(row[6].s))
  }

  /**
   * One request per `Courts` row, each followed by the inserts of what it
   * saves; `rows[0]` is row `n` of the table and is saved with the date
   * `today(n)`.
   */
  function RunRequests(conn: Connection, today: Clock, n: nat, rows: seq<Row>, server: ActServer)
    : (Outcome<Connection>, seq<ActRequest>)
    requires forall i :: 0 <= i < |rows| ==> CourtsRow(rows[i])
    decreases |rows|
  {
    if rows == [] then (Done(conn), [])
    else
      var req := RequestFor(rows[0]);
      match InsertAll(conn, ActsSchema.name, ActsSchema.columns, ActRows(today(n), req, server(req)))
      case Raised => (Raised, [req])
      case Done(c) =>
        var (o, reqs) := RunRequests(c, today, n + 1, rows[1..], server);
        (o, [req] + reqs)
  }

  /** The rows of a well-formed store's `Courts` table, none when it has no such table. */
  function CourtRowsOf(db: Db): (rows: seq<Row>)
    requires Wf(db)
    ensures forall i :: 0 <= i < |rows| ==> CourtsRow(rows[i])
    ensures CourtsSchema.name in db.tables ==> rows == db.tables[CourtsSchema.name].rows
    ensures CourtsSchema.name !in db.tables ==> rows == []
  {
    TableRows(db, CourtsSchema)
  }

  /** The store after `drop_table(Acts)` and `create_act_table`: `Acts` present and empty, the rest as before. */
  function ResetActs(db: Db): (r: Db)
    requires Wf(db)
    ensures Wf(r)
  {
    DropTableIdempotent(db, ActsSchema.name);
    var db1 := DropTable(Some(db), ActsSchema.name).value.value;
    CreateTableIdempotent(db1, ActsSchema);
    CreateActTable(Some(db1)).value.value
  }

  /**
   * `main`: drop and re-create `Acts`, fetch the `Courts` rows and, when there
   * are any, make one request per row. Returns the store and the requests made.
   */
  function ActsMain(conn: Connection, today: Clock, server: ActServer): (Outcome<Connection>, seq<ActRequest>)
    requires conn.Some? ==> Wf(conn.value)
  {
    match conn
    case None => (Raised, [])
    case Some(db) =>
      var db2 := ResetActs(db);
      match FetchCourtRows(Some(db2)).value
      case None => (Done(Some(db2)), [])
      case Some(_) =>
        var rows := CourtRowsOf(db2);
        if rows == [] then (Done(Some(db2)), [])
        else RunRequests(Some(db2), today, 0, rows, server)
  }

  // ---------------------------------------------------------------------------
  // Properties.
  // ---------------------------------------------------------------------------

  /**
   * The rows one successful reply saves are exactly the rows of the options
   * `Keep` accepts, one each, in option order.
   */
  lemma {:induction false} KeptRowsSpec(date: string, req: ActRequest, opts: seq<ActOption>)
    ensures var kept := Filter(Keep, opts);
      KeptRows(date, req, opts) == seq(|kept|, i requires 0 <= i < |kept| => ActRow(date, req, kept[i]))
  {
    if opts != [] {
      KeptRowsSpec(date, req, opts[1..]);
    }
  }

  /** Every kept option's row is saved. */
  lemma KeptRowsComplete(date: string, req: ActRequest, opts: seq<ActOption>)
    ensures forall i :: 0 <= i < |opts| && Keep(opts[i]) ==> ActRow(date, req, opts[i]) in KeptRows(date, req, opts)
  {
    KeptRowsSpec(date, req, opts);
    FilterMembers(Keep, opts);
    var kept := Filter(Keep, opts);
    forall i | 0 <= i < |opts| && Keep(opts[i]) ensures ActRow(date, req, opts[i]) in KeptRows(date, req, opts) {
      assert opts[i] in kept;
      var a :| 0 <= a < |kept| && kept[a] == opts[i];
      assert KeptRows(date, req, opts)[a] == ActRow(date, req, opts[i]);
    }
  }

  /** A `save_acts_to_db` row for request `req` whose code is non-empty and whose name the IPC pattern accepts. */
  predicate SavedActRow(date: string, req: ActRequest, row: seq<string>)
  {
    && |row| == 7 && row[0] == date && row[1] == req.state && row[2] == req.district
    && row[3] == req.court && row[4] == req.est && row[5] != "" && IpcMatch(row[6])
  }

  /**
   * Only kept options are saved: every row is the row of an option of the
   * reply that `Keep` accepts, so it carries the request's fields, that
   * option's code and its stripped name, which the IPC pattern accepts.
   */
  lemma KeptRowsSound(date: string, req: ActRequest, opts: seq<ActOption>)
    ensures forall row :: row in KeptRows(date, req, opts) ==>
      exists i :: 0 <= i < |opts| && Keep(opts[i]) && row == ActRow(date, req, opts[i])
    ensures forall row :: row in KeptRows(date, req, opts) ==> SavedActRow(date, req, row)
  {
    KeptRowsSpec(date, req, opts);
    FilterMembers(Keep, opts);
    var kept := Filter(Keep, opts);
    forall row | row in KeptRows(date, req, opts)
      ensures exists i :: 0 <= i < |opts| && Keep(opts[i]) && row == ActRow(date, req, opts[i])
      ensures SavedActRow(date, req, row)
    {
      var a :| 0 <= a < |kept| && KeptRows(date, req, opts)[a] == row;
      var o := kept[a];
      assert o in kept;
      var i :| 0 <= i < |opts| && opts[i] == o;
      KeptOptionRowSaved(date, req, o);
    }
  }

  lemma KeptOptionRowSaved(date: string, req: ActRequest, o: ActOption)
    requires Keep(o)
    ensures SavedActRow(date, req, ActRow(date, req, o))
  {
  }

  /** A reply with any status but 200 saves nothing, whatever options it carries. */
  lemma FailedRequestSavesNothing(date: string, req: ActRequest, resp: ActListResponse)
    requires resp.status != 200
    ensures ActRows(date, req, resp) == []
  {
  }

  /** The rows all requests save, request after request, each with the date its request read. */
  function AllActRows(today: Clock, n: nat, rows: seq<Row>, server: ActServer): seq<seq<string>>
    requires forall i :: 0 <= i < |rows| ==> CourtsRow(rows[i])
    decreases |rows|
  {
    if rows == [] then []
    else ActRows(today(n), RequestFor(rows[0]), server(RequestFor(rows[0]))) + AllActRows(today, n + 1, rows[1..], server)
  }

  /** Every saved row has one value per `Acts` column. */
  lemma {:induction false} AllActRowsWidth(today: Clock, n: nat, rows: seq<Row>, server: ActServer)
    requires forall i :: 0 <= i < |rows| ==> CourtsRow(rows[i])
    ensures forall k :: 0 <= k < |AllActRows(today, n, rows, server)| ==> |AllActRows(today, n, rows, server)[k]| == 7
    decreases |rows|
  {
    if rows != [] {
      var req := RequestFor(rows[0]);
      var here := ActRows(today(n), req, server(req));
      if server(req).status == 200 {
        KeptRowsSound(today(n), req, server(req).options);
      }
      AllActRowsWidth(today, n + 1, rows[1..], server);
      forall k | 0 <= k < |here| ensures |here[k]| == 7 {
        assert here[k] in here;
      }
    }
  }

  /** The row was saved by the request for one of `rows`, the first being row `n`, with the date that request read. */
  predicate SavedForSomeRow(today: Clock, n: nat, rows: seq<Row>, row: seq<string>)
  {
    exists k :: 0 <= k < |rows| && CourtsRow(rows[k]) && SavedActRow(today(n + k), RequestFor(rows[k]), row)
  }

  lemma SavedForLaterRow(today: Clock, n: nat, rows: seq<Row>, row: seq<string>)
    requires rows != [] && SavedForSomeRow(today, n + 1, rows[1..], row)
    ensures SavedForSomeRow(today, n, rows, row)
  {
    var k :| 0 <= k < |rows[1..]| && CourtsRow(rows[1..][k]) && SavedActRow(today(n + 1 + k), RequestFor(rows[1..][k]), row);
    assert rows[1..][k] == rows[k + 1];
    assert n + 1 + k == n + (k + 1);
  }

  /**
   * Every saved row comes from the request for one `Courts` row: it carries
   * that request's fields and the date that request read.
   */
  lemma {:induction false} AllActRowsFromRequests(today: Clock, n: nat, rows: seq<Row>, server: ActServer)
    requires forall i :: 0 <= i < |rows| ==> CourtsRow(rows[i])
    ensures forall row :: row in AllActRows(today, n, rows, server) ==> SavedForSomeRow(today, n, rows, row)
    decreases |rows|
  {
    if rows != [] {
      var req := RequestFor(rows[0]);
      var here := ActRows(today(n), req, server(req));
      var rest := AllActRows(today, n + 1, rows[1..], server);
      if server(req).status == 200 {
        KeptRowsSound(today(n), req, server(req).options);
      }
      forall row | row in here ensures SavedForSomeRow(today, n, rows, row) {
        assert SavedActRow(today(n + 0), RequestFor(rows[0]), row);
      }
      AllActRowsFromRequests(today, n + 1, rows[1..], server);
      forall row | row in rest ensures SavedForSomeRow(today, n, rows, row) {
        SavedForLaterRow(today, n, rows, row);
      }
      assert AllActRows(today, n, rows, server) == here + rest;
    }
  }

  /** The interleaved inserts come to inserting every saved row, request after request. */
  lemma {:induction false} RunRequestsStore(conn: Connection, today: Clock, n: nat, rows: seq<Row>, server: ActServer)
    requires forall i :: 0 <= i < |rows| ==> CourtsRow(rows[i])
    requires conn.Some?
    ensures RunRequests(conn, today, n, rows, server).0
      == InsertAll(conn, ActsSchema.name, ActsSchema.columns, AllActRows(today, n, rows, server))
    decreases |rows|
  {
    if rows != [] {
      var req := RequestFor(rows[0]);
      var here := ActRows(today(n), req, server(req));
      InsertAllAppend(conn, ActsSchema.name, ActsSchema.columns, here, AllActRows(today, n + 1, rows[1..], server));
      InsertAllSome(conn, ActsSchema.name, ActsSchema.columns, here);
      RunRequestsStore(InsertAll(conn, ActsSchema.name, ActsSchema.columns, here).value, today, n + 1, rows[1..], server);
    }
  }

  /** One request per `Courts` row, in table order. */
  function Requests(rows: seq<Row>): (r: seq<ActRequest>)
    requires forall i :: 0 <= i < |rows| ==> CourtsRow(rows[i])
    ensures |r| == |rows|
    ensures forall i :: 0 <= i < |rows| ==> r[i] == RequestFor(rows[i])
    decreases |rows|
  {
    if rows == [] then [] else [RequestFor(rows[0])] + Requests(rows[1..])
  }

  /** The requests are made one per `Courts` row, in table order, whatever the replies. */
  lemma {:induction false} RunRequestsTrace(conn: Connection, today: Clock, n: nat, rows: seq<Row>, server: ActServer)
    requires forall i :: 0 <= i < |rows| ==> CourtsRow(rows[i])
    requires conn.Some?
    ensures RunRequests(conn, today, n, rows, server).1 == Requests(rows)
    decreases |rows|
  {
    if rows != [] {
      var here := ActRows(today(n), RequestFor(rows[0]), server(RequestFor(rows[0])));
      InsertAllSome(conn, ActsSchema.name, ActsSchema.columns, here);
      RunRequestsTrace(InsertAll(conn, ActsSchema.name, ActsSchema.columns, here).value, today, n + 1, rows[1..], server);
    }
  }

  /** Resetting `Acts` leaves it empty and every other table as it was. */
  lemma ResetActsSpec(db: Db)
    requires Wf(db)
    ensures ResetActs(db).tables.Keys == db.tables.Keys + {ActsSchema.name}
    ensures ResetActs(db).tables[ActsSchema.name] == Table(ActsSchema, [])
    ensures forall n :: n in db.tables && n != ActsSchema.name ==> ResetActs(db).tables[n] == db.tables[n]
  {
  }

  /** `main` on an open store is the requests for its `Courts` rows, made against the reset store. */
  lemma ActsMainUnfold(db: Db, today: Clock, server: ActServer)
    requires Wf(db)
    ensures ActsMain(Some(db), today, server) == RunRequests(Some(ResetActs(db)), today, 0, CourtRowsOf(db), server)
  {
    ResetActsSpec(db);
    var db2 := ResetActs(db);
    if CourtsSchema.name in db.tables {
      assert db2.tables[CourtsSchema.name] == db.tables[CourtsSchema.name];
    }
  }

  /**
   * After `main` on a well-formed store, `Acts` holds exactly the rows saved
   * for the `Courts` rows, numbered from 1 and in request order; the requests
   * were one per `Courts` row in order; and every other table, `Courts`
   * included, is as it was.
   */
  lemma ActsMainSpec(db: Db, today: Clock, server: ActServer)
    requires Wf(db)
    ensures var courtRows := CourtRowsOf(db);
      var saved := AllActRows(today, 0, courtRows, server);
      var (o, reqs) := ActsMain(Some(db), today, server);
      && reqs == Requests(courtRows)
      && o.Done? && o.value.Some? && ActsSchema.name in o.value.value.tables
      && o.value.value.tables[ActsSchema.name].rows == StoredRows(ActsSchema, 0, saved)
      && (forall n :: n in db.tables && n != ActsSchema.name ==> n in o.value.value.tables && o.value.value.tables[n] == db.tables[n])
  {
    var courtRows := CourtRowsOf(db);
    var db2 := ResetActs(db);
    ResetActsSpec(db);
    ActsMainUnfold(db, today, server);
    var saved := AllActRows(today, 0, courtRows, server);
    AllActRowsWidth(today, 0, courtRows, server);
    FetchAfterInsertAll(db2, ActsSchema.name, saved);
    RunRequestsStore(Some(db2), today, 0, courtRows, server);
    RunRequestsTrace(Some(db2), today, 0, courtRows, server);
  }
}
