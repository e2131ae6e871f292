/**
 * The case-page fetch (`get_html.py`): `COURTS_HTML` is created if missing,
 * and for every `Acts` row, in table order, either the `E005` sentinel is
 * stored without a request, or the pending section-302 cases for that act are
 * requested and the reply (or the `E006` sentinel for an empty reply) is
 * stored. The server is a parameter: a function from request to reply.
 */
module HtmlFetch {
  import opened Wrappers
  import opened Seqs
  import opened Store

  /** Stored as act code and page when an `Acts` row says the court had no act list. */
  const E005: string := "E005: No Act Codes list found"
  /** Stored as the page when the server answers with an empty body. */
  const E006: string := "E006: No Records found"
  /** The case status searched for and stored with every page. */
  const Pending: string := "Pending"
  /** The section of the act searched for. */
  const UnderSection: string := "302"

  /**
   * The varying fields of a `submitAct` request, and the two fixed search
   * fields; the others are always `search_act = ""`, `act_captcha_code = ""`,
   * `ajax_req = "true"` and `app_token = ""`.
   */
  datatype PageRequest = PageRequest(act: string, underSec: string, caseStatus: string,
                                     state: string, district: string, court: string, est: string)

  /**
   * A reply: its status code, its body, and the `act_data` value of the body
   * read as JSON (`None` when the key is missing).
   */
  datatype PageResponse = PageResponse(status: int, text: string, actData: Option<string>)

  type PageServer = PageRequest -> PageResponse

  /**
   * What `datetime.date.today()` gives inside the request for the `n`-th
   * `Acts` row: every request reads the clock afresh, while `E005` rows are
   * stored with the one date `main` read before the loop.
   */
  type Clock = nat -> string

  /** The values handed to `save_html_to_db`, in its parameter order. */
  function PageRow(date: string, req: PageRequest, page: string): seq<string>
  {
    [date, req.state, req.district, req.court, req.est, req.act, Pending, page]
  }

  /** `get_html_content`: nothing unless the status is 200; `E006` for an empty body; else `act_data` or `""`. */
  function PageRows(date: string, req: PageRequest, resp: PageResponse): seq<seq<string>>
  {
    if resp.status != 200 then []
    else if resp.text == "" then [PageRow(date, req, E006)]
    else [PageRow(date, req, match resp.actData case None => "" case Some(d) => d)]
  }

  /** An `Acts` row as stored: the id and seven text columns. */
  predicate ActsRow(row: Row)
  {
    TextRow(row, Width(ActsSchema))
  }

  /** An `Acts` row that records that the court had no act list. */
  predicate IsE005(row: Row)
  {
    |row| > 6 && row[6] == TextVal(E005)
  }

  /** The request made for an `Acts` row: always pending cases under section 302. */
  function RequestFor(row: Row): (r: PageRequest)
    requires ActsRow(row)
    ensures r.underSec == UnderSection && r.caseStatus == Pending
    ensures r.act == row[6].s && r.est == row[5].s && r.court == row[4].s
    ensures r.state == row[2].s && r.district == row[3].s
  {
    PageRequest(row[6].s, UnderSection, Pending, row[2].s, row[3].s, row[4].s, row[5].s)
  }

  /** The row stored, with no request, for an `E005` row. */
  function E005Row(date: string, row: Row): seq<string>
    requires ActsRow(row)
  {
    [date, row[2].s, row[3].s, row[4].s, row[5].s, E005, Pending, E005]
  }

  /**
   * One step per `Acts` row; `rows[0]` is row `n` of the table. An `E005` row
   * is stored with `runDate`, a page with the date its request read. Returns
   * the store and the requests made.
   */
  function RunFetch(conn: Connection, runDate: string, today: Clock, n: nat, rows: seq<Row>, server: PageServer)
    : (Outcome<Connection>, seq<PageRequest>)
    requires forall i :: 0 <= i < |rows| ==> ActsRow(rows[i])
    decreases |rows|
  {
    if rows == [] then (Done(conn), [])
    else if IsE005(rows[0]) then
      match Insert(conn, HtmlSchema.name, HtmlSchema.columns, E005Row(runDate, rows[0]))
      case Raised => (Raised, [])
      case Done(c) => RunFetch(c, runDate, today, n + 1, rows[1..], server)
    else
      var req := RequestFor(rows[0]);
      match InsertAll(conn, HtmlSchema.name, HtmlSchema.columns, PageRows(today(n), req, server(req)))
      case Raised => (Raised, [req])
      case Done(c) =>
        var (o, reqs) := RunFetch(c, runDate, today, n + 1, rows[1..], server);
        (o, [req] + reqs)
  }

  /** The rows of a well-formed store's `Acts` table, none when it has no such table. */
  function ActsRowsOf(db: Db): (rows: seq<Row>)
    requires Wf(db)
    ensures forall i :: 0 <= i < |rows| ==> ActsRow(rows[i])
    ensures ActsSchema.name in db.tables ==> rows == db.tables[ActsSchema.name].rows
    ensures ActsSchema.name !in db.tables ==> rows == []
  {
    TableRows(db, ActsSchema)
  }

  /** The store after `create_html_table`. */
  function WithHtmlTable(db: Db): (r: Db)
    requires Wf(db)
    ensures Wf(r)
  {
    CreateTableIdempotent(db, HtmlSchema);
    CreateHtmlTable(Some(db)).value.value
  }

  /**
   * `main`: create `COURTS_HTML` if missing, read the date once, fetch the
   * `Acts` rows and, when there are any, handle each in turn. Returns the
   * store and the requests made.
   */
  function HtmlMain(conn: Connection, runDate: string, today: Clock, server: PageServer): (Outcome<Connection>, seq<PageRequest>)
    requires conn.Some? ==> Wf(conn.value)
  {
    match conn
    case None => (Raised, [])
    case Some(db) =>
      var db1 := WithHtmlTable(db);
      match FetchActsRows(Some(db1)).value
      case None => (Done(Some(db1)), [])
      case Some(_) =>
        var rows := ActsRowsOf(db1);
        if rows == [] then (Done(Some(db1)), [])
        else RunFetch(Some(db1), runDate, today, 0, rows, server)
  }

  // ---------------------------------------------------------------------------
  // Properties.
  // ---------------------------------------------------------------------------

  /**
   * A request stores at most one page, only on status 200; the page is `E006`
   * for an empty body and otherwise the reply's `act_data` (empty when it is
   * missing); and the row is always filed as pending under the request's act.
   */
  lemma PageRowsSpec(date: string, req: PageRequest, resp: PageResponse)
    ensures |PageRows(date, req, resp)| == if resp.status == 200 then 1 else 0
    ensures forall row :: row in PageRows(date, req, resp) ==>
      && |row| == 8 && row[..6] == [date, req.state, req.district, req.court, req.est, req.act]
      && row[6] == Pending
      && (resp.text == "" ==> row[7] == E006)
      && (resp.text != "" ==> row[7] == if resp.actData.Some? then resp.actData.value else "")
  {
  }

  /** The requests are made for exactly the rows that are not `E005`, one each, in table order. */
  function Requests(rows: seq<Row>): (r: seq<PageRequest>)
    requires forall i :: 0 <= i < |rows| ==> ActsRow(rows[i])
    ensures |r| == |Filter(NotE005, rows)|
    ensures forall i :: 0 <= i < |r| ==>
      ActsRow(Filter(NotE005, rows)[i]) && r[i] == RequestFor(Filter(NotE005, rows)[i])
    decreases |rows|
  {
    if rows == [] then []
    else if IsE005(rows[0]) then Requests(rows[1..])
    else [RequestFor(rows[0])] + Requests(rows[1..])
  }

  predicate NotE005(row: Row)
  {
    !IsE005(row)
  }

  /** The rows stored for all `Acts` rows, row after row, from row `n` of the table on. */
  function AllPageRows(runDate: string, today: Clock, n: nat, rows: seq<Row>, server: PageServer): seq<seq<string>>
    requires forall i :: 0 <= i < |rows| ==> ActsRow(rows[i])
    decreases |rows|
  {
    if rows == [] then []
    else if IsE005(rows[0]) then [E005Row(runDate, rows[0])] + AllPageRows(runDate, today, n + 1, rows[1..], server)
    else PageRows(today(n), RequestFor(rows[0]), server(RequestFor(rows[0]))) + AllPageRows(runDate, today, n + 1, rows[1..], server)
  }

  /** Every request for a row that is not `E005` is made, and no request carries the `E005` act code. */
  lemma {:induction false} RequestsSpec(rows: seq<Row>)
    requires forall i :: 0 <= i < |rows| ==> ActsRow(rows[i])
    ensures forall i :: 0 <= i < |rows| && !IsE005(rows[i]) ==> RequestFor(rows[i]) in Requests(rows)
    ensures forall req :: req in Requests(rows) ==> req.act != E005 && req.underSec == UnderSection && req.caseStatus == Pending
    decreases |rows|
  {
    if rows != [] {
      RequestsSpec(rows[1..]);
      forall i | 1 <= i < |rows| && !IsE005(rows[i]) ensures RequestFor(rows[i]) in Requests(rows) {
        assert rows[1..][i - 1] == rows[i];
      }
    }
  }

  /** The interleaved inserts come to inserting every stored row in `Acts` order. */
  lemma {:induction false} RunFetchStore(conn: Connection, runDate: string, today: Clock, n: nat, rows: seq<Row>, server: PageServer)
    requires forall i :: 0 <= i < |rows| ==> ActsRow(rows[i])
    requires conn.Some?
    ensures RunFetch(conn, runDate, today, n, rows, server).0
      == InsertAll(conn, HtmlSchema.name, HtmlSchema.columns, AllPageRows(runDate, today, n, rows, server))
    decreases |rows|
  {
    if rows != [] {
      var here := if IsE005(rows[0]) then [E005Row(runDate, rows[0])]
                  else PageRows(today(n), RequestFor(rows[0]), server(RequestFor(rows[0])));
      InsertAllAppend(conn, HtmlSchema.name, HtmlSchema.columns, here, AllPageRows(runDate, today, n + 1, rows[1..], server));
      InsertAllSome(conn, HtmlSchema.name, HtmlSchema.columns, here);
      RunFetchStore(InsertAll(conn, HtmlSchema.name, HtmlSchema.columns, here).value, runDate, today, n + 1, rows[1..], server);
    }
  }

  /** The requests made are those for the rows that are not `E005`, in table order, whatever the replies. */
  lemma {:induction false} RunFetchTrace(conn: Connection, runDate: string, today: Clock, n: nat, rows: seq<Row>, server: PageServer)
    requires forall i :: 0 <= i < |rows| ==> ActsRow(rows[i])
    requires conn.Some?
    ensures RunFetch(conn, runDate, today, n, rows, server).1 == Requests(rows)
    decreases |rows|
  {
    if rows != [] {
      if IsE005(rows[0]) {
        var c := Insert(conn, HtmlSchema.name, HtmlSchema.columns, E005Row(runDate, rows[0]));
        RunFetchTrace(c.value, runDate, today, n + 1, rows[1..], server);
      } else {
        var here := PageRows(today(n), RequestFor(rows[0]), server(RequestFor(rows[0])));
        InsertAllSome(conn, HtmlSchema.name, HtmlSchema.columns, here);
        RunFetchTrace(InsertAll(conn, HtmlSchema.name, HtmlSchema.columns, here).value, runDate, today, n + 1, rows[1..], server);
      }
    }
  }

  /** Every stored row has the eight `COURTS_HTML` values and is filed as pending. */
  lemma {:induction false} AllPageRowsShape(runDate: string, today: Clock, n: nat, rows: seq<Row>, server: PageServer)
    requires forall i :: 0 <= i < |rows| ==> ActsRow(rows[i])
    ensures forall k :: 0 <= k < |AllPageRows(runDate, today, n, rows, server)| ==>
      |AllPageRows(runDate, today, n, rows, server)[k]| == 8 && AllPageRows(runDate, today, n, rows, server)[k][6] == Pending
    decreases |rows|
  {
    if rows != [] {
      AllPageRowsShape(runDate, today, n + 1, rows[1..], server);
      if !IsE005(rows[0]) {
        var req := RequestFor(rows[0]);
        PageRowsSpec(today(n), req, server(req));
        var here := PageRows(today(n), req, server(req));
        forall k | 0 <= k < |here| ensures |here[k]| == 8 && here[k][6] == Pending {
          assert here[k] in here;
        }
      }
    }
  }

  /** Creating the page table keeps an existing one, with its pages, and leaves every other table alone. */
  lemma WithHtmlTableSpec(db: Db)
    requires Wf(db)
    ensures WithHtmlTable(db).tables.Keys == db.tables.Keys + {HtmlSchema.name}
    ensures WithHtmlTable(db).tables[HtmlSchema.name]
      == if HtmlSchema.name in db.tables then db.tables[HtmlSchema.name] else Table(HtmlSchema, [])
    ensures forall n :: n in db.tables ==> WithHtmlTable(db).tables[n] == db.tables[n]
  {
  }

  /** `main` on an open store is the fetch for its `Acts` rows, made against the store with a page table. */
  lemma HtmlMainUnfold(db: Db, runDate: string, today: Clock, server: PageServer)
    requires Wf(db)
    ensures HtmlMain(Some(db), runDate, today, server) == RunFetch(Some(WithHtmlTable(db)), runDate, today, 0, ActsRowsOf(db), server)
    ensures HtmlMain(Some(db), runDate, today, server).0
      == InsertAll(Some(WithHtmlTable(db)), HtmlSchema.name, HtmlSchema.columns, AllPageRows(runDate, today, 0, ActsRowsOf(db), server))
    ensures HtmlMain(Some(db), runDate, today, server).1 == Requests(ActsRowsOf(db))
  {
    WithHtmlTableSpec(db);
    RunFetchStore(Some(WithHtmlTable(db)), runDate, today, 0, ActsRowsOf(db), server);
    RunFetchTrace(Some(WithHtmlTable(db)), runDate, today, 0, ActsRowsOf(db), server);
  }

  /**
   * After `main` on a well-formed store, `COURTS_HTML` holds the pages it held
   * before followed by one stored row per `E005` row or successful request,
   * in `Acts` order; the requests were exactly those for the rows that are not
   * `E005`; and every other table is as it was.
   */
  lemma HtmlMainSpec(db: Db, runDate: string, today: Clock, server: PageServer)
    requires Wf(db)
    ensures var stored := AllPageRows(runDate, today, 0, ActsRowsOf(db), server);
      var before := if HtmlSchema.name in db.tables then db.tables[HtmlSchema.name].rows else [];
      var (o, reqs) := HtmlMain(Some(db), runDate, today, server);
      && reqs == Requests(ActsRowsOf(db))
      && o.Done? && o.value.Some? && HtmlSchema.name in o.value.value.tables
      && o.value.value.tables[HtmlSchema.name].rows == before + StoredRows(HtmlSchema, |before|, stored)
      && (forall n :: n in db.tables && n != HtmlSchema.name ==> n in o.value.value.tables && o.value.value.tables[n] == db.tables[n])
  {
    var db1 := WithHtmlTable(db);
    WithHtmlTableSpec(db);
    HtmlMainUnfold(db, runDate, today, server);
    var stored := AllPageRows(runDate, today, 0, ActsRowsOf(db), server);
    AllPageRowsShape(runDate, today, 0, ActsRowsOf(db), server);
    FetchAfterInsertAll(db1, HtmlSchema.name, stored);
    var before := if HtmlSchema.name in db.tables then db.tables[HtmlSchema.name].rows else [];
    assert db1.tables[HtmlSchema.name].rows == before;
  }

  /** An `E005` row is stored as it is, with no request: its act code and page are both the sentinel. */
  lemma E005StoredWithoutRequest(runDate: string, today: Clock, n: nat, row: Row, server: PageServer)
    requires ActsRow(row) && IsE005(row)
    ensures Requests([row]) == []
    ensures AllPageRows(runDate, today, n, [row], server)
      == [[runDate, row[2].s, row[3].s, row[4].s, row[5].s, E005, Pending, E005]]
  {
  }

  /** An empty body with status 200 stores `E006`; any other status stores nothing. */
  lemma EmptyReplyStoresE006(runDate: string, today: Clock, n: nat, row: Row, server: PageServer)
    requires ActsRow(row) && !IsE005(row)
    ensures var req := RequestFor(row);
      && (server(req).status == 200 && server(req).text == "" ==>
            AllPageRows(runDate, today, n, [row], server) == [PageRow(today(n), req, E006)])
      && (server(req).status != 200 ==> AllPageRows(runDate, today, n, [row], server) == [])
  {
  }
}
