/**
 * The court-establishment scrape of the navigator (`get_court_complexes_3`):
 * for every court complex of a district, in dropdown order, one `Courts` row
 * per establishment option, or one `E003` row when the complex shows no
 * establishment dropdown. What the page shows for a complex is a parameter.
 */
module Courts {
  import opened Wrappers
  import opened Dropdowns
  import opened Store

  /** The sentinel stored as both establishment code and name when a complex has no establishment dropdown. */
  const E003: string := "E003: No court establishment found"

  /**
   * What the page shows after a complex is selected: `None` when the
   * establishment dropdown is not visible, else its options in order
   * (unfiltered: a placeholder option is saved like any other).
   */
  type Establishments = string -> Option<seq<DropdownOption>>

  /** The values handed to `save_codes_to_db`, in its parameter order. */
  function CourtRow(date: string, state: string, district: string, code: string, name: string,
                    estCode: string, estName: string): seq<string>
  {
    [date, state, district, code, name, estCode, estName]
  }

  /** One row per establishment option, in option order. */
  function EstRows(date: string, state: string, district: string, code: string, name: string,
                   opts: seq<DropdownOption>): (r: seq<seq<string>>)
    ensures |r| == |opts|
  {
    if opts == [] then []
    else [CourtRow(date, state, district, code, name, opts[0].value, opts[0].text)]
         + EstRows(date, state, district, code, name, opts[1..])
  }

  /** The rows saved for one complex. */
  function ComplexRows(date: string, state: string, district: string, code: string, name: string,
                       est: Option<seq<DropdownOption>>): seq<seq<string>>
  {
    match est
    case None => [CourtRow(date, state, district, code, name, E003, E003)]
    case Some(opts) => EstRows(date, state, district, code, name, opts)
  }

  /** The rows saved for the complexes `names`/`codes`, complex after complex. */
  function CourtRows(date: string, state: string, district: string, names: seq<string>, codes: seq<string>,
                     estFor: Establishments): seq<seq<string>>
    requires |names| == |codes|
  {
    if codes == [] then []
    else ComplexRows(date, state, district, codes[0], names[0], estFor(codes[0]))
         + CourtRows(date, state, district, names[1..], codes[1..], estFor)
  }

  /** `get_court_complexes_3` once the state and district are selected: the rows for the district's complexes. */
  function ScrapeCourts(date: string, state: string, district: string, complexOpts: seq<DropdownOption>,
                        estFor: Establishments): seq<seq<string>>
  {
    var (names, codes) := CourtComplexes(complexOpts);
    CourtComplexesSpec(complexOpts);
    CourtRows(date, state, district, names, codes, estFor)
  }

  /** Every row saved for a complex, and the `Courts` insert it makes. */
  function SaveCourts(conn: Connection, date: string, state: string, district: string,
                      complexOpts: seq<DropdownOption>, estFor: Establishments): Outcome<Connection>
  {
    InsertAll(conn, CourtsSchema.name, CourtsSchema.columns, ScrapeCourts(date, state, district, complexOpts, estFor))
  }

  // ---------------------------------------------------------------------------
  // Properties.
  // ---------------------------------------------------------------------------

  /** Each establishment option gives the row at its own position, carrying the option's value and text. */
  lemma {:induction false} EstRowsSpec(date: string, state: string, district: string, code: string, name: string,
                                       opts: seq<DropdownOption>)
    ensures forall j :: 0 <= j < |opts| ==>
      EstRows(date, state, district, code, name, opts)[j]
        == CourtRow(date, state, district, code, name, opts[j].value, opts[j].text)
  {
    if opts != [] {
      EstRowsSpec(date, state, district, code, name, opts[1..]);
      var rest := EstRows(date, state, district, code, name, opts[1..]);
      forall j | 1 <= j < |opts|
        ensures EstRows(date, state, district, code, name, opts)[j]
          == CourtRow(date, state, district, code, name, opts[j].value, opts[j].text)
      {
        assert rest[j - 1] == CourtRow(date, state, district, code, name, opts[1..][j - 1].value, opts[1..][j - 1].text);
      }
    }
  }

  /** The complexes as (code, name) pairs, in dropdown order. */
  function Complexes(names: seq<string>, codes: seq<string>): (r: seq<(string, string)>)
    requires |names| == |codes|
    ensures |r| == |codes|
    ensures forall i :: 0 <= i < |codes| ==> r[i] == (codes[i], names[i])
  {
    if codes == [] then [] else [(codes[0], names[0])] + Complexes(names[1..], codes[1..])
  }

  /** A `Courts` row for the given district whose complex is one of `complexes`. */
  predicate RowOfDistrict(date: string, state: string, district: string, complexes: seq<(string, string)>, row: seq<string>)
  {
    |row| == 7 && row[0] == date && row[1] == state && row[2] == district && (row[3], row[4]) in complexes
  }

  /**
   * The rows of a complex carry its own code and name and the district they
   * were scraped for; the establishment fields are `E003` exactly when the
   * establishment dropdown was missing (a visible dropdown whose options carry
   * other values never gives an `E003` row).
   */
  lemma ComplexRowsSpec(date: string, state: string, district: string, code: string, name: string,
                        est: Option<seq<DropdownOption>>)
    ensures forall row :: row in ComplexRows(date, state, district, code, name, est) ==>
      |row| == 7 && row[0] == date && row[1] == state && row[2] == district && row[3] == code && row[4] == name
    ensures est.None? ==>
      ComplexRows(date, state, district, code, name, est) == [CourtRow(date, state, district, code, name, E003, E003)]
    ensures est.Some? && (forall j :: 0 <= j < |est.value| ==> est.value[j].value != E003) ==>
      forall row :: row in ComplexRows(date, state, district, code, name, est) ==> row[5] != E003
    ensures est.Some? ==> |ComplexRows(date, state, district, code, name, est)| == |est.value|
  {
    if est.Some? {
      var rows := EstRows(date, state, district, code, name, est.value);
      EstRowsSpec(date, state, district, code, name, est.value);
      forall row | row in rows
        ensures |row| == 7 && row[0] == date && row[1] == state && row[2] == district && row[3] == code && row[4] == name
      {
        var j :| 0 <= j < |rows| && rows[j] == row;
      }
    }
  }

  /** Every row saved for complex `i` is among the rows saved for the district. */
  lemma {:induction false} ComplexRowsIncluded(date: string, state: string, district: string, names: seq<string>,
                                               codes: seq<string>, estFor: Establishments, i: nat, row: seq<string>)
    requires |names| == |codes| && i < |codes|
    requires row in ComplexRows(date, state, district, codes[i], names[i], estFor(codes[i]))
    ensures row in CourtRows(date, state, district, names, codes, estFor)
  {
    if i > 0 {
      assert codes[1..][i - 1] == codes[i] && names[1..][i - 1] == names[i];
      ComplexRowsIncluded(date, state, district, names[1..], codes[1..], estFor, i - 1, row);
    }
  }

  /** Every row saved belongs to one of the district's complexes and has the seven fields of a `Courts` row. */
  lemma {:induction false} CourtRowsSound(date: string, state: string, district: string, names: seq<string>,
                                          codes: seq<string>, estFor: Establishments)
    requires |names| == |codes|
    ensures forall row :: row in CourtRows(date, state, district, names, codes, estFor) ==>
      RowOfDistrict(date, state, district, Complexes(names, codes), row)
  {
    if codes != [] {
      var here := ComplexRows(date, state, district, codes[0], names[0], estFor(codes[0]));
      var rest := CourtRows(date, state, district, names[1..], codes[1..], estFor);
      var complexes := Complexes(names, codes);
      CourtRowsSound(date, state, district, names[1..], codes[1..], estFor);
      ComplexRowsSpec(date, state, district, codes[0], names[0], estFor(codes[0]));
      assert complexes == [(codes[0], names[0])] + Complexes(names[1..], codes[1..]);
      forall row | row in here + rest ensures RowOfDistrict(date, state, district, complexes, row) {
        if row in here {
          assert (row[3], row[4]) == complexes[0];
        } else {
          assert RowOfDistrict(date, state, district, Complexes(names[1..], codes[1..]), row);
        }
      }
    }
  }

  /** Every complex with no establishment dropdown gets its `E003` row. */
  lemma MissingEstablishmentsGiveE003(date: string, state: string, district: string, names: seq<string>,
                                      codes: seq<string>, estFor: Establishments, i: nat)
    requires |names| == |codes| && i < |codes| && estFor(codes[i]).None?
    ensures CourtRow(date, state, district, codes[i], names[i], E003, E003)
      in CourtRows(date, state, district, names, codes, estFor)
  {
    ComplexRowsIncluded(date, state, district, names, codes, estFor, i,
                        CourtRow(date, state, district, codes[i], names[i], E003, E003));
  }

  /** Every establishment option of every complex is saved. */
  lemma EveryEstablishmentSaved(date: string, state: string, district: string, names: seq<string>,
                                codes: seq<string>, estFor: Establishments, i: nat, j: nat)
    requires |names| == |codes| && i < |codes| && estFor(codes[i]).Some? && j < |estFor(codes[i]).value|
    ensures var o := estFor(codes[i]).value[j];
      CourtRow(date, state, district, codes[i], names[i], o.value, o.text)
        in CourtRows(date, state, district, names, codes, estFor)
  {
    var o := estFor(codes[i]).value[j];
    EstRowsSpec(date, state, district, codes[i], names[i], estFor(codes[i]).value);
    var rows := ComplexRows(date, state, district, codes[i], names[i], estFor(codes[i]));
    assert rows[j] in rows;
    ComplexRowsIncluded(date, state, district, names, codes, estFor, i,
                        CourtRow(date, state, district, codes[i], names[i], o.value, o.text));
  }

  /** Every row the scrape computes has one value per column of `Courts`. */
  lemma ScrapeCourtsWidth(date: string, state: string, district: string, complexOpts: seq<DropdownOption>,
                          estFor: Establishments)
    ensures forall k :: 0 <= k < |ScrapeCourts(date, state, district, complexOpts, estFor)| ==>
      |ScrapeCourts(date, state, district, complexOpts, estFor)[k]| == |CourtsSchema.columns|
  {
    var (names, codes) := CourtComplexes(complexOpts);
    CourtComplexesSpec(complexOpts);
    var rows := CourtRows(date, state, district, names, codes, estFor);
    CourtRowsSound(date, state, district, names, codes, estFor);
    forall k | 0 <= k < |rows| ensures |rows[k]| == 7 {
      assert RowOfDistrict(date, state, district, Complexes(names, codes), rows[k]);
    }
  }

  /**
   * The scrape saves exactly the rows above into `Courts`, after the rows
   * already there and in the order computed, and leaves every other table alone.
   * The ids continue from the row count, which is what AUTOINCREMENT gives
   * when the table is well formed (ids 1 to n).
   */
  lemma SaveCourtsAppends(db: Db, date: string, state: string, district: string,
                          complexOpts: seq<DropdownOption>, estFor: Establishments)
    requires CourtsSchema.name in db.tables && db.tables[CourtsSchema.name].schema == CourtsSchema
    ensures var rows := ScrapeCourts(date, state, district, complexOpts, estFor);
      var t := db.tables[CourtsSchema.name];
      && SaveCourts(Some(db), date, state, district, complexOpts, estFor).Done?
      && SaveCourts(Some(db), date, state, district, complexOpts, estFor).value.Some?
      && var db' := SaveCourts(Some(db), date, state, district, complexOpts, estFor).value.value;
      && db'.tables.Keys == db.tables.Keys
      && db'.tables[CourtsSchema.name].rows == t.rows + StoredRows(CourtsSchema, |t.rows|, rows)
      && (forall n :: n in db.tables && n != CourtsSchema.name ==> db'.tables[n] == db.tables[n])
  {
    ScrapeCourtsWidth(date, state, district, complexOpts, estFor);
    FetchAfterInsertAll(db, CourtsSchema.name, ScrapeCourts(date, state, district, complexOpts, estFor));
  }

  /** A complex whose establishment dropdown is visible but empty saves nothing at all. */
  lemma EmptyDropdownSavesNothing(date: string, state: string, district: string, code: string, name: string)
    ensures ComplexRows(date, state, district, code, name, Some([])) == []
  {
  }
}
