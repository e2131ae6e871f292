/**
 * The bulk-insert statement builders of the navigator (`create_insert_query`,
 * `create_district_query`) and a reader for the statements they produce. Each
 * row becomes a parenthesised tuple of single-quoted fields; the tuples are
 * joined with ", " after a fixed prefix and the statement ends with ";".
 */
module BulkInsert {
  import opened Wrappers
  import opened Seqs

  const StatesPrefix: string := "INSERT INTO States (state_name, state_code) VALUES "
  const DistrictsPrefix: string := "INSERT INTO Districts (state_code, district_name, district_code) VALUES "
  const StatesLengthError: string := "state_names and state_codes must have the same length"
  const DistrictsLengthError: string := "district_names and district_codes must have the same length"

  /**
   * How a field is put between single quotes: `Verbatim` pastes it unchanged,
   * as the source's f-strings do; `Doubled` doubles every quote inside it, as
   * SQL string literals require.
   */
  datatype Quoting = Verbatim | Doubled

  /** SQL's escape for a quote inside a string literal: write it twice. */
  function DoubleQuotes(v: string): (r: string)
    ensures '\'' !in v ==> r == v
    ensures |r| >= |v|
  {
    if v == [] then []
    else (if v[0] == '\'' then "''" else [v[0]]) + DoubleQuotes(v[1..])
  }

  function Escape(q: Quoting, v: string): string
  {
    match q
    case Verbatim => v
    case Doubled => DoubleQuotes(v)
  }

  /** `'value'`. */
  function Quote(q: Quoting, v: string): string
  {
    "'" + Escape(q, v) + "'"
  }

  function QuoteAll(q: Quoting, fields: seq<string>): (r: seq<string>)
    ensures |r| == |fields|
  {
    if fields == [] then [] else [Quote(q, fields[0])] + QuoteAll(q, fields[1..])
  }

  /** `('f1', 'f2', ...)`. */
  function Tuple(q: Quoting, fields: seq<string>): string
  {
    "(" + Join(", ", QuoteAll(q, fields)) + ")"
  }

  function TupleAll(q: Quoting, rows: seq<seq<string>>): (r: seq<string>)
    ensures |r| == |rows|
  {
    if rows == [] then [] else [Tuple(q, rows[0])] + TupleAll(q, rows[1..])
  }

  /** The whole statement: the prefix, the tuples joined by ", ", and ";". */
  function Statement(q: Quoting, prefix: string, rows: seq<seq<string>>): string
  {
    prefix + Join(", ", TupleAll(q, rows)) + ";"
  }

  /** `zip(names, codes)` as two-field rows. */
  function Pairs(names: seq<string>, codes: seq<string>): (r: seq<seq<string>>)
    requires |names| == |codes|
    ensures |r| == |names|
  {
    seq(|names|, i requires 0 <= i < |names| => [names[i], codes[i]])
  }

  /** The district rows: each pair behind the one state code. */
  function DistrictRows(stateCode: string, names: seq<string>, codes: seq<string>): (r: seq<seq<string>>)
    requires |names| == |codes|
    ensures |r| == |names|
  {
    seq(|names|, i requires 0 <= i < |names| => [stateCode, names[i], codes[i]])
  }

  /** `create_insert_query` as written: the fields are pasted between quotes unchanged. */
  function CreateInsertQuery(names: seq<string>, codes: seq<string>): (r: Result<string, string>)
    ensures r.Failure? <==> |names| != |codes|
    ensures r.Failure? ==> r.error == StatesLengthError
  {
    if |names| != |codes| then Failure(StatesLengthError)
    else Success(Statement(Verbatim, StatesPrefix, Pairs(names, codes)))
  }

  /** `create_district_query` as written. */
  function CreateDistrictQuery(stateCode: string, names: seq<string>, codes: seq<string>): (r: Result<string, string>)
    ensures r.Failure? <==> |names| != |codes|
    ensures r.Failure? ==> r.error == DistrictsLengthError
  {
    if |names| != |codes| then Failure(DistrictsLengthError)
    else Success(Statement(Verbatim, DistrictsPrefix, DistrictRows(stateCode, names, codes)))
  }

  /** `create_insert_query` with the quotes inside each field doubled. */
  function CreateInsertQueryEscaped(names: seq<string>, codes: seq<string>): (r: Result<string, string>)
    ensures r.Failure? <==> |names| != |codes|
    ensures r.Failure? ==> r.error == StatesLengthError
  {
    if |names| != |codes| then Failure(StatesLengthError)
    else Success(Statement(Doubled, StatesPrefix, Pairs(names, codes)))
  }

  /** `create_district_query` with the quotes inside each field doubled. */
  function CreateDistrictQueryEscaped(stateCode: string, names: seq<string>, codes: seq<string>): (r: Result<string, string>)
    ensures r.Failure? <==> |names| != |codes|
    ensures r.Failure? ==> r.error == DistrictsLengthError
  {
    if |names| != |codes| then Failure(DistrictsLengthError)
    else Success(Statement(Doubled, DistrictsPrefix, DistrictRows(stateCode, names, codes)))
  }

  // ---------------------------------------------------------------------------
  // Reading a statement back.
  // ---------------------------------------------------------------------------

  /** The body of a quoted field up to its closing quote, and what follows; a doubled quote stands for one. */
  function ReadQuoted(s: string): (r: Option<(string, string)>)
    ensures r.Some? ==> |r.value.1| < |s|
  {
    if s == [] then None
    else if s[0] == '\'' then
      if |s| >= 2 && s[1] == '\'' then
        match ReadQuoted(s[2..])
        case None => None
        case Some(p) => Some(("'" + p.0, p.1))
      else Some(([], s[1..]))
    else
      match ReadQuoted(s[1..])
      case None => None
      case Some(p) => Some(([s[0]] + p.0, p.1))
  }

  /** The fields of a tuple after its `(`, up to and including its `)`. */
  function ReadFields(s: string): (r: Option<(seq<string>, string)>)
    ensures r.Some? ==> |r.value.1| < |s|
    decreases |s|
  {
    if s == [] || s[0] != '\'' then None
    else match ReadQuoted(s[1..])
      case None => None
      case Some(p) =>
        var rest := p.1;
        if rest != [] && rest[0] == ')' then Some(([p.0], rest[1..]))
        else if |rest| >= 2 && rest[..2] == ", " then
          match ReadFields(rest[2..])
          case None => None
          case Some(more) => Some(([p.0] + more.0, more.1))
        else None
  }

  /** One or more tuples separated by ", " and ended by ";". */
  function ReadTuples(s: string): Option<seq<seq<string>>>
    decreases |s|
  {
    if s == [] || s[0] != '(' then None
    else match ReadFields(s[1..])
      case None => None
      case Some(p) =>
        var rest := p.1;
        if rest == ";" then Some([p.0])
        else if |rest| >= 2 && rest[..2] == ", " then
          match ReadTuples(rest[2..])
          case None => None
          case Some(more) => Some([p.0] + more)
        else None
  }

  /** The rows of a statement that starts with `prefix`. */
  function ReadStatement(prefix: string, s: string): Option<seq<seq<string>>>
  {
    if |prefix| <= |s| && s[..|prefix|] == prefix then
      var body := s[|prefix|..];
      if body == ";" then Some([]) else ReadTuples(body)
    else None
  }

  // ---------------------------------------------------------------------------
  // Round trips.
  // ---------------------------------------------------------------------------

  /** A field survives quoting: any field when quotes are doubled, a quote-free one otherwise. */
  predicate Quotable(q: Quoting, v: string)
  {
    q == Doubled || '\'' !in v
  }

  predicate RowsQuotable(q: Quoting, rows: seq<seq<string>>)
  {
    forall i, j :: 0 <= i < |rows| && 0 <= j < |rows[i]| ==> Quotable(q, rows[i][j])
  }

  /** A quoted field's body, its closing quote and what follows, built one character at a time. */
  function Encoded(v: string, rest: string): string
  {
    if v == [] then "'" + rest
    else if v[0] == '\'' then "''" + Encoded(v[1..], rest)
    else [v[0]] + Encoded(v[1..], rest)
  }

  /** Three-way concatenation regroups. */
  lemma AppendAssoc(a: string, b: string, c: string)
    ensures (a + b) + c == a + (b + c)
  {
  }

  /** The character-at-a-time form is the escaped body, a quote and the rest. */
  lemma {:induction false} EncodedIsEscaped(v: string, rest: string)
    ensures Encoded(v, rest) == DoubleQuotes(v) + "'" + rest
  {
    if v != [] {
      EncodedIsEscaped(v[1..], rest);
      var h := if v[0] == '\'' then "''" else [v[0]];
      var d := DoubleQuotes(v[1..]);
      assert DoubleQuotes(v) == h + d;
      AppendAssoc(h, d, "'");
      AppendAssoc(h, d + "'", rest);
    }
  }

  lemma {:induction false} ReadQuotedRoundTrip(v: string, rest: string)
    requires rest == [] || rest[0] != '\''
    ensures ReadQuoted(DoubleQuotes(v) + "'" + rest) == Some((v, rest))
  {
    EncodedIsEscaped(v, rest);
    ReadEncoded(v, rest);
  }

  /** Reading the character-at-a-time form gives the field and the rest back. */
  lemma {:induction false} ReadEncoded(v: string, rest: string)
    requires rest == [] || rest[0] != '\''
    ensures ReadQuoted(Encoded(v, rest)) == Some((v, rest))
  {
    if v == [] {
      assert ("'" + rest)[1..] == rest;
    } else {
      var tail := Encoded(v[1..], rest);
      ReadEncoded(v[1..], rest);
      if v[0] == '\'' {
        assert ("''" + tail)[2..] == tail;
        assert "'" + v[1..] == v;
      } else {
        assert ([v[0]] + tail)[1..] == tail;
        assert [v[0]] + v[1..] == v;
      }
    }
  }

  lemma RowsQuotableTail(q: Quoting, rows: seq<seq<string>>)
    requires rows != [] && RowsQuotable(q, rows)
    ensures RowsQuotable(q, rows[1..])
    ensures forall j :: 0 <= j < |rows[0]| ==> Quotable(q, rows[0][j])
  {
    forall i, j | 0 <= i < |rows[1..]| && 0 <= j < |rows[1..][i]| ensures Quotable(q, rows[1..][i][j]) {
      assert rows[1..][i] == rows[i + 1];
    }
  }

  /** The rows that can be read back: non-empty, with quotable fields. */
  predicate Readable(q: Quoting, rows: seq<seq<string>>)
  {
    (forall i :: 0 <= i < |rows| ==> rows[i] != []) && RowsQuotable(q, rows)
  }

  /** The fields of a tuple after its `(`, each quoted and followed by ", " or, for the last, by ")" and `rest`. */
  function FieldsEncoded(fields: seq<string>, rest: string): string
  {
    if fields == [] then ")" + rest
    else "'" + Encoded(fields[0], if |fields| == 1 then ")" + rest else ", " + FieldsEncoded(fields[1..], rest))
  }

  /** One or more tuples separated by ", " and ended by ";". */
  function TuplesEncoded(rows: seq<seq<string>>): string
  {
    if rows == [] then ";"
    else "(" + FieldsEncoded(rows[0], if |rows| == 1 then ";" else ", " + TuplesEncoded(rows[1..]))
  }

  /** Reading the last field of a tuple. */
  lemma ReadFieldsLast(enc: string, f: string, rest: string)
    requires ReadQuoted(enc) == Some((f, ")" + rest))
    ensures ReadFields("'" + enc) == Some(([f], rest))
  {
    var after := ")" + rest;
    assert ("'" + enc)[1..] == enc;
    assert after[0] == ')' && after[1..] == rest;
  }

  /** Reading a field followed by more fields. */
  lemma ReadFieldsMore(enc: string, f: string, later: string, more: (seq<string>, string))
    requires ReadQuoted(enc) == Some((f, ", " + later))
    requires ReadFields(later) == Some(more)
    ensures ReadFields("'" + enc) == Some(([f] + more.0, more.1))
  {
    var after := ", " + later;
    assert ("'" + enc)[1..] == enc;
    assert after[0] != ')' && after[..2] == ", " && after[2..] == later;
  }

  lemma {:induction false} ReadFieldsEncoded(fields: seq<string>, rest: string)
    requires fields != []
    ensures ReadFields(FieldsEncoded(fields, rest)) == Some((fields, rest))
  {
    if |fields| == 1 {
      ReadEncoded(fields[0], ")" + rest);
      ReadFieldsLast(Encoded(fields[0], ")" + rest), fields[0], rest);
      assert fields == [fields[0]];
    } else {
      var later := FieldsEncoded(fields[1..], rest);
      ReadFieldsEncoded(fields[1..], rest);
      ReadEncoded(fields[0], ", " + later);
      ReadFieldsMore(Encoded(fields[0], ", " + later), fields[0], later, (fields[1..], rest));
      assert [fields[0]] + fields[1..] == fields;
    }
  }

  /** Reading the last tuple of a statement. */
  lemma ReadTuplesLast(body: string, row: seq<string>)
    requires ReadFields(body) == Some((row, ";"))
    ensures ReadTuples("(" + body) == Some([row])
  {
    assert ("(" + body)[1..] == body;
  }

  /** Reading a tuple followed by more tuples. */
  lemma ReadTuplesMore(body: string, row: seq<string>, later: string, more: seq<seq<string>>)
    requires ReadFields(body) == Some((row, ", " + later))
    requires ReadTuples(later) == Some(more)
    ensures ReadTuples("(" + body) == Some([row] + more)
  {
    var after := ", " + later;
    assert ("(" + body)[1..] == body;
    assert after != ";" && after[..2] == ", " && after[2..] == later;
  }

  lemma {:induction false} ReadTuplesEncoded(rows: seq<seq<string>>)
    requires rows != [] && forall i :: 0 <= i < |rows| ==> rows[i] != []
    ensures ReadTuples(TuplesEncoded(rows)) == Some(rows)
  {
    if |rows| == 1 {
      ReadFieldsEncoded(rows[0], ";");
      ReadTuplesLast(FieldsEncoded(rows[0], ";"), rows[0]);
      assert rows == [rows[0]];
    } else {
      var later := TuplesEncoded(rows[1..]);
      assert forall i :: 0 <= i < |rows[1..]| ==> rows[1..][i] == rows[i + 1];
      ReadTuplesEncoded(rows[1..]);
      ReadFieldsEncoded(rows[0], ", " + later);
      ReadTuplesMore(FieldsEncoded(rows[0], ", " + later), rows[0], later, rows[1..]);
      assert [rows[0]] + rows[1..] == rows;
    }
  }

  /** A quoted field followed by `after` is the quote, the doubled body, the closing quote and `after`. */
  lemma QuotedEncoded(q: Quoting, f: string, after: string)
    requires Quotable(q, f)
    ensures "'" + Encoded(f, after) == Quote(q, f) + after
  {
    EncodedIsEscaped(f, after);
    var d := DoubleQuotes(f);
    assert Escape(q, f) == d;
    AppendAssoc("'" + d, "'", after);
    AppendAssoc("'", d + "'", after);
    AppendAssoc("'", d, "'");
  }

  /** The encoded fields are the joined quoted fields, then ")" and `rest`. */
  lemma {:induction false} FieldsEncodedIsJoin(q: Quoting, fields: seq<string>, rest: string)
    requires fields != []
    requires forall j :: 0 <= j < |fields| ==> Quotable(q, fields[j])
    ensures FieldsEncoded(fields, rest) == Join(", ", QuoteAll(q, fields)) + ")" + rest
  {
    var f := fields[0];
    var quoted := QuoteAll(q, fields);
    assert quoted[0] == Quote(q, f);
    if |fields| == 1 {
      QuotedEncoded(q, f, ")" + rest);
      assert Join(", ", quoted) == Quote(q, f);
      AppendAssoc(Quote(q, f), ")", rest);
    } else {
      var j := Join(", ", QuoteAll(q, fields[1..]));
      FieldsEncodedIsJoin(q, fields[1..], rest);
      QuotedEncoded(q, f, ", " + FieldsEncoded(fields[1..], rest));
      assert quoted[1..] == QuoteAll(q, fields[1..]);
      assert Join(", ", quoted) == Quote(q, f) + ", " + j;
      AppendAssoc(j, ")", rest);
      AppendAssoc(Quote(q, f), ", ", j + ")" + rest);
      AppendAssoc(Quote(q, f) + ", ", j, ")");
      AppendAssoc(Quote(q, f) + ", ", j + ")", rest);
      AppendAssoc(Quote(q, f) + ", " + j, ")", rest);
    }
  }

  /** The encoded tuples are the joined tuples, then ";". */
  lemma {:induction false} TuplesEncodedIsJoin(q: Quoting, rows: seq<seq<string>>)
    requires rows != [] && Readable(q, rows)
    ensures TuplesEncoded(rows) == Join(", ", TupleAll(q, rows)) + ";"
  {
    var row := rows[0];
    var j := Join(", ", QuoteAll(q, row));
    var tuples := TupleAll(q, rows);
    RowsQuotableTail(q, rows);
    assert tuples[0] == "(" + j + ")";
    if |rows| == 1 {
      FieldsEncodedIsJoin(q, row, ";");
      assert Join(", ", tuples) == "(" + j + ")";
      AppendAssoc("(", j + ")", ";");
      AppendAssoc("(", j, ")");
    } else {
      var later := Join(", ", TupleAll(q, rows[1..]));
      assert forall i :: 0 <= i < |rows[1..]| ==> rows[1..][i] == rows[i + 1];
      TuplesEncodedIsJoin(q, rows[1..]);
      FieldsEncodedIsJoin(q, row, ", " + TuplesEncoded(rows[1..]));
      assert tuples[1..] == TupleAll(q, rows[1..]);
      assert Join(", ", tuples) == tuples[0] + ", " + later;
      var t := "(" + j + ")";
      AppendAssoc("(", j, ")");
      AppendAssoc("(", j + ")", ", " + (later + ";"));
      AppendAssoc(t, ", ", later + ";");
      AppendAssoc(t + ", ", later, ";");
    }
  }

  lemma ReadTuplesRoundTrip(q: Quoting, rows: seq<seq<string>>)
    requires rows != [] && Readable(q, rows)
    ensures ReadTuples(Join(", ", TupleAll(q, rows)) + ";") == Some(rows)
  {
    TuplesEncodedIsJoin(q, rows);
    ReadTuplesEncoded(rows);
  }

  /** Reading a statement back yields exactly the rows it was built from, in order. */
  lemma StatementRoundTrip(q: Quoting, prefix: string, rows: seq<seq<string>>)
    requires forall i :: 0 <= i < |rows| ==> rows[i] != []
    requires RowsQuotable(q, rows)
    ensures ReadStatement(prefix, Statement(q, prefix, rows)) == Some(rows)
  {
    var s := Statement(q, prefix, rows);
    var body := Join(", ", TupleAll(q, rows)) + ";";
    assert s == prefix + body;
    assert s[..|prefix|] == prefix && s[|prefix|..] == body;
    if rows == [] {
      assert body == ";";
    } else {
      ReadTuplesRoundTrip(q, rows);
      assert body != ";" by {
        assert body[0] == '(';
      }
    }
  }

  /**
   * The corrected states statement reads back as one `(name, code)` row per
   * pair, in order, whatever the names and codes hold.
   */
  lemma InsertQueryEscapedRoundTrip(names: seq<string>, codes: seq<string>)
    requires |names| == |codes|
    ensures ReadStatement(StatesPrefix, CreateInsertQueryEscaped(names, codes).value) == Some(Pairs(names, codes))
  {
    StatementRoundTrip(Doubled, StatesPrefix, Pairs(names, codes));
  }

  /**
   * The corrected districts statement reads back as one row per pair, each
   * starting with the state code, in order.
   */
  lemma DistrictQueryEscapedRoundTrip(stateCode: string, names: seq<string>, codes: seq<string>)
    requires |names| == |codes|
    ensures ReadStatement(DistrictsPrefix, CreateDistrictQueryEscaped(stateCode, names, codes).value)
      == Some(DistrictRows(stateCode, names, codes))
  {
    StatementRoundTrip(Doubled, DistrictsPrefix, DistrictRows(stateCode, names, codes));
  }

  /**
   * The statement as written reads back as the pairs, in order, as long as no
   * name or code holds a single quote.
   */
  lemma InsertQueryRoundTrip(names: seq<string>, codes: seq<string>)
    requires |names| == |codes|
    requires forall i :: 0 <= i < |names| ==> '\'' !in names[i] && '\'' !in codes[i]
    ensures ReadStatement(StatesPrefix, CreateInsertQuery(names, codes).value) == Some(Pairs(names, codes))
  {
    var rows := Pairs(names, codes);
    forall i, j | 0 <= i < |rows| && 0 <= j < |rows[i]| ensures Quotable(Verbatim, rows[i][j]) {
      assert rows[i] == [names[i], codes[i]];
    }
    StatementRoundTrip(Verbatim, StatesPrefix, rows);
  }

  /**
   * The district statement as written: one row per pair behind the state code,
   * in order, as long as no field holds a single quote.
   */
  lemma DistrictQueryRoundTrip(stateCode: string, names: seq<string>, codes: seq<string>)
    requires |names| == |codes|
    requires '\'' !in stateCode
    requires forall i :: 0 <= i < |names| ==> '\'' !in names[i] && '\'' !in codes[i]
    ensures ReadStatement(DistrictsPrefix, CreateDistrictQuery(stateCode, names, codes).value)
      == Some(DistrictRows(stateCode, names, codes))
  {
    var rows := DistrictRows(stateCode, names, codes);
    forall i, j | 0 <= i < |rows| && 0 <= j < |rows[i]| ensures Quotable(Verbatim, rows[i][j]) {
      assert rows[i] == [stateCode, names[i], codes[i]];
    }
    StatementRoundTrip(Verbatim, DistrictsPrefix, rows);
  }

  /** A two-field tuple: its two quoted fields between parentheses. */
  lemma PairTuple(q: Quoting, n: string, c: string)
    ensures Tuple(q, [n, c]) == "(" + (Quote(q, n) + ", " + Quote(q, c)) + ")"
  {
    var quoted := QuoteAll(q, [n, c]);
    assert [n, c][1..] == [c] && [c][1..] == [];
    assert QuoteAll(q, [c]) == [Quote(q, c)];
    assert quoted == [Quote(q, n)] + [Quote(q, c)];
    assert quoted[1..] == [Quote(q, c)];
    assert Join(", ", quoted) == Quote(q, n) + ", " + Quote(q, c);
  }

  /** A one-row statement is the prefix, that row's tuple and ";". */
  lemma OneRowStatement(q: Quoting, prefix: string, row: seq<string>)
    ensures Statement(q, prefix, [row]) == prefix + Tuple(q, row) + ";"
  {
    assert TupleAll(q, [row]) == [Tuple(q, row)];
  }

  /** The quote-comma-quote inside a field lines up with the one between two fields. */
  lemma Regroup(quote: string, comma: string, x: string, y: string, z: string)
    ensures (quote + (x + (quote + comma + quote) + y) + quote) + comma + (quote + z + quote)
         == (quote + x + quote) + comma + (quote + (y + (quote + comma + quote) + z) + quote)
  {
  }

  /**
   * As written, a quote inside a name is pasted into the statement unchanged, so
   * the pair (x', 'y, z) reads the same as the pair (x, y', 'z).
   */
  lemma QuoteInFieldCollides(x: string, y: string, z: string)
    ensures CreateInsertQuery([x + "', '" + y], [z]) == CreateInsertQuery([x], [y + "', '" + z])
  {
    var sep := "', '";
    assert sep == "'" + ", " + "'";
    var n1, c2 := x + sep + y, y + sep + z;
    assert Pairs([n1], [z]) == [[n1, z]];
    assert Pairs([x], [c2]) == [[x, c2]];
    OneRowStatement(Verbatim, StatesPrefix, [n1, z]);
    OneRowStatement(Verbatim, StatesPrefix, [x, c2]);
    PairTuple(Verbatim, n1, z);
    PairTuple(Verbatim, x, c2);
    Regroup("'", ", ", x, y, z);
    assert Quote(Verbatim, n1) + ", " + Quote(Verbatim, z) == Quote(Verbatim, x) + ", " + Quote(Verbatim, c2);
  }

  /**
   * Two different inputs give the same text: the statement cannot say which
   * rows were meant.
   */
  lemma QuoteInNameCollides()
    ensures CreateInsertQuery(["a', 'b"], ["c"]) == CreateInsertQuery(["a"], ["b', 'c"])
    ensures (["a', 'b"], ["c"]) != (["a"], ["b', 'c"])
  {
    QuoteInFieldCollides("a", "b", "c");
    assert "a" + "', '" + "b" == "a', 'b";
    assert "b" + "', '" + "c" == "b', 'c";
    assert ["a', 'b"][0] != ["a"][0];
  }
}
