/**
 * The option harvester: how the navigator turns a dependent dropdown's options
 * into the values it selects (navigator.py `get_districts`, `get_court_complexes`,
 * `navigate_district`; the same rules in prev_scraper.py).
 */
module Dropdowns {
  import opened Wrappers
  import opened Seqs
  import opened Text

  /** One `<option>` of a dropdown: its text content and its `value` attribute. */
  datatype DropdownOption = DropdownOption(text: string, value: string)

  /** `text.lower().strip().replace(" ", "_")`: the label form that is tested and kept. */
  function NormalisedLabel(text: string): string
  {
    SpacesToUnderscores(PyStrip(Lower(text)))
  }

  /** Python's `any(sub in s for sub in subs)`. */
  predicate ContainsAny(s: string, subs: seq<string>)
  {
    subs != [] && (Contains(s, subs[0]) || ContainsAny(s, subs[1..]))
  }

  const Select: string := "select"
  const DistrictPlaceholders: seq<string> := [Select, Select + "_district"]
  const CourtComplexPlaceholders: seq<string> := [Select + "_court_complex", Select]

  /** The test of `get_districts`, on the normalised label. */
  predicate IsDistrictPlaceholder(o: DropdownOption)
  {
    ContainsAny(NormalisedLabel(o.text), DistrictPlaceholders)
  }

  predicate IsDistrict(o: DropdownOption)
  {
    !IsDistrictPlaceholder(o)
  }

  /** The test of `get_court_complexes`, on the normalised label. */
  predicate IsCourtComplexPlaceholder(o: DropdownOption)
  {
    ContainsAny(NormalisedLabel(o.text), CourtComplexPlaceholders)
  }

  predicate IsCourtComplex(o: DropdownOption)
  {
    !IsCourtComplexPlaceholder(o)
  }

  /** The test of `navigate_district`, on a label the page has already trimmed. */
  predicate IsTrimmedDistrict(o: DropdownOption)
  {
    !ContainsAny(Lower(o.text), DistrictPlaceholders)
  }

  /** The label, lower-cased, mentions "select": what every placeholder test amounts to. */
  predicate MentionsSelect(o: DropdownOption)
  {
    Contains(Lower(o.text), "select")
  }

  /** Both placeholder lists reduce to the single word "select", which the longer entries contain. */
  lemma ContainsAnyPlaceholders(s: string)
    ensures ContainsAny(s, DistrictPlaceholders) <==> Contains(s, "select")
    ensures ContainsAny(s, CourtComplexPlaceholders) <==> Contains(s, "select")
  {
    ContainsAnyExtended(s, Select, "_district");
    ContainsAnyExtended(s, Select, "_court_complex");
  }

  /** Listing a word together with a longer word that begins with it tests for the word alone, in either order. */
  lemma ContainsAnyExtended(s: string, w: string, x: string)
    ensures ContainsAny(s, [w, w + x]) <==> Contains(s, w)
    ensures ContainsAny(s, [w + x, w]) <==> Contains(s, w)
  {
    ContainsAnyCons(s, w, [w + x]);
    ContainsAnyCons(s, w + x, [w]);
    ContainsAnyCons(s, w + x, []);
    ContainsAnyCons(s, w, []);
    assert [w, w + x] == [w] + [w + x] && [w + x, w] == [w + x] + [w];
    assert [w] == [w] + [] && [w + x] == [w + x] + [];
    PrefixContained(w, x);
    if Contains(s, w + x) {
      ContainsTransitive(s, w + x, w);
    }
  }

  /** `any(sub in s for sub in [w] + ws)` tests `w` first, then the rest. */
  lemma ContainsAnyCons(s: string, w: string, ws: seq<string>)
    ensures ContainsAny(s, [w] + ws) <==> Contains(s, w) || ContainsAny(s, ws)
  {
    assert ([w] + ws)[0] == w && ([w] + ws)[1..] == ws;
  }

  /** A word occurs in every string it begins. */
  lemma PrefixContained(w: string, x: string)
    ensures Contains(w + x, w)
  {
    assert (w + x)[..|w|] == w;
  }

  /** Lower-casing and slicing commute. */
  lemma LowerSlice(s: string, a: nat, b: nat)
    requires a <= b <= |s|
    ensures Lower(s[a..b]) == Lower(s)[a..b]
  {
    forall i | 0 <= i < b - a ensures Lower(s[a..b])[i] == Lower(s)[a..b][i] {
      assert s[a..b][i] == s[a + i];
    }
  }

  /** Normalising a label in Python does not change whether it mentions "select". */
  lemma NormalisedMentionsSelect(t: string)
    ensures Contains(NormalisedLabel(t), "select") <==> Contains(Lower(t), "select")
  {
    var low := Lower(t);
    LowerAt(t);
    ContainsAfterUnderscores(PyStrip(low), "select");
    var ab := TrimBounds(low, Python);
    TrimBoundsSpec(low, Python);
    TrimIsSlice(low, Python);
    ContainsInSlice(low, ab.0, ab.1, "select");
  }

  /** Trimming a label in the page does not change whether it mentions "select". */
  lemma TrimmedMentionsSelect(t: string)
    ensures Contains(Lower(JsTrim(t)), "select") <==> Contains(Lower(t), "select")
  {
    var low := Lower(t);
    LowerAt(t);
    var cd := TrimBounds(t, JavaScript);
    TrimBoundsSpec(t, JavaScript);
    TrimIsSlice(t, JavaScript);
    LowerSlice(t, cd.0, cd.1);
    forall j | 0 <= j < |low| && (j < cd.0 || cd.1 <= j)
      ensures low[j] !in "select"
    {
      assert IsJsSpace(t[j]);
    }
    ContainsInSlice(low, cd.0, cd.1, "select");
  }

  /**
   * The three placeholder tests of the source agree: whether the label is
   * normalised in Python or trimmed in the page first, an option is a placeholder
   * exactly when its lower-cased label mentions "select".
   */
  lemma PlaceholderTestsAgree(o: DropdownOption)
    ensures IsDistrictPlaceholder(o) <==> MentionsSelect(o)
    ensures IsCourtComplexPlaceholder(o) <==> MentionsSelect(o)
    ensures IsTrimmedDistrict(DropdownOption(JsTrim(o.text), o.value)) <==> !MentionsSelect(o)
  {
    ContainsAnyPlaceholders(NormalisedLabel(o.text));
    ContainsAnyPlaceholders(Lower(JsTrim(o.text)));
    NormalisedMentionsSelect(o.text);
    TrimmedMentionsSelect(o.text);
  }

  /** The district test of `get_districts`, stated once for every option. */
  lemma DistrictMeansNoSelect()
    ensures forall o :: IsDistrict(o) <==> !MentionsSelect(o)
  {
    forall o: DropdownOption ensures IsDistrict(o) <==> !MentionsSelect(o) {
      PlaceholderTestsAgree(o);
    }
  }

  /** An option that is not a placeholder under any of the tests. */
  predicate NoSelect(o: DropdownOption)
  {
    !MentionsSelect(o)
  }

  /** Filtering with the Python district test keeps exactly the options whose label does not mention "select". */
  lemma DistrictFilter(opts: seq<DropdownOption>)
    ensures Filter(IsDistrict, opts) == Filter(NoSelect, opts)
  {
    forall i | 0 <= i < |opts| ensures IsDistrict(opts[i]) == NoSelect(opts[i]) {
      PlaceholderTestsAgree(opts[i]);
    }
    FilterCongruent(IsDistrict, NoSelect, opts);
  }

  /** Filtering with the court complex test keeps exactly the options whose label does not mention "select". */
  lemma CourtComplexFilter(opts: seq<DropdownOption>)
    ensures Filter(IsCourtComplex, opts) == Filter(NoSelect, opts)
  {
    forall i | 0 <= i < |opts| ensures IsCourtComplex(opts[i]) == NoSelect(opts[i]) {
      PlaceholderTestsAgree(opts[i]);
    }
    FilterCongruent(IsCourtComplex, NoSelect, opts);
  }

  /** The texts of some options, in order. */
  function Texts(opts: seq<DropdownOption>): (r: seq<string>)
    ensures |r| == |opts|
  {
    seq(|opts|, i requires 0 <= i < |opts| => opts[i].text)
  }

  /** The values of some options, in order. */
  function Values(opts: seq<DropdownOption>): (r: seq<string>)
    ensures |r| == |opts|
  {
    seq(|opts|, i requires 0 <= i < |opts| => opts[i].value)
  }

  /** The label the browser gives an option without a `label` attribute: its text, stripped and collapsed. */
  function Label(o: DropdownOption): string
  {
    CollapseSpaces(o.text)
  }

  /** The option is the one a string argument `v` of `select_option` asks for: by its value or by its label. */
  predicate SelectMatches(v: string, o: DropdownOption)
  {
    o.value == v || Label(o) == v
  }

  /**
   * Playwright's `select_option(v)` with one string, passed by position or as
   * `value=`: the position of the first option whose value or label is `v`;
   * `None` when there is none, and the call fails.
   */
  function SelectOption(opts: seq<DropdownOption>, v: string): (r: Option<nat>)
    ensures r.Some? ==> r.value < |opts| && (opts[r.value].value == v || Label(opts[r.value]) == v)
    ensures r.Some? ==> forall j :: 0 <= j < r.value ==> opts[j].value != v && Label(opts[j]) != v
    ensures r.None? <==> forall j :: 0 <= j < |opts| ==> opts[j].value != v && Label(opts[j]) != v
  {
    FirstIndex((o: DropdownOption) => SelectMatches(v, o), opts)
  }

  /**
   * An option whose text is already in label form is found by that text,
   * unless an earlier option has it as its value or label.
   */
  lemma SelectOwnText(opts: seq<DropdownOption>, i: nat)
    requires i < |opts| && IsCollapsed(opts[i].text)
    requires forall j :: 0 <= j < i ==> opts[j].value != opts[i].text && Label(opts[j]) != opts[i].text
    ensures SelectOption(opts, opts[i].text) == Some(i)
  {
    CollapseSpacesFixed(opts[i].text);
    FirstIndexAt((o: DropdownOption) => SelectMatches(opts[i].text, o), opts, i);
  }

  /**
   * Every label is in collapsed form, so a string that is not is no option's
   * label: the call finds an option only if one has that string as its value.
   */
  lemma SelectUncollapsed(opts: seq<DropdownOption>, v: string)
    requires !IsCollapsed(v)
    ensures SelectOption(opts, v).None? <==> forall j :: 0 <= j < |opts| ==> opts[j].value != v
  {
  }

  /**
   * The decision of `get_districts`: the value of the first option that is not a
   * placeholder, or `None` when every option is one.
   */
  function FirstDistrictValue(opts: seq<DropdownOption>): Option<string>
  {
    match FirstIndex(IsDistrict, opts)
    case None => None
    case Some(i) => Some(opts[i].value)
  }

  /**
   * `get_districts` answers `None` (explicitly, or implicitly in the older copy)
   * exactly when every label mentions "select", and otherwise the value of the
   * first option whose label does not.
   */
  lemma FirstDistrictValueSpec(opts: seq<DropdownOption>)
    ensures FirstDistrictValue(opts).None? <==> forall i :: 0 <= i < |opts| ==> MentionsSelect(opts[i])
    ensures FirstDistrictValue(opts).Some? ==>
      exists i :: 0 <= i < |opts| && FirstDistrictValue(opts).value == opts[i].value
             && !MentionsSelect(opts[i])
             && (forall j :: 0 <= j < i ==> MentionsSelect(opts[j]))
  {
    DistrictMeansNoSelect();
    match FirstIndex(IsDistrict, opts)
    case None =>
    case Some(i) =>
      assert !MentionsSelect(opts[i]);
  }

  /** `get_districts`: scans the options in order and returns at the first real district. */
  method GetDistricts(opts: seq<DropdownOption>) returns (r: Option<string>)
    ensures r == FirstDistrictValue(opts)
  {
    var i := 0;
    while i < |opts|
      invariant 0 <= i <= |opts|
      invariant forall j :: 0 <= j < i ==> !IsDistrict(opts[j])
    {
      if !IsDistrict(opts[i]) {
        i := i + 1;
        continue;
      }
      FirstIndexAt(IsDistrict, opts, i);
      return Some(opts[i].value);
    }
    FirstIndexNone(IsDistrict, opts);
    return None;
  }

  /** The normalised labels of some options, in order. */
  function NormalisedLabels(opts: seq<DropdownOption>): (r: seq<string>)
    ensures |r| == |opts|
  {
    seq(|opts|, i requires 0 <= i < |opts| => NormalisedLabel(opts[i].text))
  }

  /**
   * The lists `get_court_complexes` returns: the normalised names and the values
   * of the options that are not placeholders, in option order.
   */
  function CourtComplexes(opts: seq<DropdownOption>): (seq<string>, seq<string>)
  {
    var kept := Filter(IsCourtComplex, opts);
    (NormalisedLabels(kept), Values(kept))
  }

  /**
   * `get_court_complexes` returns two lists of equal length whose position `i`
   * describes the same option: the options whose label does not mention
   * "select", in their order on the page.
   */
  lemma CourtComplexesSpec(opts: seq<DropdownOption>)
    ensures |CourtComplexes(opts).0| == |CourtComplexes(opts).1|
    ensures CourtComplexes(opts).0 == NormalisedLabels(Filter(NoSelect, opts))
    ensures CourtComplexes(opts).1 == Values(Filter(NoSelect, opts))
  {
    CourtComplexFilter(opts);
  }

  /** No name `get_court_complexes` returns mentions "select". */
  lemma CourtComplexNamesClean(opts: seq<DropdownOption>)
    ensures forall i :: 0 <= i < |CourtComplexes(opts).0| ==> !Contains(CourtComplexes(opts).0[i], "select")
  {
    var kept := Filter(NoSelect, opts);
    CourtComplexesSpec(opts);
    FilterMembers(NoSelect, opts);
    forall i | 0 <= i < |kept| ensures !Contains(NormalisedLabel(kept[i].text), "select") {
      assert kept[i] in kept;
      NormalisedMentionsSelect(kept[i].text);
    }
  }

  /** Harvesting one more option appends its name and code exactly when it is a real complex. */
  lemma CourtComplexesSnoc(opts: seq<DropdownOption>, o: DropdownOption)
    ensures CourtComplexes(opts + [o]).0 == CourtComplexes(opts).0 + (if IsCourtComplex(o) then [NormalisedLabel(o.text)] else [])
    ensures CourtComplexes(opts + [o]).1 == CourtComplexes(opts).1 + (if IsCourtComplex(o) then [o.value] else [])
  {
    var kept := Filter(IsCourtComplex, opts);
    FilterSnoc(IsCourtComplex, opts, o);
    if IsCourtComplex(o) {
      LabelsValuesAppend(kept, [o]);
      assert NormalisedLabels([o]) == [NormalisedLabel(o.text)] && Values([o]) == [o.value];
    } else {
      assert Filter(IsCourtComplex, opts + [o]) == kept;
    }
  }

  /**
   * `get_court_complexes`: one pass over the options, appending the name and the
   * code of each real complex.
   */
  method GetCourtComplexes(opts: seq<DropdownOption>) returns (names: seq<string>, codes: seq<string>)
    ensures (names, codes) == CourtComplexes(opts)
    ensures |names| == |codes|
    ensures forall i :: 0 <= i < |names| ==> !Contains(names[i], "select")
  {
    names, codes := [], [];
    var i := 0;
    while i < |opts|
      invariant 0 <= i <= |opts|
      invariant names == CourtComplexes(opts[..i]).0
      invariant codes == CourtComplexes(opts[..i]).1
    {
      CourtComplexesSnoc(opts[..i], opts[i]);
      assert opts[..i + 1] == opts[..i] + [opts[i]];
      if IsCourtComplex(opts[i]) {
        names := names + [NormalisedLabel(opts[i].text)];
        codes := codes + [opts[i].value];
      }
      i := i + 1;
    }
    assert opts[..i] == opts;
    CourtComplexNamesClean(opts);
  }

  /** The labels as the page script trims them, in order. */
  function TrimmedTexts(opts: seq<DropdownOption>): (r: seq<string>)
    ensures |r| == |opts|
  {
    seq(|opts|, i requires 0 <= i < |opts| => JsTrim(opts[i].text))
  }

  /** The `(text, value)` records the page script returns, each text trimmed. */
  function PageOptions(opts: seq<DropdownOption>): (r: seq<DropdownOption>)
    ensures |r| == |opts|
  {
    seq(|opts|, i requires 0 <= i < |opts| => DropdownOption(JsTrim(opts[i].text), opts[i].value))
  }

  /**
   * `navigate_district`: the trimmed names and the codes of the district options
   * that are not placeholders, as two lists; `([], [])` when none survives.
   */
  function NavigateDistrict(opts: seq<DropdownOption>): (r: (seq<string>, seq<string>))
    ensures |r.0| == |r.1|
  {
    var valid := Filter(IsTrimmedDistrict, PageOptions(opts));
    (Texts(valid), Values(valid))
  }

  lemma PageOptionsAppend(a: seq<DropdownOption>, b: seq<DropdownOption>)
    ensures PageOptions(a + b) == PageOptions(a) + PageOptions(b)
  {
    var l, r := PageOptions(a + b), PageOptions(a) + PageOptions(b);
    forall i | 0 <= i < |l| ensures l[i] == r[i] {
      if i < |a| {
        assert (a + b)[i] == a[i];
      } else {
        assert (a + b)[i] == b[i - |a|];
      }
    }
  }

  lemma LabelsValuesAppend(a: seq<DropdownOption>, b: seq<DropdownOption>)
    ensures NormalisedLabels(a + b) == NormalisedLabels(a) + NormalisedLabels(b)
    ensures Values(a + b) == Values(a) + Values(b)
  {
    assert NormalisedLabels(a + b) == NormalisedLabels(a) + NormalisedLabels(b);
    assert Values(a + b) == Values(a) + Values(b);
  }

  lemma TextsValuesAppend(a: seq<DropdownOption>, b: seq<DropdownOption>)
    ensures Texts(a + b) == Texts(a) + Texts(b)
    ensures TrimmedTexts(a + b) == TrimmedTexts(a) + TrimmedTexts(b)
    ensures Values(a + b) == Values(a) + Values(b)
  {
    assert Texts(a + b) == Texts(a) + Texts(b);
    assert TrimmedTexts(a + b) == TrimmedTexts(a) + TrimmedTexts(b);
    assert Values(a + b) == Values(a) + Values(b);
  }

  /** `navigate_district` keeps relative order: harvesting two runs of options is harvesting each. */
  lemma NavigateDistrictAppend(a: seq<DropdownOption>, b: seq<DropdownOption>)
    ensures NavigateDistrict(a + b).0 == NavigateDistrict(a).0 + NavigateDistrict(b).0
    ensures NavigateDistrict(a + b).1 == NavigateDistrict(a).1 + NavigateDistrict(b).1
  {
    PageOptionsAppend(a, b);
    FilterAppend(IsTrimmedDistrict, PageOptions(a), PageOptions(b));
    TextsValuesAppend(Filter(IsTrimmedDistrict, PageOptions(a)), Filter(IsTrimmedDistrict, PageOptions(b)));
  }

  /** `navigate_district` on a single option. */
  lemma NavigateDistrictOne(o: DropdownOption)
    ensures NavigateDistrict([o]) == if NoSelect(o) then ([JsTrim(o.text)], [o.value]) else ([], [])
  {
    var p := DropdownOption(JsTrim(o.text), o.value);
    PlaceholderTestsAgree(o);
    assert PageOptions([o]) == [p];
    assert [p][1..] == [];
    assert Filter(IsTrimmedDistrict, [p]) == if IsTrimmedDistrict(p) then [p] else [];
    assert Texts([p]) == [p.text] && Values([p]) == [p.value];
  }

  /**
   * `navigate_district` lists, in page order, the trimmed names and the codes of
   * exactly the options whose label does not mention "select".
   */
  lemma {:induction false} NavigateDistrictSpec(opts: seq<DropdownOption>)
    ensures NavigateDistrict(opts).0 == TrimmedTexts(Filter(NoSelect, opts))
    ensures NavigateDistrict(opts).1 == Values(Filter(NoSelect, opts))
  {
    if opts != [] {
      var o, rest := opts[0], opts[1..];
      assert opts == [o] + rest;
      NavigateDistrictAppend([o], rest);
      NavigateDistrictOne(o);
      NavigateDistrictSpec(rest);
      var kept := if NoSelect(o) then [o] else [];
      assert Filter(NoSelect, opts) == kept + Filter(NoSelect, rest);
      TextsValuesAppend(kept, Filter(NoSelect, rest));
    }
  }

  /**
   * `get_districts` picks exactly the first code `navigate_district` lists, so the
   * two harvesters of the district dropdown never disagree.
   */
  lemma FirstDistrictIsFirstNavigated(opts: seq<DropdownOption>)
    ensures FirstDistrictValue(opts) == (if NavigateDistrict(opts).1 == [] then None else Some(NavigateDistrict(opts).1[0]))
  {
    NavigateDistrictSpec(opts);
    DistrictFilter(opts);
    FirstIndexIsFilterHead(IsDistrict, opts);
  }
}
