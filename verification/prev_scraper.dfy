/**
 * The earlier single-pass driver (prev_scraper.py `navigate_state`): select
 * the first real state, its first real district, then walk the district's
 * court complexes until one whose act dropdown holds more than its
 * placeholder, write that dropdown out as act-code rows, and search the first
 * IPC act there. What the page shows after each selection is a parameter.
 */
module PrevScraper {
  import opened Wrappers
  import opened Seqs
  import opened Text
  import opened Dropdowns
  import opened IpcRegex
  import ActSearch

  // ---------------------------------------------------------------------------
  // The state placeholder test.
  // ---------------------------------------------------------------------------

  const StateMarkers: seq<string> := [Select, "state", Select + "_state"]

  /** The skip test as written: the markers are looked for in the raw, un-lowered option text. */
  predicate IsStatePlaceholderAsWritten(text: string)
  {
    ContainsAny(text, StateMarkers)
  }

  /** The skip test as intended: the same markers, looked for in the lower-cased text. */
  predicate IsStatePlaceholder(text: string)
  {
    ContainsAny(Lower(text), StateMarkers)
  }

  /** The three markers reduce to two: "select_state" contains both of the others. */
  lemma StateMarkersReduce(s: string)
    ensures ContainsAny(s, StateMarkers) <==> Contains(s, "select") || Contains(s, "state")
  {
    ContainsAnyCons(s, Select, ["state", Select + "_state"]);
    ContainsAnyCons(s, "state", [Select + "_state"]);
    ContainsAnyCons(s, Select + "_state", []);
    assert StateMarkers == [Select] + ["state", Select + "_state"];
    assert ["state", Select + "_state"] == ["state"] + [Select + "_state"];
    assert [Select + "_state"] == [Select + "_state"] + [];
    PrefixContained(Select, "_state");
    if Contains(s, Select + "_state") {
      ContainsTransitive(s, Select + "_state", Select);
    }
  }

  /** A word with a character that `s` lacks does not occur in `s`. */
  lemma MissingCharNotContained(s: string, w: string, k: nat)
    requires k < |w| && w[k] !in s
    ensures !Contains(s, w)
  {
    ContainsSpec(s, w);
    forall i | 0 <= i <= |s| - |w| ensures !OccursAt(s, w, i) {
      assert s[i..i + |w|][k] == s[i + k];
    }
  }

  /** Every marker holds a lower-case "s", so a text without one is never skipped by the test as written. */
  lemma NoLowerSNotSkippedAsWritten(t: string)
    requires 's' !in t
    ensures !IsStatePlaceholderAsWritten(t)
  {
    StateMarkersReduce(t);
    MissingCharNotContained(t, "select", 0);
    MissingCharNotContained(t, "state", 0);
  }

  /** The page's own placeholder, "Select State", is not skipped by the test as written. */
  lemma SelectStateNotSkippedAsWritten()
    ensures !IsStatePlaceholderAsWritten("Select State")
  {
    var t := "Select State";
    assert 's' !in t by {
      assert t == ['S', 'e', 'l', 'e', 'c', 't', ' ', 'S', 't', 'a', 't', 'e'];
    }
    NoLowerSNotSkippedAsWritten(t);
  }

  /** The corrected test skips every text that opens with "Select". */
  lemma CapitalisedSelectSkipped(t: string)
    requires |t| >= 6 && t[..6] == "Select"
    ensures IsStatePlaceholder(t)
  {
    var low := Lower(t);
    StateMarkersReduce(low);
    LowerAt(t);
    assert t[0] == 'S' && t[1] == 'e' && t[2] == 'l' && t[3] == 'e' && t[4] == 'c' && t[5] == 't';
    assert low[..6] == "select";
  }

  /** The corrected test skips "Select State". */
  lemma SelectStateSkipped()
    ensures IsStatePlaceholder("Select State")
  {
    CapitalisedSelectSkipped("Select State");
  }

  /** Lower-casing leaves a word without capitals where it was. */
  lemma OccursAtLower(s: string, w: string, i: int)
    requires OccursAt(s, w, i) && forall k :: 0 <= k < |w| ==> LowerChar(w[k]) == w[k]
    ensures OccursAt(Lower(s), w, i)
  {
    LowerAt(s);
    forall k | 0 <= k < |w| ensures Lower(s)[i..i + |w|][k] == w[k] {
      assert s[i..i + |w|][k] == s[i + k];
    }
  }

  /** `w in s` survives lower-casing `s` when `w` has no capitals. */
  lemma ContainsLower(s: string, w: string)
    requires forall k :: 0 <= k < |w| ==> LowerChar(w[k]) == w[k]
    ensures Contains(s, w) ==> Contains(Lower(s), w)
  {
    if Contains(s, w) {
      ContainsSpec(s, w);
      ContainsSpec(Lower(s), w);
      var i :| 0 <= i <= |s| - |w| && OccursAt(s, w, i);
      OccursAtLower(s, w, i);
    }
  }

  /** The corrected test skips every option the test as written skips (and more: the capitalised placeholder). */
  lemma CorrectedSkipsMore(text: string)
    ensures IsStatePlaceholderAsWritten(text) ==> IsStatePlaceholder(text)
  {
    StateMarkersReduce(text);
    StateMarkersReduce(Lower(text));
    ContainsLower(text, "select");
    ContainsLower(text, "state");
  }

  // ---------------------------------------------------------------------------
  // The act-code rows (`download_act_codes`).
  // ---------------------------------------------------------------------------

  /** One CSV row: the option's text under "Act Name" and its value under "Act Code". */
  datatype ActCodeRow = ActCodeRow(actName: string, actCode: string)

  /** One row per option of the act dropdown, placeholder included, in option order. */
  function ActCodeRows(opts: seq<DropdownOption>): (rows: seq<ActCodeRow>)
    ensures |rows| == |opts|
  {
    if opts == [] then [] else [ActCodeRow(opts[0].text, opts[0].value)] + ActCodeRows(opts[1..])
  }

  /** Reading the rows back as options. */
  function OptionsOf(rows: seq<ActCodeRow>): (opts: seq<DropdownOption>)
    ensures |opts| == |rows|
  {
    if rows == [] then [] else [DropdownOption(rows[0].actName, rows[0].actCode)] + OptionsOf(rows[1..])
  }

  /** Row `i` carries option `i`: nothing is dropped, reordered or invented. */
  lemma {:induction false} ActCodeRowsSpec(opts: seq<DropdownOption>)
    ensures forall i :: 0 <= i < |opts| ==>
      ActCodeRows(opts)[i].actName == opts[i].text && ActCodeRows(opts)[i].actCode == opts[i].value
  {
    if opts != [] {
      ActCodeRowsSpec(opts[1..]);
      forall i | 1 <= i < |opts|
        ensures ActCodeRows(opts)[i].actName == opts[i].text && ActCodeRows(opts)[i].actCode == opts[i].value
      {
        assert ActCodeRows(opts)[i] == ActCodeRows(opts[1..])[i - 1];
      }
    }
  }

  /** The CSV holds the whole dropdown: reading it back gives the options again. */
  lemma {:induction false} ActCodeRowsRoundTrip(opts: seq<DropdownOption>)
    ensures OptionsOf(ActCodeRows(opts)) == opts
  {
    if opts != [] {
      ActCodeRowsRoundTrip(opts[1..]);
      assert ActCodeRows(opts)[1..] == ActCodeRows(opts[1..]);
    }
  }

  // ---------------------------------------------------------------------------
  // `navigate_state`.
  // ---------------------------------------------------------------------------

  /** What the page shows once a value is selected at the level above. */
  type Page = string -> seq<DropdownOption>

  /** How a run of `navigate_state` ends. */
  datatype Visit =
    | NoState                                                   // every state option is a placeholder
    | NoDistrict(state: string)                                 // `get_districts` gave nothing usable
    | NoCourt(state: string, district: string)                  // no complex, or each one's act dropdown has only its placeholder
    | NoIpcAct(state: string, district: string, court: string,  // `ipc_related_codes[0]` raises IndexError
               csv: seq<ActCodeRow>)
    | ActNotSelected(state: string, district: string, court: string,  // `select_option` finds no such act and fails
                     csv: seq<ActCodeRow>)
    | Searched(state: string, district: string, court: string,
               csv: seq<ActCodeRow>, steps: seq<ActSearch.Step>)

  /** The complex-skip rule: a complex is passed over when its act dropdown holds exactly one option. */
  predicate HasActs(actsFor: Page, court: string)
  {
    |actsFor(court)| != 1
  }

  /**
   * The search in the chosen complex: the act-code rows, then the first IPC
   * act text handed to the positional `select_option`, which looks for an
   * option with that value or label.
   */
  function SearchCourt(state: string, district: string, court: string, acts: seq<DropdownOption>): Visit
  {
    var csv := ActCodeRows(acts);
    var ipc := IpcRelated(Texts(acts));
    if ipc == [] then NoIpcAct(state, district, court, csv)
    else match SelectOption(acts, ipc[0])
      case None => ActNotSelected(state, district, court, csv)
      case Some(_) => Searched(state, district, court, csv, [ActSearch.SelectAct(ipc[0])] + ActSearch.FormSteps)
  }

  /** The walk over the complexes: the first whose act dropdown does not hold exactly one option is searched. */
  function VisitCourts(state: string, district: string, codes: seq<string>, actsFor: Page): (v: Visit)
    ensures v.NoCourt? || v.NoIpcAct? || v.ActNotSelected? || v.Searched?
    ensures v.state == state && v.district == district
  {
    match FirstIndex((c: string) => HasActs(actsFor, c), codes)
    case None => NoCourt(state, district)
    case Some(k) => SearchCourt(state, district, codes[k], actsFor(codes[k]))
  }

  /** After the state is selected: its first real district, if `get_districts` gives a non-empty one. */
  function VisitDistrict(state: string, districtsFor: Page, complexesFor: Page, actsFor: Page): (v: Visit)
    ensures !v.NoState? && v.state == state
  {
    match FirstDistrictValue(districtsFor(state))
    case None => NoDistrict(state)
    case Some(d) =>
      if d == "" then NoDistrict(state)
      else VisitCourts(state, d, CourtComplexes(complexesFor(d)).1, actsFor)
  }

  /**
   * `navigate_state` under a given state-skip test: only the first state the
   * test keeps and its first real district are visited, and the walk over the
   * complexes stops at the first one that is not skipped.
   */
  function NavigateStateWith(skip: string -> bool, states: seq<DropdownOption>, districtsFor: Page, complexesFor: Page, actsFor: Page): Visit
  {
    match FirstIndex((o: DropdownOption) => !skip(o.text), states)
    case None => NoState
    case Some(s) => VisitDistrict(states[s].value, districtsFor, complexesFor, actsFor)
  }

  /** `navigate_state` as written, with the case-sensitive skip test. */
  function NavigateStateAsWritten(states: seq<DropdownOption>, districtsFor: Page, complexesFor: Page, actsFor: Page): Visit
  {
    NavigateStateWith(IsStatePlaceholderAsWritten, states, districtsFor, complexesFor, actsFor)
  }

  /** `navigate_state` with the skip test corrected to look at the lower-cased text. */
  function NavigateState(states: seq<DropdownOption>, districtsFor: Page, complexesFor: Page, actsFor: Page): Visit
  {
    NavigateStateWith(IsStatePlaceholder, states, districtsFor, complexesFor, actsFor)
  }

  // ---------------------------------------------------------------------------
  // Properties.
  // ---------------------------------------------------------------------------

  /**
   * The run goes on with the first state that is not a placeholder, and only
   * with it; it ends at once exactly when every option is one.
   */
  lemma NavigateStatePicksFirstState(skip: string -> bool, states: seq<DropdownOption>, districtsFor: Page, complexesFor: Page, actsFor: Page)
    ensures NavigateStateWith(skip, states, districtsFor, complexesFor, actsFor).NoState?
      <==> forall i :: 0 <= i < |states| ==> skip(states[i].text)
    ensures !NavigateStateWith(skip, states, districtsFor, complexesFor, actsFor).NoState? ==>
      exists s :: 0 <= s < |states|
        && NavigateStateWith(skip, states, districtsFor, complexesFor, actsFor)
           == VisitDistrict(states[s].value, districtsFor, complexesFor, actsFor)
        && !skip(states[s].text)
        && forall j :: 0 <= j < s ==> skip(states[j].text)
  {
    match FirstIndex((o: DropdownOption) => !skip(o.text), states)
    case None =>
    case Some(s) =>
      assert !skip(states[s].text);
  }

  /** A walk whose skip test keeps the first state option goes on with that option. */
  lemma FirstStateKept(skip: string -> bool, states: seq<DropdownOption>, districtsFor: Page, complexesFor: Page, actsFor: Page)
    requires states != [] && !skip(states[0].text)
    ensures NavigateStateWith(skip, states, districtsFor, complexesFor, actsFor)
      == VisitDistrict(states[0].value, districtsFor, complexesFor, actsFor)
  {
  }

  /** A walk whose skip test drops the first state option runs as if it were not there. */
  lemma FirstStateSkipped(skip: string -> bool, states: seq<DropdownOption>, districtsFor: Page, complexesFor: Page, actsFor: Page)
    requires states != [] && skip(states[0].text)
    ensures NavigateStateWith(skip, states, districtsFor, complexesFor, actsFor)
      == NavigateStateWith(skip, states[1..], districtsFor, complexesFor, actsFor)
  {
    var keep := (o: DropdownOption) => !skip(o.text);
    assert FirstIndex(keep, states) == match FirstIndex(keep, states[1..]) case None => None case Some(i) => Some(i + 1);
  }

  /**
   * A page whose first state option is "Select State": the walk as written
   * selects that placeholder and goes on with its districts, while the
   * corrected walk passes over it as if it were not there.
   */
  lemma PlaceholderStateVisitedAsWritten(states: seq<DropdownOption>, districtsFor: Page, complexesFor: Page, actsFor: Page)
    requires states != [] && states[0].text == "Select State"
    ensures NavigateStateAsWritten(states, districtsFor, complexesFor, actsFor)
      == VisitDistrict(states[0].value, districtsFor, complexesFor, actsFor)
    ensures NavigateState(states, districtsFor, complexesFor, actsFor)
      == NavigateState(states[1..], districtsFor, complexesFor, actsFor)
  {
    SelectStateNotSkippedAsWritten();
    FirstStateKept(IsStatePlaceholderAsWritten, states, districtsFor, complexesFor, actsFor);
    SelectStateSkipped();
    FirstStateSkipped(IsStatePlaceholder, states, districtsFor, complexesFor, actsFor);
  }

  /**
   * A district is visited exactly when `get_districts` gives a non-empty
   * value, and it is that value; otherwise the run ends with the state alone.
   */
  lemma VisitDistrictSpec(state: string, districtsFor: Page, complexesFor: Page, actsFor: Page)
    ensures var d := FirstDistrictValue(districtsFor(state));
      VisitDistrict(state, districtsFor, complexesFor, actsFor).NoDistrict? <==> d.None? || d.value == ""
    ensures var d := FirstDistrictValue(districtsFor(state));
      d.Some? && d.value != "" ==>
        VisitDistrict(state, districtsFor, complexesFor, actsFor)
          == VisitCourts(state, d.value, CourtComplexes(complexesFor(d.value)).1, actsFor)
  {
  }

  /**
   * The complex searched is the first complex of the district whose act
   * dropdown does not hold exactly one option; every complex before it holds
   * exactly one. With no such complex the run ends without a search.
   */
  lemma VisitCourtsSpec(state: string, district: string, codes: seq<string>, actsFor: Page)
    ensures VisitCourts(state, district, codes, actsFor).NoCourt?
      <==> forall j :: 0 <= j < |codes| ==> |actsFor(codes[j])| == 1
    ensures !VisitCourts(state, district, codes, actsFor).NoCourt? ==>
      exists k :: 0 <= k < |codes| && |actsFor(codes[k])| != 1
        && (forall j :: 0 <= j < k ==> |actsFor(codes[j])| == 1)
        && VisitCourts(state, district, codes, actsFor) == SearchCourt(state, district, codes[k], actsFor(codes[k]))
  {
    var keep := (c: string) => HasActs(actsFor, c);
    match FirstIndex(keep, codes)
    case None =>
      assert forall j :: 0 <= j < |codes| ==> !keep(codes[j]);
    case Some(k) =>
      assert forall j :: 0 <= j < k ==> !keep(codes[j]);
  }

  /**
   * The search made in the chosen complex: the CSV is the complex's whole act
   * dropdown; with no text the IPC pattern accepts the run ends in the
   * IndexError; otherwise the first such text is handed to `select_option`,
   * and the run searches exactly when some option has it as value or label.
   */
  lemma SearchCourtSpec(state: string, district: string, court: string, acts: seq<DropdownOption>)
    ensures var v := SearchCourt(state, district, court, acts);
      (v.NoIpcAct? || v.ActNotSelected? || v.Searched?) && OptionsOf(v.csv) == acts
    ensures SearchCourt(state, district, court, acts).NoIpcAct?
      <==> forall i :: 0 <= i < |acts| ==> !IpcMatch(acts[i].text)
    ensures var v := SearchCourt(state, district, court, acts);
      !v.NoIpcAct? ==>
        exists i :: 0 <= i < |acts|
          && IpcMatch(acts[i].text)
          && (forall j :: 0 <= j < i ==> !IpcMatch(acts[j].text))
          && (v.Searched? <==> SelectOption(acts, acts[i].text).Some?)
          && (v.Searched? ==> v.steps == [ActSearch.SelectAct(acts[i].text)] + ActSearch.FormSteps)
  {
    ActCodeRowsRoundTrip(acts);
    ActSearch.FirstCodeIsFirstIpcText(acts);
    match ActSearch.FirstIpcOption(acts)
    case None =>
    case Some(i) =>
      assert IpcMatch(acts[i].text);
  }

  /**
   * The older driver hands `select_option` the same text, through the same
   * parameter, as the navigator's `process_act_codes` as written: the two
   * search or fail on exactly the same act dropdowns, with the same steps.
   */
  lemma SearchCourtSelectsAsNavigator(state: string, district: string, court: string, acts: seq<DropdownOption>, page: string)
    ensures var v := SearchCourt(state, district, court, acts);
      var (steps, out) := ActSearch.ProcessActCodesAsWritten(true, acts, ActSearch.Section, page);
      && (v.NoIpcAct? <==> out.NoIpcCode?)
      && (v.ActNotSelected? <==> out.SelectFailed?)
      && (v.Searched? <==> out.Searched?)
      && (v.Searched? ==> v.steps == steps)
  {
  }

  /**
   * When every act text is already in label form, the text handed to
   * `select_option` always names an option, so a complex with an IPC act is
   * searched.
   */
  lemma SelectedActIsOnOffer(state: string, district: string, court: string, acts: seq<DropdownOption>)
    requires forall i :: 0 <= i < |acts| ==> IsCollapsed(acts[i].text)
    ensures !SearchCourt(state, district, court, acts).ActNotSelected?
  {
    ActSearch.FirstCodeIsFirstIpcText(acts);
    match ActSearch.FirstIpcOption(acts)
    case None =>
    case Some(i) =>
      CollapseSpacesFixed(acts[i].text);
      assert SelectMatches(acts[i].text, acts[i]);
  }

  /**
   * A complex whose act dropdown is empty is not skipped (the test is for
   * exactly one option), so if it comes first the run ends in the IndexError.
   */
  lemma EmptyActDropdownRaises(state: string, district: string, court: string)
    ensures SearchCourt(state, district, court, []) == NoIpcAct(state, district, court, [])
  {
  }
}
