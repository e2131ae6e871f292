/**
 * The act search of the navigator (`process_act_codes`): pick the first
 * IPC-related act, fill the section, choose pending cases, solve the captcha,
 * submit and capture the page. Browser actions are recorded as a trace of steps;
 * the captcha answer and the captured page are parameters.
 */
module ActSearch {
  import opened Wrappers
  import opened Seqs
  import opened Dropdowns
  import opened Text
  import opened IpcRegex

  /** The section the search form is always filled with. */
  const Section: string := "302"

  /** The browser actions of a search, in the order the navigator performs them. */
  datatype Step =
    | SelectAct(choice: string)   // `select_option` with a string: an option whose value or label it is
    | SelectActAt(index: nat)     // `select_option(index=i)`: exactly the i-th option
    | FillSection(section: string)
    | ChoosePending
    | SolveCaptcha
    | Submit

  /** How a search ends. */
  datatype SearchOutcome =
    | NoIpcCode                 // nothing to search for: the method returns None
    | SelectFailed              // no option has the string passed as its value or label, and the call fails
    | Searched(act: DropdownOption, page: string)

  /** The steps from filling the form to submitting it, the same on every path that selects an act. */
  const FormSteps: seq<Step> := [FillSection(Section), ChoosePending, SolveCaptcha, Submit]

  /**
   * `process_act_codes` as written: the first accepted act text, read with
   * `text_content()`, is handed to `select_option`, which looks for an option
   * with that value or label.
   */
  function ProcessActCodesAsWritten(actVisible: bool, opts: seq<DropdownOption>, sectionNumber: string, page: string)
    : (r: (seq<Step>, SearchOutcome))
  {
    match ExtractIpcRelatedCodes(actVisible, Texts(opts))
    case None => ([], NoIpcCode)
    case Some(codes) =>
      if codes == [] then ([], NoIpcCode)
      else match SelectOption(opts, codes[0])
        case None => ([SelectAct(codes[0])], SelectFailed)
        case Some(k) => ([SelectAct(codes[0])] + FormSteps, Searched(opts[k], page))
  }

  predicate IsIpcOption(o: DropdownOption)
  {
    IpcMatch(o.text)
  }

  /** The position of the first option whose text the IPC pattern accepts. */
  function FirstIpcOption(opts: seq<DropdownOption>): Option<nat>
  {
    FirstIndex(IsIpcOption, opts)
  }

  /**
   * `process_act_codes` selecting the first IPC-related act itself, by its
   * position, as the call evidently intends.
   */
  function ProcessActCodes(actVisible: bool, opts: seq<DropdownOption>, sectionNumber: string, page: string)
    : (r: (seq<Step>, SearchOutcome))
  {
    if !actVisible then ([], NoIpcCode)
    else match FirstIpcOption(opts)
      case None => ([], NoIpcCode)
      case Some(i) => ([SelectActAt(i)] + FormSteps, Searched(opts[i], page))
  }

  /** The texts the pattern accepts are the texts of the options it accepts. */
  lemma {:induction false} IpcTextsOfOptions(opts: seq<DropdownOption>)
    ensures IpcRelated(Texts(opts)) == Texts(Filter(IsIpcOption, opts))
  {
    if opts != [] {
      IpcTextsOfOptions(opts[1..]);
      assert Texts(opts)[1..] == Texts(opts[1..]);
      var kept := Filter(IsIpcOption, opts[1..]);
      if IsIpcOption(opts[0]) {
        assert Texts([opts[0]] + kept) == [opts[0].text] + Texts(kept);
      }
    }
  }

  /** The text the search as written hands to `select_option` is the text of the first IPC option. */
  lemma FirstCodeIsFirstIpcText(opts: seq<DropdownOption>)
    ensures IpcRelated(Texts(opts)) == [] <==> FirstIpcOption(opts).None?
    ensures FirstIpcOption(opts).Some? ==> IpcRelated(Texts(opts))[0] == opts[FirstIpcOption(opts).value].text
  {
    IpcTextsOfOptions(opts);
    FirstIndexIsFilterHead(IsIpcOption, opts);
    var kept := Filter(IsIpcOption, opts);
    if kept != [] {
      assert Texts(kept)[0] == kept[0].text;
    }
  }

  /**
   * With no IPC-related act (or no act dropdown) the search returns `None` and
   * performs no step at all, so it never reaches the captcha; both versions agree on this.
   */
  lemma NoMatchNeverReachesCaptcha(actVisible: bool, opts: seq<DropdownOption>, sectionNumber: string, page: string)
    requires !actVisible || forall i :: 0 <= i < |opts| ==> !IpcMatch(opts[i].text)
    ensures ProcessActCodes(actVisible, opts, sectionNumber, page) == ([], NoIpcCode)
    ensures ProcessActCodesAsWritten(actVisible, opts, sectionNumber, page) == ([], NoIpcCode)
  {
    if actVisible {
      FirstCodeIsFirstIpcText(opts);
    }
  }

  /**
   * The search as written fails to select exactly when the first IPC act's
   * text is not in label form (surrounding or repeated whitespace) and no
   * option carries that raw text as its value.
   */
  lemma AsWrittenFailsExactly(opts: seq<DropdownOption>, sectionNumber: string, page: string)
    ensures ProcessActCodesAsWritten(true, opts, sectionNumber, page).1 == SelectFailed
      <==> FirstIpcOption(opts).Some?
           && !IsCollapsed(opts[FirstIpcOption(opts).value].text)
           && forall j :: 0 <= j < |opts| ==> opts[j].value != opts[FirstIpcOption(opts).value].text
  {
    FirstCodeIsFirstIpcText(opts);
    match FirstIpcOption(opts)
    case None =>
    case Some(i) =>
      var t := opts[i].text;
      if IsCollapsed(t) {
        CollapseSpacesFixed(t);
        assert SelectMatches(t, opts[i]);
      } else {
        SelectUncollapsed(opts, t);
      }
  }

  /**
   * An act dropdown whose IPC option is written with a trailing space: the
   * browser labels it "IPC", its value is a code, so the raw text matches
   * neither and the selection fails, although an IPC-related act is on offer
   * and the corrected search selects it.
   */
  lemma SelectByTextFails()
    ensures ProcessActCodesAsWritten(true, [DropdownOption("IPC ", "12")], Section, "page").1 == SelectFailed
    ensures ProcessActCodes(true, [DropdownOption("IPC ", "12")], Section, "page").1
      == Searched(DropdownOption("IPC ", "12"), "page")
  {
    var opts := [DropdownOption("IPC ", "12")];
    assert "IPC " == PlainIpc + " ";
    IpcMatchAcceptsSuffix(PlainIpc, " ");
    assert !IsCollapsed(opts[0].text);
    FirstIndexAt(IsIpcOption, opts, 0);
    AsWrittenFailsExactly(opts, Section, "page");
  }

  /**
   * The corrected search never fails to select: whenever an IPC-related act is
   * on offer it selects the first one, fills section "302" whatever section
   * was asked for, and then solves the captcha and submits.
   */
  lemma ProcessActCodesSelects(actVisible: bool, opts: seq<DropdownOption>, sectionNumber: string, page: string)
    requires actVisible && exists i :: 0 <= i < |opts| && IpcMatch(opts[i].text)
    ensures FirstIpcOption(opts).Some?
    ensures ProcessActCodes(actVisible, opts, sectionNumber, page)
      == ([SelectActAt(FirstIpcOption(opts).value), FillSection("302"), ChoosePending, SolveCaptcha, Submit],
          Searched(opts[FirstIpcOption(opts).value], page))
  {
    var i := FirstIpcOption(opts).value;
    assert [SelectActAt(i)] + FormSteps == [SelectActAt(i), FillSection("302"), ChoosePending, SolveCaptcha, Submit];
  }

  /** The chosen act is the first option, in dropdown order, whose text the pattern accepts. */
  lemma FirstIpcOptionSpec(opts: seq<DropdownOption>)
    ensures FirstIpcOption(opts).None? <==> forall i :: 0 <= i < |opts| ==> !IpcMatch(opts[i].text)
    ensures FirstIpcOption(opts).Some? ==>
      var i := FirstIpcOption(opts).value;
      i < |opts| && IpcMatch(opts[i].text) && forall j :: 0 <= j < i ==> !IpcMatch(opts[j].text)
  {
  }

  /**
   * Where every act text is already in label form and no option's value is
   * the text of a later option, the search as written selects the same act as
   * the corrected search and goes on with the same steps.
   */
  lemma VersionsAgreeOnCollapsedTexts(actVisible: bool, opts: seq<DropdownOption>, sectionNumber: string, page: string)
    requires forall i :: 0 <= i < |opts| ==> IsCollapsed(opts[i].text)
    requires forall j, k :: 0 <= j < k < |opts| ==> opts[j].value != opts[k].text
    ensures ProcessActCodesAsWritten(actVisible, opts, sectionNumber, page).1 == ProcessActCodes(actVisible, opts, sectionNumber, page).1
    ensures ProcessActCodesAsWritten(actVisible, opts, sectionNumber, page).0 == []
      <==> ProcessActCodes(actVisible, opts, sectionNumber, page).0 == []
    ensures ProcessActCodes(actVisible, opts, sectionNumber, page).0 != [] ==>
      ProcessActCodesAsWritten(actVisible, opts, sectionNumber, page).0[1..]
      == ProcessActCodes(actVisible, opts, sectionNumber, page).0[1..]
  {
    if actVisible {
      FirstCodeIsFirstIpcText(opts);
      match FirstIpcOption(opts)
      case None =>
      case Some(i) =>
        forall j | 0 <= j < i ensures Label(opts[j]) != opts[i].text {
          CollapseSpacesFixed(opts[j].text);
        }
        SelectOwnText(opts, i);
    }
  }

  /** The captcha is only ever solved after an act has been selected and the form filled. */
  lemma CaptchaFollowsSelection(actVisible: bool, opts: seq<DropdownOption>, sectionNumber: string, page: string)
    ensures SolveCaptcha in ProcessActCodes(actVisible, opts, sectionNumber, page).0 ==>
      ProcessActCodes(actVisible, opts, sectionNumber, page).0[0].SelectActAt?
      && FillSection(Section) in ProcessActCodes(actVisible, opts, sectionNumber, page).0
    ensures SolveCaptcha in ProcessActCodesAsWritten(actVisible, opts, sectionNumber, page).0 ==>
      ProcessActCodesAsWritten(actVisible, opts, sectionNumber, page).0[0].SelectAct?
      && FillSection(Section) in ProcessActCodesAsWritten(actVisible, opts, sectionNumber, page).0
      && ProcessActCodesAsWritten(actVisible, opts, sectionNumber, page).1.Searched?
  {
    assert FormSteps[0] == FillSection(Section);
  }
}
