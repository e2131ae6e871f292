# justicedelayed: the scraper's decision rules, modelled in Dafny

justicedelayed scrapes the Indian eCourts case-status site. A browser walks the
state, district, court-complex and act dropdowns. Small HTTP scripts then
request act lists and case pages. Everything is stored in a few SQLite tables.
Around the browser and network calls sits a small core of deterministic rules,
and this project models that core:

- **Placeholder filters** (`Dropdowns`). An option label is lower-cased,
  stripped, and has its spaces replaced by `_`. The option is dropped when the
  label contains `"select"`. The navigator then takes either the first survivor
  (`get_districts`) or all of them in order (`get_court_complexes`,
  `navigate_district`).
- **The IPC act filter** (`IpcRegex`). A hand-written predicate for
  `^(I.P.C|IPC|Indian Penal Code)\b.*$` under `re.IGNORECASE`. The dots are
  unescaped, so each matches any character but a newline.
- **The act search** (`ActSearch`). `process_act_codes`, as a trace of browser
  steps. Playwright's `select_option` with a string matches it against each
  option's value and its label, the option text with its whitespace stripped
  and collapsed (`Dropdowns.SelectOption`).
- **The bulk-insert builders** (`BulkInsert`). `create_insert_query` and
  `create_district_query`, plus a reader for the statements they build.
- **The table store** (`Store`). An abstract append-only store for `db2.py`: a
  map from table name to a schema and a sequence of rows.
- **The three scrapes that fill the tables**, each with its sentinel:
  - `Courts`: `get_court_complexes_3`, with `E003`.
  - `ActCodes`: `get_act_codes.py`, which undoes `E003` and cuts court codes at
    `@`.
  - `HtmlFetch`: `get_html.py`, with `E005` and `E006`.
- **The older scraper** (`PrevScraper`). Its `navigate_state` walk, its
  state-skip and single-act-skip rules, and the rows of `download_act_codes`.

Supporting modules:

- `Wrappers`: `Option`/`Result`.
- `Seqs`: an order-preserving `Filter`, a first-match `FirstIndex`, and Python's
  `str.join`.
- `Text`: ASCII `str.lower`, `str.strip` and JavaScript `trim`, each with its
  own whitespace set; also `replace(" ", "_")`, the substring test `in`, and
  `split(c)[0]`.

How the model treats the outside world:

- The browser page, the HTTP servers and the captcha are **parameters**. A page
  is a function from the selected value to the options shown. A server is a
  function from request to reply.
- Browser actions are recorded as a trace of `Step`s.
- The clock is a parameter. `ActCodes.Clock` and `HtmlFetch.Clock` give the
  date `datetime.date.today()` returns while each table row is handled, since
  every request reads it afresh; `HtmlFetch` also takes the one date `main`
  reads for its `E005` rows.
- A helper called with a `None` connection raises. The source helpers catch only
  `sqlite3.Error`, so `None.cursor()` escapes, and the model records this as
  `Raised`.

Two points worth knowing:

- `"I.P.C extra-prefix text"` is accepted: the alternative `I.P.C` matches, the
  space after it satisfies `\b`, and `.*$` takes the rest
  (`IpcRegex.AcceptsExtraPrefixText`).
- `E005` is read by get_html.py but never written by any code modelled here.
  `HtmlFetch` treats it as data that may already be in `Acts`.

## Model

| member | source | states |
|---|---|---|
| Text.LowerSpec | navigator.py:99 | each capital `A`-`Z` becomes its small letter, every other character stays, no capital is left, and lower-casing twice equals lower-casing once (ASCII letters only) |
| Text.TrimBoundsSpec | navigator.py:99 | `strip()` keeps one slice: everything cut from either end is whitespace, and the kept slice neither starts nor ends with whitespace |
| Text.TrimSpec | navigator.py:419 | JavaScript `trim()` (and Python `strip()`) splits the input into whitespace, the result and whitespace, each under its own whitespace set, and the result neither starts nor ends with whitespace |
| Text.TrimUnique | navigator.py:99 | that split is unique: whenever the input is whitespace, then a text with no whitespace at either end, then whitespace, that text is what trimming keeps |
| Text.SpacesToUnderscoresSpec | navigator.py:99 | `replace(" ", "_")` keeps the length, turns each space into `_` and keeps every other character |
| Text.ContainsSpec | navigator.py:103-106 | Python's `w in s` holds exactly when `w` occurs at some position of `s` |
| Text.ContainsAfterUnderscores | navigator.py:154-159 | replacing spaces by underscores does not change whether a word without spaces or underscores occurs |
| Text.BeforeFirst | get_act_codes.py:133 | `split("@")[0]` is a prefix of the code with no `@`, followed in the code by `@` or by nothing |
| Text.CollapseSpaces | navigator.py:216 | the label `select_option` compares with, the option text stripped and collapsed by the browser, has no leading, trailing or doubled whitespace, and its only whitespace is single spaces |
| Text.CollapseSpacesJoinsWords | navigator.py:216 | the label is the words of the option text (its maximal runs of non-whitespace), in order, joined by single spaces |
| Text.CollapseKeepsText | navigator.py:216 | the label keeps every character of the text that is not whitespace, in order, and adds no other |
| Text.WordsFromSpec | navigator.py:216 | every word of a text is non-empty and holds no whitespace |
| Text.CollapseTrailingSpace | navigator.py:216 | the label of the option text "IPC " is "IPC" |
| Text.CollapseSpacesFixed | navigator.py:216 | collapsing leaves a text unchanged exactly when it is already in that form, so collapsing twice equals collapsing once |
| Dropdowns.ContainsAnyPlaceholders | navigator.py:103-106 | both placeholder lists (`select`/`select_district`, `select_court_complex`/`select`) test for the single word "select" |
| Dropdowns.NormalisedMentionsSelect | navigator.py:99-106 | lower-casing, stripping and underscoring a label does not change whether it mentions "select" |
| Dropdowns.TrimmedMentionsSelect | navigator.py:419-429 | trimming the label in the page before the lower-cased test does not change whether it mentions "select" |
| Dropdowns.PlaceholderTestsAgree | navigator.py:423-430 | the three placeholder tests (normalised district, normalised complex, trimmed district) agree on every option |
| Dropdowns.DistrictFilter | navigator.py:95-108 | filtering with the district test keeps exactly the options whose lower-cased label lacks "select", in order |
| Dropdowns.CourtComplexFilter | navigator.py:150-166 | the same for the court-complex test |
| Dropdowns.FirstDistrictValueSpec | prev_scraper.py:45-58 | `get_districts` gives `None` exactly when every label mentions "select"; otherwise it gives the value of the first option whose label does not (navigator.py:95-114 is the same rule) |
| Dropdowns.GetDistricts | navigator.py:95-114 | the loop returns at the first real district: its value, and `None` when every option is a placeholder |
| Dropdowns.CourtComplexesSpec | navigator.py:150-168 | names and codes have equal length, and position `i` of each describes the `i`-th option, in page order, whose label lacks "select" |
| Dropdowns.CourtComplexNamesClean | prev_scraper.py:95-110 | no complex name returned mentions "select" |
| Dropdowns.CourtComplexesSnoc | navigator.py:157-166 | one more option appends its normalised name and its code exactly when it is not a placeholder |
| Dropdowns.GetCourtComplexes | navigator.py:147-168 | the loop's two lists are the lists `CourtComplexesSpec` describes |
| Dropdowns.NavigateDistrictAppend | navigator.py:423-437 | harvesting two runs of options is harvesting each and concatenating, so relative order is kept |
| Dropdowns.NavigateDistrictSpec | navigator.py:423-437 | `navigate_district` lists the trimmed names and the codes of exactly the options whose label lacks "select", in page order; `([], [])` when none survives |
| Dropdowns.FirstDistrictIsFirstNavigated | navigator.py:423-437 | `get_districts` picks the first code `navigate_district` lists, and `None` exactly when that list is empty |
| Dropdowns.SelectOption | navigator.py:216 | a string passed to `select_option`, by position or as `value=`, selects the first option whose value or label is that string, and the call fails exactly when there is none |
| Dropdowns.SelectOwnText | prev_scraper.py:199 | an option whose text is already in label form is selected by that text, unless an earlier option has it as value or label |
| Dropdowns.SelectUncollapsed | navigator.py:216 | a string with surrounding or repeated whitespace is no option's label, so it selects an option only when some option has it as its value |
| IpcRegex.MatchesPrefixSpec | navigator.py:183-185 | an alternative matches at the start exactly when each of its characters matches the subject's in turn (a dot taking anything but a newline, letters in either case) |
| IpcRegex.TailMatchesSpec | navigator.py:184 | `.*$` matches the rest exactly when no newline comes before its last character |
| IpcRegex.AlternativeMatchesSpec | navigator.py:183-185 | the recursive matcher for one alternative agrees with the declarative reading: characters, then `\b`, then `.*$` |
| IpcRegex.IpcMatchSpec | navigator.py:183-185 | the pattern accepts exactly when one of the three alternatives matches at position 0 |
| IpcRegex.IpcMatchIgnoresCase | navigator.py:184 | lower-casing the subject never changes the verdict (`re.IGNORECASE`) |
| IpcRegex.IpcMatchAnchored | unit-tests/regex-test.py:4 | an accepted subject starts with a form of `I`: the `^` anchors the only match at position 0 |
| IpcRegex.IpcMatchRejectsOtherStart | unit-tests/regex-test.py:4 | a subject whose first character is no form of `I` is rejected |
| IpcRegex.IpcMatchAcceptsSuffix | unit-tests/regex-test.py:11-15 | an alternative followed by a non-word character and text with no newline before its end is accepted |
| IpcRegex.AcceptsDottedWithStop | unit-tests/regex-test.py:8 | "I.P.C." is accepted |
| IpcRegex.AcceptsPlain | unit-tests/regex-test.py:9 | "IPC" is accepted |
| IpcRegex.AcceptsPenalCode | unit-tests/regex-test.py:10 | "Indian Penal Code" is accepted |
| IpcRegex.AcceptsDottedWithDetails | unit-tests/regex-test.py:11 | "I.P.C (Police), 1098" is accepted |
| IpcRegex.RejectsSomethingElse | unit-tests/regex-test.py:12 | "Something else" is rejected |
| IpcRegex.AcceptsDottedWithNumber | unit-tests/regex-test.py:13 | "I.P.C. 1234" is accepted |
| IpcRegex.AcceptsLowerCase | unit-tests/regex-test.py:14 | "ipc" is accepted |
| IpcRegex.AcceptsDottedWithWords | unit-tests/regex-test.py:15 | "I.P.C. and other details" is accepted |
| IpcRegex.AcceptsExtraPrefixText | navigator.py:184 | "I.P.C extra-prefix text" is accepted: a non-word character after the prefix satisfies `\b` and `.*$` takes the rest |
| IpcRegex.AcceptsAnyDots | navigator.py:184 | the unescaped dots take letters as well as full stops ("IxPxC" is accepted) |
| IpcRegex.RejectsLeadingSpace | unit-tests/regex-test.py:4 | a leading space defeats the anchor |
| IpcRegex.RejectsWordAfterPenalCode | get_act_codes.py:75 | "Indian Penal Code" followed straight by a word character is rejected by `\b` |
| IpcRegex.RejectsLongerWord | get_act_codes.py:75 | "Indian Penal Codes" is rejected |
| IpcRegex.NewlineOnlyAtEnd | prev_scraper.py:118 | a newline is accepted only as the subject's last character (`$` before a final newline) |
| IpcRegex.IpcRelatedMembers | navigator.py:188-204 | a text is kept exactly when it is an act option's text and the pattern accepts it |
| IpcRegex.IpcRelatedOrder | prev_scraper.py:123-136 | the kept texts keep dropdown order across any split of the options, and filtering again changes nothing |
| IpcRegex.ExtractIpcRelatedCodes | navigator.py:175-204 | the navigator's version gives nothing (an implicit `None`) exactly when the act dropdown is hidden |
| IpcRegex.CollectIpcRelated | prev_scraper.py:121-136 | the loop appending each accepted text returns exactly the accepted texts in dropdown order |
| ActSearch.SelectByTextFails | navigator.py:196-216 | as written, a dropdown whose IPC option has text "IPC " (with a trailing space) and value "12" fails to select: the browser labels it "IPC", so the raw text matches neither value nor label; the corrected search selects that option |
| ActSearch.AsWrittenFailsExactly | navigator.py:196-216 | as written, the selection fails exactly when the first accepted act text is not in label form and no option has that raw text as its value |
| ActSearch.FirstCodeIsFirstIpcText | navigator.py:188-212 | the text handed to `select_option` is the text of the first option the pattern accepts, and there is none exactly when no option is accepted |
| ActSearch.IpcTextsOfOptions | navigator.py:196-201 | the accepted texts are the texts of the accepted options, in order |
| ActSearch.NoMatchNeverReachesCaptcha | navigator.py:266-268 | with no IPC act (or no act dropdown) both versions return `None` after no step at all, so the captcha is never reached |
| ActSearch.ProcessActCodesSelects | navigator.py:210-254 | the corrected search, with an IPC act on offer, selects the first such option itself (by position), fills "302" whatever section was asked, chooses pending cases, solves the captcha, submits, and ends with that option searched |
| ActSearch.FirstIpcOptionSpec | navigator.py:210-211 | the act chosen is the first option whose text the pattern accepts; there is none exactly when no text is accepted |
| ActSearch.VersionsAgreeOnCollapsedTexts | navigator.py:206-265 | when every act text is already in label form and no option's value is a later option's text, the search as written selects the same act as the corrected search and then takes the same steps |
| ActSearch.CaptchaFollowsSelection | navigator.py:216-237 | in both versions the captcha is solved only after an act is selected and section 302 is filled; as written, only when the selection succeeded |
| BulkInsert.CreateInsertQuery | navigator.py:386-406 | the `ValueError`, with its message, is raised exactly when the lists differ in length |
| BulkInsert.CreateDistrictQuery | navigator.py:712-736 | the same for the `Districts` statement |
| BulkInsert.CreateInsertQueryEscaped | navigator.py:386-406 | the corrected builder fails exactly on a length mismatch, with the same message |
| BulkInsert.CreateDistrictQueryEscaped | navigator.py:712-736 | the same for the corrected district builder |
| BulkInsert.ReadQuotedRoundTrip | navigator.py:398 | a field quoted with doubled inner quotes reads back as the field, followed by exactly what came after it |
| BulkInsert.ReadTuplesRoundTrip | navigator.py:401 | tuples of readable rows joined by ", " and ended by ";" read back as the rows, in order |
| BulkInsert.StatementRoundTrip | navigator.py:392-401 | a statement reads back as exactly the rows it was built from, in order, after its prefix |
| BulkInsert.InsertQueryEscapedRoundTrip | navigator.py:392-401 | the corrected `States` statement reads back as one `(name, code)` row per pair, in order, whatever the fields hold |
| BulkInsert.DistrictQueryEscapedRoundTrip | navigator.py:720-731 | the corrected `Districts` statement reads back as one row per pair, each led by the state code, in order |
| BulkInsert.InsertQueryRoundTrip | navigator.py:392-401 | the statement as written reads back as the pairs, in order, when no field holds a single quote |
| BulkInsert.DistrictQueryRoundTrip | navigator.py:720-731 | the district statement as written reads back the same way under the same condition |
| BulkInsert.PairTuple | navigator.py:398 | a pair's tuple is `(`, the quoted name, `, `, the quoted code and `)` |
| BulkInsert.OneRowStatement | navigator.py:401 | a one-row statement is the prefix, that row's tuple and ";" |
| BulkInsert.QuoteInFieldCollides | navigator.py:397-398 | as written, the pairs `(x', 'y, z)` and `(x, y', 'z)` give the same statement |
| BulkInsert.QuoteInNameCollides | navigator.py:397-401 | two different inputs give one statement, so the statement as written cannot say which rows were meant |
| Store.TableRows | db2.py:309-318 | every row of a scraper table in a well-formed store has the id and one text value per column; a missing table has no rows |
| Store.CreateTable | db2.py:165-184 | creating a table raises exactly when there is no connection |
| Store.DropTable | db2.py:332-340 | dropping a table raises exactly when there is no connection |
| Store.Insert | db2.py:233-254 | inserting raises exactly when there is no connection; SQLite errors are swallowed |
| Store.FetchAll | db2.py:296-305 | fetching raises exactly when there is no connection |
| Store.InsertAppendsOneRow | db2.py:116-135 | an insert into an existing table with those columns appends one row holding the values in column order behind the next id; nothing else changes |
| Store.InsertIntoMissingTable | db2.py:137-138 | an insert into a missing table raises nothing and changes nothing |
| Store.InsertKeepsWf | db2.py:120-138 | every insert keeps the store well formed: rows of the declared width, ids 1, 2, ... |
| Store.CreateTableIdempotent | db2.py:54-66 | creating a table keeps the store well formed, and creating it twice is creating it once |
| Store.CreateKeepsRows | db2.py:143-153 | `IF NOT EXISTS`: creating an existing table leaves its rows and every other table as they were |
| Store.DropTableIdempotent | db2.py:332-340 | dropping removes the table whether or not it existed, and dropping twice is dropping once |
| Store.FetchAfterInsert | db2.py:296-305 | a fetch after an insert returns the earlier rows followed by the new one |
| Store.InsertAllAppend | db2.py:202-219 | inserting the rows `a` and then `b` is inserting `a + b` |
| Store.InsertAllSome | db2.py:120-138 | a run of inserts into an open store never raises and leaves it open |
| Store.StoredRowsSpec | db2.py:144-145 | the `i`-th insert of a run into a table holding `start` rows is stored under id `start + i + 1` |
| Store.FetchAfterInsertAll | db2.py:283-292 | after a run of inserts, `fetch_*` returns the earlier rows followed by one stored row per insert, in insert order; no other table changes |
| Store.NoConnectionRaises | db2.py:25-31 | with no connection every helper raises (the `except Error` does not catch it) |
| Store.InsertWithId | db2.py:20 | an insert into a table with an id stores the next id followed by the values |
| Store.SaveHtmlColumnOrder | db2.py:116-135 | `save_html_to_db` appends one `COURTS_HTML` row with its eight values behind the id in declared column order |
| Store.SaveCodesColumnOrder | db2.py:198-216 | `save_codes_to_db` appends one `Courts` row with its seven values in order |
| Store.SaveActsColumnOrder | db2.py:233-251 | `save_acts_to_db` appends one `Acts` row with its seven values in order |
| Courts.EstRows | navigator.py:515-528 | one row per establishment option |
| Courts.EstRowsSpec | navigator.py:515-528 | the `j`-th establishment option gives the `j`-th row, carrying the option's value and text |
| Courts.ComplexRowsSpec | navigator.py:504-542 | a complex's rows carry its code, its name and the district; the `E003` row exactly when the dropdown is missing; one row per option otherwise |
| Courts.ComplexRowsIncluded | navigator.py:494-542 | every row saved for one complex is among the district's rows |
| Courts.CourtRowsSound | navigator.py:491-542 | every row saved is a seven-field `Courts` row of the district, for one of its complexes |
| Courts.MissingEstablishmentsGiveE003 | navigator.py:532-542 | a complex with no establishment dropdown gets a row whose code and name are both "E003: No court establishment found" |
| Courts.EveryEstablishmentSaved | navigator.py:515-528 | every establishment option of every complex is saved |
| Courts.ScrapeCourtsWidth | db2.py:198-201 | every computed row has one value per `Courts` column |
| Courts.SaveCourtsAppends | navigator.py:491-542 | the scrape appends exactly the computed rows to `Courts`, in order, and leaves every other table alone |
| Courts.EmptyDropdownSavesNothing | navigator.py:510-515 | a visible but empty establishment dropdown saves nothing |
| ActCodes.NormaliseEst | get_act_codes.py:135-136 | the `E003` sentinel becomes `""`, and every other code is unchanged |
| ActCodes.RequestFor | get_act_codes.py:126-146 | the request carries the row's state and district; the court code sent is the whole stored code up to its first `@` (all of it when there is none); the establishment sent is the stored one, except that the `E003` sentinel becomes the empty code |
| ActCodes.CourtRowsOf | get_act_codes.py:122 | the `Courts` rows of a well-formed store, none when the table is missing |
| ActCodes.ResetActs | get_act_codes.py:119-120 | dropping and re-creating `Acts` keeps a well-formed store well formed |
| ActCodes.KeptRowsSpec | get_act_codes.py:81-97 | the rows one successful reply saves are exactly the rows of the kept options (a non-empty code and a non-empty stripped text the pattern accepts), one each, in option order |
| ActCodes.KeptRowsComplete | get_act_codes.py:81-97 | every kept option's row is saved |
| ActCodes.KeptRowsSound | get_act_codes.py:86-97 | every saved row is the row of a kept option of the reply: the request's date, state, district, court and establishment, then that option's non-empty code and its stripped name, which the pattern accepts |
| ActCodes.FailedRequestSavesNothing | get_act_codes.py:57 | a reply with any status but 200 saves nothing |
| ActCodes.AllActRowsWidth | get_act_codes.py:88-97 | every saved row has one value per `Acts` column |
| ActCodes.AllActRowsFromRequests | get_act_codes.py:28-97 | every row saved in a run comes from the request for one `Courts` row and carries that request's fields and the date that request read |
| ActCodes.RunRequestsStore | get_act_codes.py:124-146 | the interleaved inserts come to inserting all saved rows, request after request |
| ActCodes.Requests | get_act_codes.py:124-146 | one request per `Courts` row, in table order, each made from its own row |
| ActCodes.RunRequestsTrace | get_act_codes.py:124-146 | the requests made are one per `Courts` row, in table order, whatever the replies |
| ActCodes.ResetActsSpec | get_act_codes.py:119-120 | resetting leaves `Acts` empty and every other table as it was |
| ActCodes.ActsMainUnfold | get_act_codes.py:117-150 | `main` on an open store is the requests for its `Courts` rows, made against the reset store |
| ActCodes.ActsMainSpec | get_act_codes.py:117-150 | after `main`, `Acts` holds exactly the rows saved for the `Courts` rows, numbered from 1 in request order, each with the date its request read; every other table is as it was |
| HtmlFetch.RequestFor | get_html.py:48-60 | every request asks for pending cases under section 302, for the `Acts` row's state, district, court, establishment and act |
| HtmlFetch.ActsRowsOf | get_html.py:130 | the `Acts` rows of a well-formed store, none when the table is missing |
| HtmlFetch.WithHtmlTable | get_html.py:127 | creating the page table keeps a well-formed store well formed |
| HtmlFetch.PageRowsSpec | get_html.py:68-104 | at most one page per request and only on status 200: `E006` for an empty body, otherwise `act_data` or `""`; always filed as pending under the request's act |
| HtmlFetch.Requests | get_html.py:139-162 | the requests are, one for one and in table order, the requests for the rows that are not `E005` |
| HtmlFetch.RequestsSpec | get_html.py:139-162 | every row that is not `E005` gets its request, and no request carries the `E005` act code |
| HtmlFetch.RunFetchStore | get_html.py:131-164 | the interleaved inserts come to inserting every stored row, in `Acts` order |
| HtmlFetch.RunFetchTrace | get_html.py:131-164 | the requests made are those for the rows that are not `E005`, in order, whatever the replies |
| HtmlFetch.AllPageRowsShape | get_html.py:84 | every stored row has the eight `COURTS_HTML` values and case status "Pending" |
| HtmlFetch.WithHtmlTableSpec | db2.py:54-66 | creating the page table keeps an existing one with its pages and leaves every other table alone |
| HtmlFetch.HtmlMainUnfold | get_html.py:124-166 | `main` on an open store is the fetch for its `Acts` rows, against the store with a page table |
| HtmlFetch.HtmlMainSpec | get_html.py:124-166 | after `main`, `COURTS_HTML` holds its old pages followed by one row per `E005` row (with the date `main` read) or successful request (with the date that request read), in `Acts` order; only rows that are not `E005` are requested; other tables are unchanged |
| HtmlFetch.E005StoredWithoutRequest | get_html.py:139-150 | an `E005` row is stored with the sentinel as act code and as page, status "Pending", and no request is made |
| HtmlFetch.EmptyReplyStoresE006 | get_html.py:74-86 | an empty body with status 200 stores exactly "E006: No Records found"; any other status stores nothing |
| PrevScraper.StateMarkersReduce | prev_scraper.py:160 | the three state markers reduce to "select" or "state" |
| PrevScraper.NoLowerSNotSkippedAsWritten | prev_scraper.py:160-162 | as written, a text with no lower-case "s" is never skipped |
| PrevScraper.SelectStateNotSkippedAsWritten | prev_scraper.py:160-162 | as written, the page's own placeholder "Select State" is not skipped |
| PrevScraper.CapitalisedSelectSkipped | prev_scraper.py:160-162 | the corrected test skips every text that starts with "Select" |
| PrevScraper.SelectStateSkipped | prev_scraper.py:161 | the corrected test skips "Select State" |
| PrevScraper.CorrectedSkipsMore | prev_scraper.py:157-162 | the corrected test skips every text the test as written skips |
| PrevScraper.ActCodeRows | prev_scraper.py:66-75 | one row per act option |
| PrevScraper.ActCodeRowsSpec | prev_scraper.py:69-75 | row `i` holds option `i`'s text under "Act Name" and its value under "Act Code", placeholder included |
| PrevScraper.ActCodeRowsRoundTrip | prev_scraper.py:69-81 | reading the rows back as options gives the whole dropdown again |
| PrevScraper.VisitCourts | prev_scraper.py:174-192 | the walk over the complexes ends in no court, no IPC act, a failed selection or a search, for the given state and district |
| PrevScraper.VisitDistrict | prev_scraper.py:168-174 | after a state is selected, the run never ends in "no state", and it keeps that state |
| PrevScraper.NavigateStatePicksFirstState | prev_scraper.py:152-165 | under any state-skip test, the run ends at once exactly when the test skips every state; otherwise it goes on with the first state the test keeps, and only with it |
| PrevScraper.FirstStateKept | prev_scraper.py:152-165 | a walk whose skip test keeps the first state option goes on with that option's districts |
| PrevScraper.FirstStateSkipped | prev_scraper.py:152-165 | a walk whose skip test drops the first state option runs as if that option were not there |
| PrevScraper.PlaceholderStateVisitedAsWritten | prev_scraper.py:152-165 | with "Select State" first, the walk as written selects that placeholder and walks its districts, while the corrected walk passes over it |
| PrevScraper.VisitDistrictSpec | prev_scraper.py:168-171 | a district is visited exactly when `get_districts` gives a non-empty value, and it is that value |
| PrevScraper.VisitCourtsSpec | prev_scraper.py:175-192 | the complex searched is the first whose act dropdown does not hold exactly one option, and every earlier one holds exactly one; with none, no search |
| PrevScraper.SearchCourtSpec | prev_scraper.py:194-213 | the CSV is the whole act dropdown; with no accepted text the run ends in the `IndexError`; otherwise the first accepted text is handed to `select_option`, and the run searches, with that selection and the form steps, exactly when some option has that text as value or label |
| PrevScraper.SearchCourtSelectsAsNavigator | prev_scraper.py:196-199 | the positional `select_option(ipc_related_codes[0])` behaves as the navigator's `select_option(value=...)` as written: the two search, fail or find nothing on the same dropdowns, with the same steps |
| PrevScraper.SelectedActIsOnOffer | prev_scraper.py:196-199 | when every act text is already in label form, the text handed to `select_option` always names an option, so the selection never fails |
| PrevScraper.EmptyActDropdownRaises | prev_scraper.py:188-199 | an empty act dropdown is not skipped, so the run ends in the `IndexError` |

## Left out

- Playwright browser control, the fixed `sleep` waits, validation-modal
  dismissal and the tenacity retry decorator. These are UI plumbing and timing.
  The pages they show are function parameters.
- The captcha: OCR through PIL and pytesseract in the navigator, and the typed
  `input` in the older scraper. Solving it is one `SolveCaptcha` step, and the
  captured page is a parameter.
- HTTP POSTs, JSON decoding and BeautifulSoup option parsing. Their output is
  modelled as the `ActListResponse` / `PageResponse` a server function returns.
  `ActOption.value` is `None` when the attribute is missing.
- The SQLite engine. `Store` is an abstract map from table name to rows, and
  the statement text built by `BulkInsert` is not executed.
  - `insert_data`, `custom_query`, `query_table` and `add_column` are not
    modelled.
  - `create_connection` appears only as its result type `Connection`, which is
    `None` when connecting failed.
  - Connecting itself, `setup_db`, `commit` and `close` are I/O.
- db.py, process_html.py and scraper.py are not part of this model.
- navigator.py's `get_court_complexes_2`, `navigate_state`/`navigate_state_2`,
  `process_state`, `process_states_3` and `set_state`: browser drivers around
  the rules modelled here. The inconsistent `save_html_to_db` calls in
  `get_court_complexes_2` are not reproduced.
- The module-level `get_act_codes` fragment in navigator.py
  (navigator.py:781-861). It does not parse, so it is not modelled. The same
  rule in get_act_codes.py is. Because of that fragment, navigator.py as a
  whole cannot be imported, so none of its functions modelled here can run as
  the file stands. The model describes what each function does on its own.
- CSV file writing in `download_act_codes`. Only the row list is modelled.
- Text.Lower: only ASCII letters are lower-cased. Python's full Unicode
  `str.lower` is not modelled, and labels are assumed to be plain text.
- IpcRegex.IsWordChar: `\b` uses ASCII word characters. Python's Unicode `\w`
  (letters and digits of every script) is not modelled.
- IpcRegex.CharMatches: case-insensitive matching covers the ASCII letters plus
  the extra folds of `I` (U+0130 and U+0131). Other Unicode case folds cannot
  occur in the three alternatives.
- PrevScraper: the acts page is keyed by the complex code alone. What happens
  after the submit is not modelled: the page content is captured and then
  discarded.
- A `select_option` that finds no matching option waits for its timeout and
  then raises. The model ends the run there (`SelectFailed`,
  `ActNotSelected`) and does not model the wait.
- Option labels: an `<option>` is labelled by its text, stripped and
  collapsed. A `label` attribute would take precedence, and it is assumed
  absent.
- Courts.EveryEstablishmentSaved: assumes every option carries a `value`
  attribute. For an option without one, `get_attribute("value")` gives
  `None`. The `Courts` row is still saved, because `establishment_code` has
  no NOT NULL constraint (db2.py:151), and its code is NULL. get_act_codes.py
  then passes `None` as that row's `est_code`. The model cannot represent such a
  row, because `DropdownOption.value` is a plain string.
- Dropdowns.DropdownOption: the value is a plain string, so the `None` of a
  missing `value` attribute is not modelled. `get_districts` would return that
  `None`, and it would read like "no district". Only `ActOption.value` in
  `ActCodes` is optional.
- Courts.SaveCourtsAppends: the ids it states are the model's rule, the row
  count plus one. They are SQLite's AUTOINCREMENT ids only when the existing
  ids are 1 to n, as in every well-formed store (`Store.InsertKeepsWf`). For
  other stores the ids are the model's, not SQLite's.
- Store.Insert: covers only tables whose columns are exactly the ones the
  insert names. SQLite would also accept an insert into a table with further
  nullable or defaulted columns, such as `add_column` would make. The model
  treats that insert as a swallowed error.
- ActCodes.ActsMainSpec and HtmlFetch.HtmlMainSpec state the outcome for a
  well-formed store, whose scraper tables have exactly their declared columns.
  Other stores are not covered.

## Findings

| source | as written | input that shows it | evidently intended | confidence | as-written member | corrected member |
|---|---|---|---|---|---|---|
| navigator.py:216 | `select_option(value=first_ipc_code)` passes the act's raw `text_content()`. Playwright compares it with each option's value and with its label, which the browser strips and collapses (prev_scraper.py:199 makes the same call) | an act dropdown holding one option `<option value="12">IPC </option>`: the pattern accepts "IPC ", but the value is "12" and the label is "IPC", so no option matches and the call fails | select the first IPC-related option itself, for instance by its index | low (needs whitespace around or inside an act text), not executed | ActSearch.SelectByTextFails | ActSearch.ProcessActCodesSelects |
| navigator.py:397-401 | each field is pasted between single quotes unchanged | names `["a', 'b"]` with codes `["c"]`, and names `["a"]` with codes `["b', 'c"]`, give the same statement | double each quote inside a field, so the statement reads back as the pairs given | high, not executed | BulkInsert.QuoteInNameCollides | BulkInsert.InsertQueryEscapedRoundTrip |
| prev_scraper.py:160-162 | the state markers "select" and "state" are looked for in the raw, case-sensitive option text (navigator.py:297-299 repeats the test) | the placeholder "Select State" contains neither marker, so it is not skipped and is selected as a state | test the lower-cased text, as the district and complex tests do, so that "Select State" is skipped | medium, not executed | PrevScraper.SelectStateNotSkippedAsWritten | PrevScraper.SelectStateSkipped |
