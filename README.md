# university-bot, modelled in Dafny

university-bot is a small pipeline that collects undergraduate-admission information (application deadlines, rankings and faculty) and serves it through a Telegram bot. This project models the four pieces of it that hold real logic:

- **The deadline miner** (`DeadlineMiner`, deadline_scraper.py). It searches for each university's deadline page and picks the first result link that passes a domain filter. It cuts a context window around every date match in the page text, collapses its whitespace, wraps it in ellipses, and de-duplicates the snippets through a set. It writes one row per university: University, Found Deadline Info, Deadline Page URL.
- **The run reconciler** (`Reconciler`, identify_failures.py). It classifies each row of the latest run as a failure or a success. It upserts the successes into the cumulative store, keyed by the raw University string. It computes the retry set as the universe minus the store's keys, then writes the sorted retry list (or removes it) and the sorted store.
- **The record merger** (`Merger`, merge_data.py).
  - It normalises university names.
  - It drops faculty rows without a name and groups the rest by affiliation.
  - It left-joins the university table with the stored deadlines, then with the faculty groups, on the normalised name.
  - It keeps seven columns and fills the nulls of three of them.
- **The bot's pure logic** (`Bot`, telegram_bot.py):
  - translation lookup with its fallbacks;
  - the paginated university and professor keyboards;
  - the details keyboard;
  - the rankings and professor-preview formatting;
  - the encoding and routing of callback data;
  - the per-user language kept in `context.user_data`, modelled as the `Session` class.

Support modules:

- `Text`: the Python `str` behaviour the code relies on: `str.split()` with `' '.join`, `str.split('_')`, `startswith`, the `in` substring test, and `int`/`str` on non-negative numbers.
- `Sorting`: `sorted()` by a string key under code-point order, and the enumeration of a set.
- `Wrappers`: `Option`.

Files, CSV and JSON are values. A file that does not exist is `None`. A pandas null, such as an empty CSV cell, is a `None` cell. The browser is a pair of parameters. The search is a function from query to result links, where `None` is a search that raised. The page load is a function from URL to either the body text with its date-match spans, or the exception it raised.

## Model

| member | source | states |
|---|---|---|
| DeadlineMiner.SearchQuery | deadline_scraper.py:37 | The query starts with the university name and ends with " undergraduate application deadlines". |
| DeadlineMiner.FirstEligibleHrefSpec | deadline_scraper.py:71-82 | First match wins. The chosen href is non-empty and belongs to the first link that has an href, a title, one of the six domain substrings and no "google.com". Nothing is chosen iff no link qualifies. |
| DeadlineMiner.SubstringNotHost | deadline_scraper.py:80 | The domain test is a substring test: a commercial host whose name merely contains ".edu" is accepted. |
| DeadlineMiner.GetDeadlinePageUrl | deadline_scraper.py:71-93 | The search loop with its early return gives the first eligible href, or None when none qualifies or the search raised. |
| DeadlineMiner.ContextWindow | deadline_scraper.py:118-122 | The window covers the match and lies inside the text. It is at most 150 characters longer than the match. It starts exactly 50 characters before the match, or at the text's start when the match lies within the first 50. It ends exactly 100 characters after the match, or at the text's end when fewer than 100 remain. |
| DeadlineMiner.Snippet | deadline_scraper.py:125-127 | Every recorded snippet begins and ends with "...". |
| DeadlineMiner.SnippetShape | deadline_scraper.py:126 | Between its ellipses a snippet has no newline, no leading or trailing whitespace and no double space, and holds exactly the window's words in order. |
| Text.CollapseWhitespaceSpec | deadline_scraper.py:126 | `' '.join(s.split())` is collapsed and keeps exactly the words of `s`. |
| DeadlineMiner.CollectSnippets | deadline_scraper.py:114-127 | The set loop ends with the set of snippets of all matches, which is empty iff there are no matches. |
| DeadlineMiner.ScrapeDeadlines | deadline_scraper.py:96-136 | A failed load gives "An error occurred: " plus the reason. No matches gives exactly the no-dates sentinel. Otherwise the result is a "; "-join listing each distinct snippet once, in an order left open, and it starts with "...". |
| DeadlineMiner.JoinStartsWithFirst | deadline_scraper.py:129-130 | A join starts with whatever its first part starts with. |
| DeadlineMiner.EllipsisIsNotSentinel | deadline_scraper.py:127-132 | A text that starts with "..." is neither failure sentinel. |
| DeadlineMiner.MineUniversity | deadline_scraper.py:180-198 | The row carries the university. With no page found, the info is "Could not find deadline page." and the URL is "N/A". Otherwise the URL is the page and the info is the page's scrape outcome. |
| DeadlineMiner.MineUniversities | deadline_scraper.py:180-198 | One row per input university, in input order, each as above. |
| Reconciler.IsFailure | identify_failures.py:39 | The failure test: one of the two sentinels verbatim, or the error prefix. A snippet listing, which starts with "...", is never a failure. |
| Reconciler.UpsertAll | identify_failures.py:50-57 | Writing rows one by one under their University string: the keys are the old keys plus the rows' University strings, and every entry is either a row of the run or the old entry unchanged. |
| Reconciler.ClassificationIsExact | identify_failures.py:10-13 | The failure test is verbatim: the page sentinel without its final period is a success, and any text after the error prefix is a failure. |
| Reconciler.MinedRowClassification | identify_failures.py:39-42 | A mined row is a failure exactly when no page was found, the page load raised, or the page had no date match. A joined-snippet row is never taken for a failure. |
| Reconciler.SuccessRows | identify_failures.py:36-42 | The kept rows are exactly the run's non-failure rows. |
| Reconciler.SelectSuccesses | identify_failures.py:36-42 | The loop keeps the non-failure rows in run order. |
| Reconciler.CollectUniverse | identify_failures.py:21-26 | The loop builds the set of all names in the university file. |
| Reconciler.UpsertRows | identify_failures.py:53-57 | The loop leaves the store as each row in turn written under its University string. |
| Reconciler.UpsertIsOverride | identify_failures.py:53-57 | Upserting a run is the old store overridden by the run's own dictionary: later rows win, and untouched keys keep their row. |
| Reconciler.LoadStoreShape | identify_failures.py:45-50 | A loaded store holds exactly the file's University strings, each mapped to a row of the file that carries it. |
| Reconciler.LastSuccessWins | identify_failures.py:53-57 | A University with a success in the run maps to its last successful row, whatever the store held. |
| Reconciler.NoSuccessKeepsEntry | identify_failures.py:39-57 | A University with no success in the run is in the store iff it was before, with the same row: failed rows never add, remove or overwrite an entry. |
| Reconciler.ReconciledKeys | identify_failures.py:50-61 | The store's keys are the old keys plus the run's successful raw University strings. Every entry is either the old row or a success row of the run. |
| Reconciler.UpsertIdempotent | identify_failures.py:53-57 | Upserting the same run twice equals upserting it once. |
| Reconciler.ReloadStore | identify_failures.py:46-50 | A store written as its rows and read back is the same store. |
| Reconciler.RerunIsStable | identify_failures.py:45-62 | Re-running with the same latest run and the store file the first run wrote gives the same store, hence the same retry set. |
| Reconciler.RetryPartition | identify_failures.py:61-62 | The retry set is disjoint from the store's keys, and together they cover the universe. |
| Reconciler.WriteRetry | identify_failures.py:64-75 | When the retry set is non-empty, it is written once each in ascending order. When it is empty, the retry file is removed. |
| Reconciler.WriteStoreFile | identify_failures.py:78-85 | The store is written only when non-empty, as each of its rows exactly once, sorted by University. |
| Reconciler.EmptyStoreHadNoRows | identify_failures.py:78-85 | The store file is left unwritten only when the old store file held no rows, so no success is lost. |
| Reconciler.FindFailedUniversities | identify_failures.py:15-91 | A missing university file or latest-run file ends the run with nothing written. Otherwise the store is the reconciled store, the retry set is universe minus keys, and both files are as above. |
| Sorting.SortBy | identify_failures.py:80 | `sorted` by key: the result is ordered by the key and is a permutation of the input. |
| Sorting.Enumerate | identify_failures.py:68 | `list(set)`: every element once, nothing else. |
| Sorting.SortPreservesDistinct | identify_failures.py:68 | Sorting a list without repeats gives a list without repeats. |
| Merger.NormalizeName | merge_data.py:15-27 | A null normalises to "". A normalised name holds only `[a-z0-9 -]` and never two spaces in a row. |
| Merger.NormalizeIgnoresCase | merge_data.py:24 | Names that differ only in ASCII letter case normalise equally. |
| Merger.NormalizeTwoWords | merge_data.py:24-26 | Two words separated by any whitespace run and followed by dropped punctuation normalise to the lower-cased words joined by one space. |
| Merger.TuftsExample | merge_data.py:24-26 | "Tufts University!" and "tufts   university" both normalise to "tufts university". |
| Merger.StripBeforeDelete | merge_data.py:24-25 | Because strip runs before deletion, a space before dropped trailing punctuation survives as a trailing space. |
| Merger.AcmeExample | merge_data.py:24-26 | "Acme U !" normalises to "acme u ", with a trailing space, while "Acme U" gives "acme u". |
| Merger.DeleteUnkept | merge_data.py:25 | The deletion leaves only characters of `[a-z0-9\s-]`. |
| Merger.SqueezeShape | merge_data.py:26 | Squeezing replaces every whitespace run by one space and keeps every other character in order. The result's only whitespace is single spaces, never two adjacent, and it keeps the input's words (`str.split()`) in order. It is empty, or begins or ends with whitespace, exactly when the input is or does. |
| Merger.DropNameless | merge_data.py:50 | The kept faculty rows are exactly those with a name. |
| Merger.Members | merge_data.py:53-56 | An affiliation's members are exactly the rows with that affiliation. |
| Merger.GroupByAffiliation | merge_data.py:53-57 | `groupby('affiliation')`: every group is non-empty, and its members are rows of the table carrying the group's affiliation. |
| Merger.GroupScanSpec | merge_data.py:53-57 | The scan records each affiliation once, under its members in table order. |
| Merger.GroupKeysSorted | merge_data.py:54 | The group keys are the scanned affiliations, each once. |
| Merger.GroupsAscending | merge_data.py:53-57 | Groups come in strictly ascending affiliation order. |
| Merger.GroupsHoldMembers | merge_data.py:53-57 | Each group holds exactly its affiliation's rows, in table order, and is never empty. |
| Merger.GroupsCoverRows | merge_data.py:53-57 | Every row with an affiliation lands in a group; null affiliations are dropped. |
| Merger.GroupMembersNamed | merge_data.py:50-57 | A group's members are named faculty rows carrying the group's affiliation. |
| Merger.Matching | merge_data.py:72-77 | The matches are exactly the right rows with the key, in right-table order. |
| Merger.LeftJoin | merge_data.py:72-85 | `pd.merge(how='left')`: the join has at least one row per anchor row. |
| Merger.LeftJoinRowsOk | merge_data.py:72-85 | Every joined row pairs an anchor row either with a right row of the same key, or with a null when no right row has that key. |
| Merger.LeftJoinKeepsAnchors | merge_data.py:72-85 | The left join keeps every anchor row. |
| Merger.UniqueKeysMatchAtMostOne | merge_data.py:72-77 | With unique right keys, an anchor matches at most one row. |
| Merger.LeftJoinOnePerAnchor | merge_data.py:72-85 | With unique right keys, the join has exactly one row per anchor, in anchor order. |
| Merger.GroupKeysUnique | merge_data.py:53-67 | When affiliations that normalise alike are spelled alike, the groups' normalised keys are unique. |
| Merger.MergeData | merge_data.py:33-124 | A missing input file gives no output. Otherwise the output is the two left joins projected onto the seven columns with the three fills. |
| Merger.MergeKeepsEveryUniversity | merge_data.py:72-85 | Every row of the university file appears in the final table with its own four university columns. |
| Merger.MergedDeadlineColumns | merge_data.py:72-123 | A row's deadline columns are those of a deadline row with the university's key, nulls filled. With no such row they are "Not Found" and "N/A". |
| Merger.MergedProfessorColumn | merge_data.py:80-124 | A row's professors are the faculty group with the university's key, or the empty list when there is none. |
| Merger.ProfessorsBelongToUniversity | merge_data.py:80-85 | Every listed professor is a named faculty row whose affiliation normalises to the university's key. |
| Merger.MergeOneRowPerUniversity | merge_data.py:72-85 | With unique deadline keys and non-colliding affiliations, the final table has exactly one row per university row, in file order. |
| Bot.Translate | telegram_bot.py:81-84 | The user's language table is used when it exists, otherwise the fa table. A key missing from that table comes back as itself. |
| Bot.UnknownLanguageIsDefault | telegram_bot.py:84 | An unknown language reads exactly like fa. |
| Bot.Session.Start | telegram_bot.py:293-303 | With no database, only the apology is sent and nothing changes. Otherwise the language is set to fa only if unset, and the user's language does not change. |
| Bot.Session.ButtonCallback | telegram_bot.py:304-378 | The effects are the routing of the data. The stored language changes exactly when a language button was pressed, and then to its code. |
| Bot.Route | telegram_bot.py:304-378 | The effects of a callback: `main_menu` alone, else the language chain followed by the navigation chain. The language changes exactly for callbacks that start with `set_lang_`. |
| Bot.RoutePage | telegram_bot.py:338-342 | `page_{n}` routes to list page n. |
| Bot.RouteUniversity | telegram_bot.py:351-353 | `uni_{i}` routes to the details of university i. |
| Bot.RouteDetail | telegram_bot.py:356-359 | `detail_{cat}_{i}` routes to section cat of university i when cat has no underscore. |
| Bot.RouteProfessorsPage | telegram_bot.py:362-366 | `prof_page_{i}_{p}` routes to professor page p of university i. |
| Bot.RouteProfessorsAll | telegram_bot.py:362-366 | `prof_all_{i}_0` routes to professor page 0 of university i. |
| Bot.RouteSetLanguage | telegram_bot.py:332-335 | `set_lang_{code}` sets the code and shows the main menu. |
| Text.SplitJoin | telegram_bot.py:357 | Splitting an underscore-joined list gives the list back when no part holds an underscore. |
| Text.ParseNatToString | telegram_bot.py:352 | `int(str(n)) == n`. |
| Bot.PageWindow | telegram_bot.py:124-128 | A page's index range lies within the table and holds at most a page's worth of rows. |
| Bot.PageOfIndex | telegram_bot.py:124-128 | Index i is on page i // size and on no other page. |
| Bot.UniversityKeyboard | telegram_bot.py:121-146 | One button per university of the page, captioned with its name and with callback `uni_{idx}`, then the navigation row. |
| Bot.UniversityNavPresent | telegram_bot.py:133-141 | Main menu always appears. Prev appears on any page after the first, and next when universities remain; each leads to its page. |
| Bot.UniversityNavOnly | telegram_bot.py:133-141 | No navigation button leads to any other list page. |
| Bot.UniversityNavSpec | telegram_bot.py:133-144 | A list page is reachable from the row iff it is the previous page of a non-first page, or the next page when universities remain. The next page is never empty. |
| Bot.BackToListShowsUniversity | telegram_bot.py:256 | The details view's back button leads to the list page `index // 8`, and that page lists the university. |
| Bot.DetailsKeyboard | telegram_bot.py:148-165 | Website link, data and rankings, deadlines and professors, then "show all professors" iff the professors cell is non-empty and not "[]", then back to the given list page. |
| Bot.DetailsButtonsRoute | telegram_bot.py:154-163 | Each details button routes to the section it names. |
| Bot.FormatRankings | telegram_bot.py:179-188 | Malformed input gives the error text and an empty list the no-rankings text. Otherwise one bullet line per ranking, for the first min(n, 15). |
| Bot.FormatProfessorsPreview | telegram_bot.py:190-212 | Malformed gives the error text and empty the not-found text. Otherwise the first min(n, 5) professors, then "n - 5 more" when n > 5. |
| Bot.PreviewAccountsForAll | telegram_bot.py:199-208 | The shown professors plus the "more" count make up the whole list. |
| Bot.ProfessorBackPresent | telegram_bot.py:243-244 | The professor page's back button leads to the university's details. |
| Bot.ProfessorPrevPresent | telegram_bot.py:239-240 | On any page after the first, a button leads to the previous professor page. |
| Bot.ProfessorNextPresent | telegram_bot.py:246-247 | When professors remain, a button leads to the next professor page. |
| Bot.ProfessorNavOnly | telegram_bot.py:238-249 | No button leads to any other professor page. |
| Bot.ProfessorNavSpec | telegram_bot.py:238-249 | Back always appears. A professor page is reachable iff it is the previous of a non-first page, or the next when professors remain. |
| Bot.BuildProfessorsPaginated | telegram_bot.py:214-250 | An index outside the table or a cell that does not parse gives "no professors found". Otherwise the header names the university and page p + 1, the lines are professors [10p, min(10p + 10, n)), and the navigation row follows. |

## Left out

- The date regex `DATE_PATTERN` is not modelled. A page comes with the spans it matched: ascending, non-overlapping and inside the text.
- The browser (undetected_chromedriver, cookie banners, waits, screenshots) is two parameters: search results per query, and the page load per URL.
- `time.sleep` and the `random.uniform(6, 11)` pause between universities have no effect on the rows and are omitted.
- CSV and JSON reading and writing, `os.path.exists` and `os.remove` become values: `None` for a missing file, and `RetryFile`/`StoreFile` for what gets written or removed. Console messages are omitted.
- The merger's professors column stays a typed list of faculty records rather than the `json.dumps(indent=2)` text. The "[]" fill is the empty list.
- The merger's loop that adds missing output columns (merge_data.py:114-116) is implicit: every non-key column is an `Option` field, and such a column absent from a file is all `None`.
- Merger.MergeData: a missing key column (`name` or `affiliation` in the faculty file, `Name` in the rankings file, `University` in the deadlines file; merge_data.py:50, 54, 65, 66) raises `KeyError` and ends the run with nothing written. The model has no absent columns, so it merges those rows as if their key cells were null.
- pandas type inference is not modelled: every cell is text or null.
- The case where every faculty row is dropped, so that `groupby().apply()` yields a frame without the expected columns, is not modelled; the model gives every university the empty list.
- Merger.NormalizeName: `str.lower()` is ASCII-only here, and `\s` is the set of `str.isspace()`. Unicode case mappings that change a string's length are not modelled.
- Text.ParseNat: `int()` accepts only ASCII digit strings here. Signs, surrounding whitespace, underscores and non-ASCII digits, which `int()` also accepts, are treated as errors, so a callback such as `page_+1` is routed as an error.
- The order in which the set of snippets is joined is Python's set iteration order. It is left open: any listing of the set, each snippet once.
- The bot's `format_data`, `build_main_menu_keyboard`, `show_main_menu`, the help and language-menu layouts, and the Markdown text of `show_university_details` are not modelled. They are fixed texts and buttons without logic beyond what `Route` captures.
- Telegram API calls, the async handlers, `run_polling`, the bot token and the import-time DataFrame load (telegram_bot.py:101-108) are not modelled. The database is a parameter, and its emptiness is a flag to `Start`.
- The contents of the translation tables are a parameter.
- Bot.DetailsKeyboard requires the index to be inside the table. In the source, an out-of-range index raises `IndexError` in `show_university_details`, which nothing catches; that outcome is not modelled.
- A `set_lang_` code containing '_' stores only its last piece, as the source does. The round trip `RouteSetLanguage` is stated only for codes without '_'.
- In a professor entry the model treats three cases alike, showing "N/A" and a bold name for each: a missing key, an explicit JSON null, and the NaN an empty faculty cell becomes after `to_dict('records')` and `json.dumps` (merge_data.py:55, 59). In the source only the missing key gives "N/A" (telegram_bot.py:201, 227). A null displays "None" and a NaN displays "nan", and a NaN homepage is truthy, so the name loses its bold (telegram_bot.py:230). After the bot's `fillna('')` only the professors cell text matters for the "show all" button.
- Bot.FormatRankings: ranking entries are taken as already-rendered strings; the `str()` of a non-string JSON value is not modelled.
