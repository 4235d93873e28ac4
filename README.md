# BOE daily-summary pipeline, modelled in Dafny

This project models the core of `src/boe_sumario_text_json.py`. For each day of a year, that
program downloads the daily catalog (*sumario*) of the Spanish official gazette (BOE). It flattens
each catalog into one row per published item and classifies every item by keywords in its title.
It can also download each item's full text: it tries the XML document first and falls back to the
HTML page, strips the page furniture, and normalises the text.

The model follows the program's structure, one module per concern:

- `Wrappers`: `Option`, Python's `None`.
- `Seqs`: small facts about sequence concatenation, filtering a sequence by a predicate, and concatenating per-element blocks.
- `PyStr`: the `str` builtins the program relies on. These are `isspace`, `strip`/`lstrip`/`rstrip`,
  `split()` + `" ".join`, `startswith`, `in` on strings, and `lower`.
- `Normalizer`: `clean_final_text`.
- `Themes`: `THEME_KEYWORDS` and `classify_theme`.
- `Calendar`: `iterate_days`, the `strftime` formats, reading `YYYY-MM-DD` back, and `qmap`.
- `Fetcher`: the retry policy of `robust_get` and `robust_get_sumario_xml`.
- `ETree` and `Sumario`: the `ElementTree` calls `parse_sumario_xml` uses, and the catalog parser
  itself (`parse_sumario_xml`, `_get_text`, `_get_attr`, `_item_to_row`).
- `Dom` and `Extract`: the BeautifulSoup calls the extractors use, and `extract_plain_from_xml`
  and `extract_plain_from_html`.
- `Base`: `build_base`.
- `Inline`: `attach_inline_text`.

Loops in the source are methods with loop invariants. Each method is proved equal to a
specification function: `IterateDays == YearDays`, `ParseSumarioXml == SumarioRows`,
`BuildBase == BaseRecords`, `AttachInlineText == Attached`, and so on. The properties the program
promises are then proved as lemmas about those functions.

Two parts of the program are parameters of the model:
- **The network.** `Env.net(url)` is the script of outcomes of the attempts one `robust_get` call
  makes to that URL: attempt `i` gets `script[i]`. Every call starts again at `script[0]`, so two
  calls to one URL see the same outcomes. Each outcome is a reply with a status and a body, or a
  raised exception.
- **The three parsers.** `ET.fromstring`, `BeautifulSoup(..., "lxml-xml")` and `BeautifulSoup(..., "lxml")`
  map text to a tree, or to `None` when they raise.

Sleeps are not performed; the model counts them instead. `Fetcher` records the exponent of every
`backoff ** (i + 1)` sleep. `BuildBase` and `AttachInlineText` return the number of
`sleep_each_day` and `sleep` calls.

Behaviour of the code worth knowing:
- **Default theme.** With no keyword match, `classify_theme` returns `"Otras"`.
- **Per-day sleep.** `build_base` sleeps only after days whose catalog came back. On the other
  days, the `continue` skips the sleep. `BuildBase`'s `pauses` counts exactly those days.
- **Main-region selectors.** The first main-region selector is `#text`.
- **Truncation length.** After the cut, `truncate_text` drops trailing whitespace, so the result
  is at most `n + 1` characters long. `Inline.TruncateExact` gives the case where it is exactly
  `n + 1`: the cut ends in a non-space.
- **Negative `max_texts`.** A negative `max_texts` is truthy and `0 >= max_texts` holds, so the loop
  stops before the first record. Such a call stores no text.
- **Negative `truncate_text`.** It always cuts, using Python's slice from the end.

## Model

| member | source | states |
|---|---|---|
| PyStr.StripSpec | src/boe_sumario_text_json.py:66 | `s.strip()` is `s` with only its end whitespace removed: `s` is whitespace, the result, whitespace, and the result has no whitespace at either end |
| PyStr.LStrip | src/boe_sumario_text_json.py:66 | `lstrip()` returns a suffix; what it drops is all whitespace; the result starts with a non-space |
| PyStr.RStrip | src/boe_sumario_text_json.py:263 | `rstrip()` returns a prefix; what it drops is all whitespace; the result ends with a non-space |
| PyStr.StripEmpty | src/boe_sumario_text_json.py:308-309 | `s.strip()` is empty exactly when `s` is all whitespace (the blank-title test) |
| PyStr.StripIdempotent | src/boe_sumario_text_json.py:137 | stripping twice is stripping once |
| PyStr.CollapseWsSpec | src/boe_sumario_text_json.py:207 | `" ".join(s.split())` has single ASCII spaces only, none at the ends; empty exactly when `s` is blank |
| PyStr.WordsOfJoin | src/boe_sumario_text_json.py:200 | splitting undoes joining words with single spaces |
| PyStr.CollapseWsIdempotent | src/boe_sumario_text_json.py:200 | collapsing whitespace twice is collapsing it once |
| PyStr.ContainsAt | src/boe_sumario_text_json.py:72 | `kw in t` holds exactly when `kw` occurs at some position of `t` |
| PyStr.LowerSpec | src/boe_sumario_text_json.py:69 | `lower()` leaves no capital, keeps every other character in place, is the identity on a text without capitals, and is idempotent |
| Normalizer.NfkcFacts | src/boe_sumario_text_json.py:63 | the NFKC image is stable under NFKC and is blank exactly when the input is |
| Normalizer.BlanksShape | src/boe_sumario_text_json.py:64 | after `[ \t]+ -> " "` there are no tabs and no two spaces in a row |
| Normalizer.BlanksIdentity | src/boe_sumario_text_json.py:64 | the substitution leaves text without tabs or double spaces unchanged |
| Normalizer.NewlinesShape | src/boe_sumario_text_json.py:65 | after `\n{3,} -> \n\n` no three newlines follow each other, and no tab or double space appears that was not already there |
| Normalizer.NewlinesIdentity | src/boe_sumario_text_json.py:65 | the substitution leaves text without triple newlines unchanged |
| Normalizer.StripSlice | src/boe_sumario_text_json.py:66 | the final `strip()` keeps the text free of tabs, double spaces and triple newlines, and NFKC-stable |
| Normalizer.CleanPasses | src/boe_sumario_text_json.py:63-66 | the four passes in order give clean text, empty exactly when the input is blank |
| Normalizer.CleanFinalTextSpec | src/boe_sumario_text_json.py:60-66 | `clean_final_text` returns `""` for `""`, always returns clean text, and returns `""` exactly for blank input |
| Normalizer.CleanFixedPoint | src/boe_sumario_text_json.py:60-66 | a text is its own cleaning exactly when it is clean |
| Normalizer.CleanIdempotent | src/boe_sumario_text_json.py:60-66 | cleaning twice is cleaning once |
| Themes.ThemeKeywordsWellFormed | src/boe_sumario_text_json.py:30-39 | the eight themes in insertion order are distinct, and none is `"Otras"` |
| Themes.FirstMatch | src/boe_sumario_text_json.py:70-73 | the index found has a keyword in the text and no earlier entry has one; none exactly when no entry has one |
| Themes.ClassifyWithFirst | src/boe_sumario_text_json.py:68-74 | the default exactly when no theme matches; otherwise the earliest matching theme |
| Themes.EarlierThemeWins | src/boe_sumario_text_json.py:70-73 | once theme `i` matches, no later theme can be returned |
| Themes.FirstThemeWins | src/boe_sumario_text_json.py:70-73 | a text with a keyword of the first theme gets that theme |
| Themes.ClassifyThemeSpec | src/boe_sumario_text_json.py:68-74 | the result is a table theme or `"Otras"`: `"Otras"` exactly when no keyword occurs in the lower-cased title, otherwise the first matching theme |
| Themes.EmptyTextIsDefault | src/boe_sumario_text_json.py:69-74 | with no empty keyword, the empty text gets the default |
| Themes.EmptyTitleIsOtras | src/boe_sumario_text_json.py:69-74 | `None` and `""` are both classified `"Otras"` |
| Themes.CovidAidIsHealth | src/boe_sumario_text_json.py:31-32 | "Ayudas COVID" also matches the economy keyword `ayuda`, but is health by table order |
| Calendar.DayOfYearRange | src/boe_sumario_text_json.py:77-78 | a valid date's position lies in 1..year length, and equals the length exactly on 31 December |
| Calendar.DayOfYearOrder | src/boe_sumario_text_json.py:79 | within a year, `<` and `==` on dates agree with their positions in the year |
| Calendar.NextDayFacts | src/boe_sumario_text_json.py:81 | the day after 31 December is 1 January of the next year; any other day is followed by the next valid date of the same year |
| Calendar.DaysFromFacts | src/boe_sumario_text_json.py:79-81 | `n` consecutive days from `d` that stay within its year are valid and occupy positions `DayOfYear(d) + i` |
| Calendar.YearDaysSpec | src/boe_sumario_text_json.py:76-81 | `iterate_days(year)` yields every valid date of the year exactly once: from 1 January to 31 December, each the day after the previous one and strictly increasing |
| Calendar.YearDaysValid | src/boe_sumario_text_json.py:76-81 | every yielded day is a valid date |
| Calendar.IterateGuard | src/boe_sumario_text_json.py:79 | `d <= end` holds exactly while days of the year remain |
| Calendar.IterateStep | src/boe_sumario_text_json.py:80-81 | yielding `d` and moving to `d + 1 day` advances the cursor by one day |
| Calendar.IterateDays | src/boe_sumario_text_json.py:76-81 | the loop yields exactly `YearDays(year)` |
| Calendar.Pad2RoundTrip | src/boe_sumario_text_json.py:299-300 | `%02d` gives two digits that read back as the number |
| Calendar.Value2RoundTrip | src/boe_sumario_text_json.py:321 | two digits read as a number print back as the same two digits |
| Calendar.IsoRoundTrip | src/boe_sumario_text_json.py:300 | reading back `d.strftime("%Y-%m-%d")` gives `d` |
| Calendar.IsoCanonical | src/boe_sumario_text_json.py:321 | a string that reads as a date is that date's `%Y-%m-%d` form |
| Calendar.MonthLabelIsPrefix | src/boe_sumario_text_json.py:322 | the `%Y-%m` label is the first seven characters of the `%Y-%m-%d` date |
| Calendar.QMapQuarter | src/boe_sumario_text_json.py:323-324 | `qmap` maps every month to `Q((m-1)/3+1)` |
| Fetcher.RetryFromSpec | src/boe_sumario_text_json.py:85-98 | from attempt `i`: every request but the last is retried; a body returned is the last attempt's accepted body; `None` follows a 400/404 or the last try; the sleep exponents count up from `i+1` |
| Fetcher.RetrySpec | src/boe_sumario_text_json.py:83-101 | at most `max(0, max_tries)` requests; sleep exponents `1, 2, ...`; returns `body` exactly when some attempt reached without a final verdict accepts `body` |
| Fetcher.RobustGet | src/boe_sumario_text_json.py:85-101 | the loop's result, request count and sleeps are those of `Retry` |
| Fetcher.RobustGetContent | src/boe_sumario_text_json.py:83-101 | `robust_get` with three tries; a returned body is non-empty |
| Fetcher.RobustGetSumarioXml | src/boe_sumario_text_json.py:276-294 | `robust_get_sumario_xml` with three tries; a returned text is not blank |
| Fetcher.RecoversOnThirdTry | src/boe_sumario_text_json.py:85-98 | a 500, then an exception, then a 200: three requests and sleeps `1.6**1`, `1.6**2` |
| Fetcher.NotFoundStops | src/boe_sumario_text_json.py:90-92 | a 404 returns `None` after one request and no sleep |
| Fetcher.GivesUpAfterThree | src/boe_sumario_text_json.py:98-101 | three failures: three requests, three sleeps (the last after the last attempt), then `None` |
| Fetcher.SecondTrySucceeds | src/boe_sumario_text_json.py:85-98 | a retried first attempt and an accepted second one: two requests, one sleep |
| Fetcher.BlankCatalogIsRetried | src/boe_sumario_text_json.py:281 | a 200 with all-whitespace text is retried by the catalog fetch |
| Fetcher.BlankContentIsAccepted | src/boe_sumario_text_json.py:88 | the same reply is accepted by `robust_get`, which only needs non-empty content |
| ETree.TaggedSpec | src/boe_sumario_text_json.py:117 | `findall` keeps exactly the elements with the tag, and no more of them than there were |
| ETree.FindChildSpec | src/boe_sumario_text_json.py:136 | `find("./tag")` is the first child with the tag; `None` exactly when no child has it |
| ETree.FirstTagged | src/boe_sumario_text_json.py:136 | the first element `findall` keeps is the first one with the tag |
| ETree.ChildIsDescendant | src/boe_sumario_text_json.py:110-113 | a child with the tag is found by `.//tag` too |
| Sumario.GetTextSpec | src/boe_sumario_text_json.py:135-137 | `_get_text` is the stripped text of the first matching child, or `""` when there is no child or no text |
| Sumario.GetAttrSpec | src/boe_sumario_text_json.py:139-141 | `_get_attr` is the attribute of the first child with the tag; `""` when no child has the tag or that child lacks the attribute |
| Sumario.ItemToRowSpec | src/boe_sumario_text_json.py:143-161 | the row has no date, carries the branch it was given, and its fields are the stripped child texts and the `url_pdf` attributes |
| Sumario.ItemRowsSpec | src/boe_sumario_text_json.py:127-129 | one row per item, in order |
| Sumario.ItemRowsShape | src/boe_sumario_text_json.py:127-132 | all rows from one list of items are well formed and carry that list's branch |
| Sumario.EpigrafeRowsSpec | src/boe_sumario_text_json.py:125-129 | the epigraph rows number the items of all the epigraphs; they carry the department's branch, each with the `nombre` of one of those epigraphs |
| Sumario.EpigrafeRowsAt | src/boe_sumario_text_json.py:125-129 | item `k` of epigraph `i` gives the row placed after all items of earlier epigraphs and the `k` items before it, on the branch with that epigraph's `nombre` |
| Sumario.DeptRowsSpec | src/boe_sumario_text_json.py:122-132 | a department gives all its epigraph rows first, then direct item `k` as row `n + k` on the department's branch with an empty epigraph, whatever the document order of the two kinds of children |
| Sumario.DeptsRowsWellFormed | src/boe_sumario_text_json.py:122 | every department row is well formed |
| Sumario.SeccionesRowsWellFormed | src/boe_sumario_text_json.py:119 | every section row is well formed |
| Sumario.DiariosRowsWellFormed | src/boe_sumario_text_json.py:117 | every diario row is well formed |
| Sumario.ItemRowsMember | src/boe_sumario_text_json.py:126-132 | the rows of an item list are exactly the rows of its items on the branch |
| Sumario.EpigrafeRowsMember | src/boe_sumario_text_json.py:124-128 | the epigrafe rows are exactly the rows of the epigrafes' items, each carrying its own epigrafe's `nombre` |
| Sumario.DeptRowsMember | src/boe_sumario_text_json.py:121-132 | a departamento's rows are exactly the rows of its direct items and of its epigrafes' items, on its `codigo` and `nombre` |
| Sumario.SeccionBlockMember | src/boe_sumario_text_json.py:118-132 | a seccion's rows are exactly those of its `departamento` children, carrying its `codigo` and `nombre` |
| Sumario.DiarioBlockMember | src/boe_sumario_text_json.py:116-132 | a diario's rows are exactly those of its `seccion` children, carrying its `numero` |
| Sumario.SumarioRowsMember | src/boe_sumario_text_json.py:105-132 | no rows without a parsed `sumario` below a `data` descendant; otherwise exactly the rows of the items below each `diario`'s sections and departments, carrying every ancestor's attributes |
| Sumario.SumarioRowsWellFormed | src/boe_sumario_text_json.py:103-133 | every parsed row is undated and has stripped text fields |
| Sumario.AppendItems | src/boe_sumario_text_json.py:127-132 | the item loop appends `ItemRows` |
| Sumario.AppendEpigrafes | src/boe_sumario_text_json.py:125-129 | the epigraph loop appends `EpigrafeRows` |
| Sumario.AppendDept | src/boe_sumario_text_json.py:122-132 | one department appends `DeptRows` |
| Sumario.AppendDepts | src/boe_sumario_text_json.py:122-132 | the department loop appends `DeptsRows` |
| Sumario.AppendDiario | src/boe_sumario_text_json.py:117-132 | one diario appends its sections' rows |
| Sumario.ParseSumarioXml | src/boe_sumario_text_json.py:103-133 | `parse_sumario_xml` returns exactly `SumarioRows` |
| Dom.GetTextSpec | src/boe_sumario_text_json.py:170 | `get_text(" ", strip=True)` has no whitespace at its ends, and is empty exactly when all the strings under the node are blank |
| Dom.StrippedVisibleEmpty | src/boe_sumario_text_json.py:170 | no string survives stripping exactly when all of them are blank |
| Dom.FirstMatching | src/boe_sumario_text_json.py:204 | `select_one` with a selector list gives the earliest element in document order that matches any of the selectors, whichever selector it is; `None` exactly when none matches |
| Dom.FreeOfDescendants | src/boe_sumario_text_json.py:194-196 | a tree is free of a selector exactly when none of its descendants matches it |
| Dom.PruneFrees | src/boe_sumario_text_json.py:195-196 | after decomposing what a selector matches, nothing left matches it |
| Dom.PruneKeepsFree | src/boe_sumario_text_json.py:195-196 | decomposing for one selector keeps a tree free of the others |
| Dom.RemoveFirstSpec | src/boe_sumario_text_json.py:198-202 | `find(name).decompose()` removes something exactly when `find` finds a tag, and then the tree shrinks by that tag's size; otherwise the tree is unchanged |
| Dom.RemoveFirstAllSpec | src/boe_sumario_text_json.py:202 | the same for a list of siblings |
| Dom.RemoveFirstOrder | src/boe_sumario_text_json.py:198-202 | after `find(name).decompose()` the document-order walk of the tree is the old walk with the found tag's own walk cut out, no tag of that name before the cut; the root keeps its name and attributes |
| Dom.RemoveFirstAllOrder | src/boe_sumario_text_json.py:202 | the same cut for a list of siblings |
| Dom.RemoveFirstKeepsFree | src/boe_sumario_text_json.py:198-202 | decomposing the first `h1` keeps a tree free of any selector it was free of |
| Dom.FreeOfDescendant | src/boe_sumario_text_json.py:194-204 | a descendant of a tree free of a selector is free of it too |
| Extract.VisibleOnly | src/boe_sumario_text_json.py:189 | the filter keeps every non-blank part, in order, and nothing else (it equals `Seqs.Filter` by `Visible`); empty exactly when every part is blank |
| Extract.AppendTexts | src/boe_sumario_text_json.py:168-172 | the `texto` loop appends the non-empty texts |
| Extract.AppendSections | src/boe_sumario_text_json.py:174-181 | the section loop appends every heading and paragraph text |
| Extract.ExtractPlainFromXml | src/boe_sumario_text_json.py:163-190 | the extractor returns `XmlPlain` |
| Extract.JoinVisible | src/boe_sumario_text_json.py:189 | joining non-blank parts is blank exactly when there are none |
| Extract.XmlPlainSpec | src/boe_sumario_text_json.py:163-190 | the XML text is clean, and empty exactly when every collected part is blank |
| Extract.PruneEachFrees | src/boe_sumario_text_json.py:194-196 | after the removal loop, nothing matches any chrome selector |
| Extract.RemoveChrome | src/boe_sumario_text_json.py:194-196 | the loop prunes the selectors in order, and leaves nothing matching any of them |
| Extract.DropTitleSpec | src/boe_sumario_text_json.py:198-202 | a first `h1` matching a non-empty known title is cut out of the document-order walk, with nothing else changed or reordered and no `h1` before it; otherwise the page is unchanged |
| Extract.MainRegionSpec | src/boe_sumario_text_json.py:204 | the main region is the first descendant in document order matching any content selector when one exists, else the body, else the document |
| Extract.MainRegionKeepsFree | src/boe_sumario_text_json.py:204 | the main region is free of whatever the document is free of |
| Extract.CollectBlocks | src/boe_sumario_text_json.py:206-209 | the block loop collects `BlockTexts` |
| Extract.BlockTextsCollapsed | src/boe_sumario_text_json.py:207 | every collected block text has single spaces only |
| Extract.ExtractPlainFromHtml | src/boe_sumario_text_json.py:192-212 | the extractor returns `HtmlPlain` |
| Extract.HtmlPlainSpec | src/boe_sumario_text_json.py:192-212 | the HTML text is clean; the region it is read from has nothing matching a chrome selector; the text is empty exactly when no block under that region has text |
| Inline.BodyPlainSpec | src/boe_sumario_text_json.py:236-256 | the body text is clean; the XML text wins when it is non-empty, and the HTML text is used otherwise; links that are not http(s) give `""` |
| Inline.FetchBody | src/boe_sumario_text_json.py:236-256 | the two fetch attempts compute `BodyPlain`; the XML link gets requests only when it is http(s), the page only when it is http(s) and the XML text is empty; each gets at most `DefaultTries` requests |
| Inline.PyPrefix | src/boe_sumario_text_json.py:263 | `s[:n]` is always a prefix of `s`; it keeps the first `n` characters for `n >= 0` and drops the last `-n` for `n < 0`, clipped to the length |
| Inline.TruncateSpec | src/boe_sumario_text_json.py:262-263 | untouched unless longer than a non-zero bound; when cut, ends in one `…` after a prefix of the body that ends in a non-space; at most `n + 1` characters for a positive bound |
| Inline.TruncateExact | src/boe_sumario_text_json.py:263 | when the cut ends in a non-space, the result is the first `n` characters plus `…` |
| Inline.CountTextsMonotone | src/boe_sumario_text_json.py:266 | the count of texts never goes down along the frame |
| Inline.CountTextsAtMost | src/boe_sumario_text_json.py:266 | there are at most as many texts as records |
| Inline.LoopDone | src/boe_sumario_text_json.py:225-227 | when the loop ends or breaks, the frame and the count are the specified ones, and a break means the limit was reached |
| Inline.AttachLoop | src/boe_sumario_text_json.py:225-274 | the loop leaves `AttachedCol` and `Capped(count, max_texts)`, and sleeps once per record it does not break at |
| Inline.AttachInlineText | src/boe_sumario_text_json.py:214-274 | `attach_inline_text` returns `Attached` and `ProcessedCount`, and sleeps once per record before the break |
| Inline.SelectedUpToSpec | src/boe_sumario_text_json.py:226-227 | the records selected among the first `n` number `Capped` of the texts among them |
| Inline.AttachedSpec | src/boe_sumario_text_json.py:218-266 | other columns are kept; a selected record gets its truncated non-empty body text (clean when not truncated); every other record keeps its text, or `""` when the column was added |
| Inline.ProcessedSpec | src/boe_sumario_text_json.py:222-227 | `processed` counts the selected records, is at most the frame size and at most a positive `max_texts`; a negative `max_texts` stores nothing |
| Inline.UnlimitedSelectsAll | src/boe_sumario_text_json.py:226 | with no limit, a record gets a text exactly when its body text is non-empty |
| Base.StampSpec | src/boe_sumario_text_json.py:308-313 | a row with a blank title is dropped; any other becomes one record stamped with the day |
| Base.StampAllSpec | src/boe_sumario_text_json.py:307-313 | a day's records are exactly its items with a non-blank title, in order, each with the day's date and the theme of its title |
| Base.DayRecordsSpec | src/boe_sumario_text_json.py:299-313 | a day whose fetch failed gives no records; otherwise one per titled item of its parsed catalog, in order, each stamped with that day |
| Base.DaysRecordsSpec | src/boe_sumario_text_json.py:298-314 | each record is stamped with one of the days, and the days of the records go forward in the order of the days |
| Base.OnDateWithPeriods | src/boe_sumario_text_json.py:321-324 | adding the period columns does not change which records have a given date |
| Base.DaysOnDate | src/boe_sumario_text_json.py:298-314 | among the records of distinct days, those dated like day `d` are the records of `d`, or none when `d` is not among them |
| Base.BaseRecordsOnDay | src/boe_sumario_text_json.py:296-325 | the records `build_base` gives any day of the year are exactly that day's records, in order, with their period columns |
| Base.PeriodOfStamped | src/boe_sumario_text_json.py:321-324 | a stamped record reads back as its date, with `mes` its `YYYY-MM` and `trimestre` its quarter |
| Base.BaseRecordsSpec | src/boe_sumario_text_json.py:296-325 | every record has a date of the year with matching `fecha`, `mes`, `trimestre`, a non-blank title, its theme and no text; records are in date order; each day's records are exactly that day's titled items, none for a failed day |
| Base.AppendStamped | src/boe_sumario_text_json.py:307-313 | the item loop appends `StampAll` |
| Base.FetchCatalog | src/boe_sumario_text_json.py:299-303 | the day's fetch returns `DayCatalog` for the `%Y%m%d` URL |
| Base.AppendDay | src/boe_sumario_text_json.py:306-313 | a fetched day appends `DayRecords` |
| Base.BuildBase | src/boe_sumario_text_json.py:296-325 | `build_base` returns `BaseRecords` and sleeps once per day whose catalog came back |

## Left out

- Writing output (`ensure_dir`, `write_jsonl`, `df_to_jsonl`, lines 41-58) and `main` (327-357)
  are file and command-line glue.
- I/O.
  - Sleeps, clocks, logging and the throughput report are not modelled. Sleeps are counted.
  - The `timeout` argument and `HEADERS_XML` have no effect on the scripted network.
  - `requests.get` follows a per-URL script of outcomes that covers the attempts of one call; every
    call replays it from the start. An attempt past the end of the script raises.
- Parsers.
  - `ET.fromstring` and both BeautifulSoup parsers are `Env` parameters that return a tree or `None`.
  - The model does not parse markup.
  - A parser exception becomes `None`. The extraction `try/except` is `None` leading to `""`.
- `Normalizer.NfkcChar`: NFKC covers only the compatibility mappings of the no-break and
  typographic spaces and the fullwidth ASCII forms. Every other character is taken as already
  normalised, because the Unicode tables are not part of this model.
- `PyStr.LowerChar`: `lower()` covers ASCII and Latin-1 capitals only, for the same reason.
- `Dom`: the tree has tags and text strings only. Comments, CDATA and other navigable strings are
  not modelled. CSS selectors are limited to the `name`, `.class` and `#id` forms the program uses.
- `Dom.Prune`: `decompose()` is modelled as building the pruned tree. The page is not changed in
  place, and no element can be aliased.
- `Fetcher.Outcome`: a reply's `r.content` and `r.text` are one string. Byte decoding is not
  modelled.
- `Calendar.NextDay`: `dt.date` fails past 31 December 9999. The model keeps years in 1..9999 and
  does not model that overflow.
- `Calendar.Pad4`: `%Y` is four digits wide, as Python prints it on Linux for years 1000..9999.
  Zero-padding of smaller years is platform-dependent and is not modelled.
- Pandas.
  - The data frame is a sequence of `Base.Record`. `copy()`, `iterrows` and `df.at` are sequence
    operations.
  - A column the frame lacks, or a `NaN` cell, is `None`.
  - `row.get(col, "")` always finds the column, because every record carries every catalog field.
  - The empty-frame early return gives the same empty result.
- `Base.WithPeriod`: pandas stores the parsed dates as nanosecond timestamps, so
  `pd.to_datetime(..., errors="coerce")` turns a date outside 1677-09-21..2262-04-11 into `NaT`,
  and its `mes` and `trimestre` become `NaN`. The model gives every date of years 1..9999 its month
  and quarter; that timestamp range is not modelled.
- `Base.BaseRecordsSpec`: its `mes` and `trimestre` clauses match the program only for dates in
  1677-09-21..2262-04-11, for the reason just given.
- `Inline.AttachInlineText`: the `texto_limpio` column is taken as absent exactly when no record
  has a text value. A frame with some `NaN` texts and some strings is treated as having the column.
