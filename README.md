# Regulatory-document scrapers, modelled in Dafny

The repository holds two web scrapers for chemical-regulation sites, the
EUR-Lex database and the ECHA portal, and a base class they share. For every
search keyword, a bot does the following:

1. It types the keyword into the site's search box and orders the results
   by last modification. ECHA also sets a "modified after" date filter.
2. It walks the result pages under a page limit, where 0 means no limit.
3. It turns each result row into a tuple `(url, date, name, description)`
   and puts the tuple in the PDF list or the non-PDF list.
4. It downloads the PDFs and saves them with their metadata and a summary.
5. It fetches the other pages and saves their summary, their tables and
   their metadata.

After the last keyword it closes the browser.

This project models the decision logic of that loop: date normalisation,
name building and collision suffixes, PDF/non-PDF classification, the page
limit and the next-page test, and how exceptions end a page or a search. It
also models the folders, files and records the base class writes for each
keyword.

The browser appears as data. For each keyword, a `Site` value says which
controls appear and which result pages the `Next` link reaches, in order.
Each page holds the element texts and attributes the scrapers read.

HTTP requests are a function `Fetch` from a URL to an optional response. The
response holds the body bytes and the tables the HTML parser finds in them.

The file system is a list of `Effect`s: a directory created, a file written
with a given content, or the browser closed.

## Modules

- `Wrappers` (`wrappers.dfy`): `Option` and `Result`.
- `Text` (`text.dfy`): the Python string operations the scrapers use, on
  `seq<char>`:
  - `strip`, `split`, `replace`, `[:n]` and `startswith`;
  - substring containment (XPath `contains`);
  - decimal rendering of the collision counter.
- `Results` (`results.dfy`): what the two bots share:
  - the result tuple `Entry`;
  - the `Failure`s that end a search;
  - the page-limit test and the next-link test;
  - `zip` of three lists;
  - the collision-suffix loop `SuffixUntilFree` and the function it is
    proved against, `UniqueName`.
- `EurLex` (`eurlex.dfy`): `EurWebScraper`:
  - `format_date` and the day/month/year reordering;
  - `extract_links` as a fold over result rows, where names are unique
    within one call;
  - `click_next_button`, which updates the page counter;
  - `get_urls` as a paginating function;
  - the class `EurLexScraper` with the field `currentPage`. Its methods are
    proved equal to those functions.
- `Echa` (`echa.dfy`): `EchaWebScraper.get_urls`:
  - link absolutisation;
  - the `DD/MM/YY` to `20YY-MM-DD` rewrite;
  - name building, and classification by the second-to-last `/` segment;
  - the row loop (`Fill`) and the page loop (`Paginate`), and the
    imperative loops `ReadRow`, `ReadPage`, `ReadPages` and `GetUrls`
    proved equal to them.
- `Base` (`base.dfy`): `BaseScraper`:
  - keyword sanitisation and `os.path.join`;
  - `create_folder_structure`;
  - the metadata and summary files;
  - `download_pdf_files`, `save_pdf_data`, `process_non_pdf_urls` and
    `extract_and_save_tables`, both as effect lists and as loops proved
    equal to them.
- `Scraper` (`scraper.dfy`): `BaseScraper.start` over the two bots.

### Behaviour kept as the code has it

- **EUR-Lex (`extract_links`):**
  - A row's name must differ from every field of every earlier tuple *of
    the same call*. The test `unique_name in item` is an equality test
    against the members of a tuple, not a substring test.
  - `urls` is a fresh list in each call. So the same name can come back
    from the PDF call and the HTML call, or from two pages
    (`NamesRepeatAcrossPages`).
- **ECHA (`get_urls`):**
  - The suffix loop tests against `matching_links`, a list nothing is ever
    appended to. The loop never runs, and two rows with the same date and
    title get the same name (`ScrapeDuplicateNames`).
  - Names are therefore not unique within a run, as a description of the
    scrapers might suggest. The model follows the code.
- **Page counter (`click_next_button`):** the EUR-Lex counter advances
  whenever the limit test passes, even when the link is then found disabled.
- **Exceptions inside a search:**
  - In both bots a date that does not unpack raises inside the loop. In
    ECHA, so do a link without `/` and a `Next` link without `class`.
  - The exception is logged, and the tuples collected up to that row are
    returned. In ECHA these are the tuples of the earlier pages and of the
    rows of the failing page before the failing row
    (`Echa.ScrapeStopsAtFailure`, `Echa.ScrapeClassMissingAt`).
  - In EUR-Lex an exception ends the whole `extract_links` call, so the
    page's tuples of that link type are lost. An exception in the HTML call
    of a page keeps that page's PDF tuples (`ScrapeStopsAtFailure`).
  - In EUR-Lex a missing or class-less `Next` link raises inside
    `click_next_button`, which catches it and returns False. The loop then
    ends normally, with no failure logged.

## Model

| member | source | states |
|---|---|---|
| Text.Strip | src/bots/eur_lexWebScraping.py:107 | `strip()`: the result is the slice of the input that starts after its leading whitespace and is followed in the input by whitespace only; it neither starts nor ends with whitespace |
| Text.StripSurrounded | src/bots/eur_lexWebScraping.py:107 | whitespace, then a text with no whitespace at either end, then whitespace, strips to exactly that text |
| Text.Split | src/bots/eur_lexWebScraping.py:109 | `split(c)` yields one more piece than there are separators, and no piece contains the separator |
| Text.SplitJoinBack | src/bots/eur_lexWebScraping.py:109 | joining the pieces of `split(c)` with `c` gives back the original string |
| Text.SplitJoin | src/bots/eur_lexWebScraping.py:109 | splitting a join of separator-free pieces gives the pieces back |
| Text.Replace | src/bots/eur_lexWebScraping.py:115 | `replace`: only characters of the input other than the replaced one, or of the replacement, occur in the result; a one-character replacement keeps the length |
| Text.Take | src/bots/eur_lexWebScraping.py:107 | `[:n]` is a prefix of length `min(n, len)` |
| Text.NatToStringInjective | src/bots/eur_lexWebScraping.py:120 | different counters render as different decimal strings |
| Text.ContainsAt | src/bots/eur_lexWebScraping.py:104 | substring containment holds exactly when the text occurs at some position |
| Results.Zip3 | src/bots/eur_lexWebScraping.py:106 | `zip` of three lists is as long as the shortest of them, and its i-th triple holds the i-th elements |
| Results.FieldsTaken | src/bots/eur_lexWebScraping.py:119 | the collision test on a name holds exactly when the name equals a field of an earlier tuple |
| Results.CandidateInjective | src/bots/eur_lexWebScraping.py:117-121 | the base name and the names `base-k` for different `k` are all different |
| Results.UniqueName | src/bots/eur_lexWebScraping.py:117-121 | the chosen name collides with no earlier tuple, and every candidate tried before it does collide |
| Results.UniqueNameKeepsFree | src/bots/eur_lexWebScraping.py:117-121 | a base name that collides with nothing is kept unchanged |
| Results.CandidateChars | src/bots/eur_lexWebScraping.py:120 | the suffix adds only `-` and digits to the base name |
| Results.SuffixUntilFree | src/bots/eur_lexWebScraping.py:117-121 | the counter loop stops, and returns the first candidate that collides with nothing |
| EurLex.FormatDate | src/bots/eur_lexWebScraping.py:147-159 | the formatted date contains no `/`; without a `;` it keeps the length of its input |
| EurLex.FormatDateBeforeSemicolon | src/bots/eur_lexWebScraping.py:157-158 | with a `;`, only the stripped text before the first `;` is kept, with `/` turned into `-` |
| EurLex.ReorderDate | src/bots/eur_lexWebScraping.py:109-110 | the unpacking into day, month and year succeeds exactly when the date has two dashes; otherwise it raises (the unpacking error carries no date; the model records it as `BadDate(…)` of the dashed date) |
| EurLex.ReorderDateParts | src/bots/eur_lexWebScraping.py:109-110 | `D-M-Y` becomes `Y-M-D` |
| EurLex.ReorderDateInvolutive | src/bots/eur_lexWebScraping.py:109-110 | reordering twice gives back the original date |
| EurLex.DateTextClean | src/bots/eur_lexWebScraping.py:108-110 | a date that unpacks has no `/` |
| EurLex.DateTextSlashed | src/bots/eur_lexWebScraping.py:108-110 | a `DD/MM/YYYY` cell becomes `YYYY-MM-DD` |
| EurLex.DateTextAnnotated | src/bots/eur_lexWebScraping.py:108-110 | a `DD/MM/YYYY; note` cell becomes `YYYY-MM-DD`, dropping the note |
| EurLex.BaseName | src/bots/eur_lexWebScraping.py:115 | the name built from date and title contains no `/`, `:` or space |
| EurLex.CleanNameChar | src/bots/eur_lexWebScraping.py:115 | a `/` or a space becomes `_`, a `:` disappears, and every other character is kept |
| EurLex.CleanNameAppend | src/bots/eur_lexWebScraping.py:115 | the replacements work character by character, so with `CleanNameChar` they are pinned on every text |
| EurLex.BaseNameParts | src/bots/eur_lexWebScraping.py:115 | the name is the cleaned date, a `-`, and the cleaned title |
| EurLex.BaseNameKeepsSafe | src/bots/eur_lexWebScraping.py:115 | a date and a title without `/`, `:` or space are joined as `{date}-{title}` unchanged |
| EurLex.UniqueNameSafe | src/bots/eur_lexWebScraping.py:115-121 | the collision suffix keeps a name free of `/`, `:` and space |
| EurLex.LinksOfType | src/bots/eur_lexWebScraping.py:103 | at most one `href` per anchor |
| EurLex.LinksOfTypeSnoc | src/bots/eur_lexWebScraping.py:103 | one more anchor adds its `href` at the end exactly when its title starts with the link type; this pins the filter and its document order |
| EurLex.LinkTypesDisjoint | src/bots/eur_lexWebScraping.py:84-85 | no title starts with both `pdf` and `html`, so no link is extracted by both calls |
| EurLex.DateCells | src/bots/eur_lexWebScraping.py:104 | every date cell kept contains a `/` |
| EurLex.DateCellsSnoc | src/bots/eur_lexWebScraping.py:104 | one more `dd` is added at the end exactly when it contains a `/`; this pins the filter and its document order |
| EurLex.RowsOfTriplesAt | src/bots/eur_lexWebScraping.py:106-113 | the i-th row holds the stripped title, the parsed date and the link of the i-th zipped triple |
| EurLex.RowsPerResult | src/bots/eur_lexWebScraping.py:101-106 | a result block yields as many rows as the shortest of its name, date and link lists |
| EurLex.CollectSpec | src/bots/eur_lexWebScraping.py:100-125 | each appended tuple is what the row makes against the tuples appended before it |
| EurLex.RowsOk | src/bots/eur_lexWebScraping.py:108-110 | the call returns its tuples exactly when every row's date unpacks |
| EurLex.CollectFailure | src/bots/eur_lexWebScraping.py:108-110 | a failing call fails with the error of one of its rows' dates |
| EurLex.MadeEntry | src/bots/eur_lexWebScraping.py:107-123 | unpacks one made tuple into its fields: the link, the reordered date, the suffixed name of date and the first 20 title characters, and the whole stripped title |
| EurLex.ExtractedEntry | src/bots/eur_lexWebScraping.py:95-125 | `extract_links` returns one tuple per row, in row order, each made from its row against the tuples before it |
| EurLex.ExtractedNamesFresh | src/bots/eur_lexWebScraping.py:117-123 | within one call a name equals no field of an earlier tuple; no two tuples of a call share a name |
| EurLex.ExtractedSafe | src/bots/eur_lexWebScraping.py:95-125 | every tuple of a call has a date without `/` and a name without `/`, `:` or space |
| EurLex.ClickNext | src/bots/eur_lexWebScraping.py:127-145 | a click happens exactly when the limit test passes and the link is enabled; the counter advances exactly when the limit test passes |
| EurLex.ScrapeSetupFailure | src/bots/eur_lexWebScraping.py:72-74 | a search or sort failure returns two empty lists, with the search timeout or "No results found" as the logged failure |
| EurLex.ScrapeReadBound | src/bots/eur_lexWebScraping.py:75-88 | no more pages are read than the site has, nor more than a positive limit |
| EurLex.ScrapeFirstPagesOnly | src/bots/eur_lexWebScraping.py:132-136 | with a positive limit, pages after the limit have no influence on the result |
| EurLex.PaginateThrough | src/bots/eur_lexWebScraping.py:76-88 | from any page on, a run of readable pages ending where the limit or a disabled `Next` link stops the loop reads each page once, logs nothing, and extends the PDF list by their `pdf` tuples and the other list by their `html` tuples, page after page |
| EurLex.ScrapeReadsLimit | src/bots/eur_lexWebScraping.py:76-88 | with readable pages linked by enabled `Next` links, exactly `limit` pages are read, nothing fails, and the lists hold the `pdf` and `html` tuples of pages `1..limit` in page order |
| EurLex.ScrapeUnboundedReadsAll | src/bots/eur_lexWebScraping.py:76-88 | with limit 0, every page up to the first disabled `Next` link is read, and the lists hold the `pdf` and `html` tuples of all those pages in page order |
| EurLex.PaginateUntilFailure | src/bots/eur_lexWebScraping.py:76-91 | from any page on, the loop stops at the first page whose extraction raises: the lists gain the earlier pages' tuples, plus that page's PDF tuples when only the HTML call raised, and the exception is logged |
| EurLex.ScrapeStopsAtFailure | src/bots/eur_lexWebScraping.py:61-93 | the same for `get_urls`: the tuples of pages `1..k-1` in page order, page `k`'s PDF tuples when only its HTML call raised, `k` pages read, and the exception as the failure |
| EurLex.ScrapeSafe | src/bots/eur_lexWebScraping.py:61-93 | every tuple `get_urls` returns has a date without `/` and a name without `/`, `:` or space |
| EurLex.NamesRepeatAcrossPages | src/bots/eur_lexWebScraping.py:84-100 | uniqueness is local to one call: a page shown twice returns its tuples twice |
| EurLex.EurLexScraper.ClickNextButton | src/bots/eur_lexWebScraping.py:127-145 | the result and the new counter are those of `ClickNext` on the old counter |
| EurLex.EurLexScraper.ExtractLinks | src/bots/eur_lexWebScraping.py:95-125 | the nested loops with the suffix loop return exactly `Extracted` |
| EurLex.EurLexScraper.GetUrls | src/bots/eur_lexWebScraping.py:61-93 | the two lists and the failure are those of `Scrape`; the counter ends where the page loop leaves it, or is untouched when setup fails |
| Echa.AbsoluteLink | src/bots/echaWebScraping.py:113-114 | a link starting with `/` gets `https://echa.europa.eu` in front; other links are kept; the result never starts with `/` |
| Echa.AbsoluteLinkIdempotent | src/bots/echaWebScraping.py:113-114 | making a link absolute twice changes nothing more |
| Echa.Dashed | src/bots/echaWebScraping.py:115 | the stripped date with `/` turned into `-` contains no `/` |
| Echa.EchaDate | src/bots/echaWebScraping.py:115-118 | the date unpacks exactly when it has two separators; the result starts with `20` and has no `/`; otherwise it raises (the unpacking error carries no date; the model records it as `BadDate(…)` of the dashed date) |
| Echa.EchaDateSlashed | src/bots/echaWebScraping.py:115-118 | `DD/MM/YY` becomes `20YY-MM-DD` |
| Echa.EchaName | src/bots/echaWebScraping.py:120-121 | the name contains no `/`, `:`, space or newline, and only characters of date, title, `-` and `_` |
| Echa.CleanFileName | src/bots/echaWebScraping.py:120-121 | the four replacements leave no `/`, `:`, space or newline, and add only `_` |
| Echa.CleanFileNameChar | src/bots/echaWebScraping.py:120-121 | a `/`, a space or a newline becomes `_`, a `:` disappears, and every other character is kept |
| Echa.CleanFileNameAppend | src/bots/echaWebScraping.py:120-121 | the replacements work character by character, so with `CleanFileNameChar` they are pinned on every text |
| Echa.EchaNameParts | src/bots/echaWebScraping.py:120-121 | the name is the cleaned date, a `-`, and the cleaned title |
| Echa.EchaNameKeepsSafe | src/bots/echaWebScraping.py:120-121 | a date and a title fit for a file name are joined as `{date}-{title}` unchanged |
| Echa.IsPdfLink | src/bots/echaWebScraping.py:130 | classifying a link raises exactly when it has no `/` |
| Echa.IsPdfLinkSegments | src/bots/echaWebScraping.py:130 | a link counts as a PDF exactly when its second-to-last segment ends in `.pdf` |
| Echa.ClassifyEntry | src/bots/echaWebScraping.py:108-133 | a row's tuple holds the absolute link, the normalised date, the name as built (the suffix loop leaves it alone) and the stripped description, in the list the link selects |
| Echa.ClassifyFails | src/bots/echaWebScraping.py:113-130 | a row raises exactly when its date does not unpack or its link has no `/`; a bad date is reported first |
| Echa.Rows | src/bots/echaWebScraping.py:108 | the rows of a page are the `zip` of titles, dates and descriptions |
| Echa.FillSpec | src/bots/echaWebScraping.py:108-133 | the row loop appends, in row order, to each list the tuples before the first exception that belong to it, and reports that exception |
| Echa.BucketPartition | src/bots/echaWebScraping.py:130-133 | when no row raises, every row lands in exactly one of the two lists |
| Echa.BucketMember | src/bots/echaWebScraping.py:130-133 | each good row's tuple is in the list its link selects |
| Echa.ScrapeSetupFailure | src/bots/echaWebScraping.py:85-90 | a failed search, date filter or sort returns two empty lists with that step's failure |
| Echa.ScrapeReadBound | src/bots/echaWebScraping.py:137-148 | no more pages are read than the site has, nor more than a positive limit |
| Echa.ScrapeFirstPagesOnly | src/bots/echaWebScraping.py:137-148 | with a positive limit, pages after the limit have no influence on the result |
| Echa.FillReadable | src/bots/echaWebScraping.py:108-133 | a page none of whose rows raises extends each list by the tuples of its rows that belong there, in row order |
| Echa.NextPage | src/bots/echaWebScraping.py:108-144 | a readable page below the limit whose `Next` link is enabled adds its rows' tuples to the lists and moves the loop to the next page |
| Echa.LastPage | src/bots/echaWebScraping.py:108-148 | a readable page after which the limit or a disabled `Next` link ends the loop adds its rows' tuples and ends the run without a logged error |
| Echa.ReadsThroughFrom | src/bots/echaWebScraping.py:137-148 | conditions stated over a whole run of pages give, page by page, the condition under which the loop goes on or stops normally |
| Echa.PaginateThrough | src/bots/echaWebScraping.py:93-148 | from any page on, a run of readable pages ending where the limit or the last `Next` link stops the loop reads each page once, logs nothing, and extends each list by those pages' tuples that belong to it, page after page and row after row |
| Echa.ScrapeReadsLimit | src/bots/echaWebScraping.py:93-148 | with readable pages linked by enabled `Next` links, exactly `limit` pages are read, nothing fails, and the lists hold the tuples of pages `1..limit` in page and row order |
| Echa.ScrapeUnboundedReadsAll | src/bots/echaWebScraping.py:93-148 | with limit 0, every page up to the first disabled `Next` link is read, and the lists hold the tuples of all those pages in page and row order |
| Echa.ScrapeClassMissing | src/bots/echaWebScraping.py:142-143 | a `Next` link without `class` raises; the rows of the page are kept |
| Echa.FailingPage | src/bots/echaWebScraping.py:108-150 | a page whose rows all appear but one of which raises keeps the tuples of the rows before it, counts as read, and ends the loop with that row's exception |
| Echa.ClassMissingPage | src/bots/echaWebScraping.py:140-150 | a readable page whose `Next` link has no `class`, looked at within the limit, keeps all its rows' tuples and ends the loop with that exception |
| Echa.Until | src/bots/echaWebScraping.py:93-152 | after readable pages whose `Next` links are followed, the lists hold those pages' tuples, then whatever the page that ends the loop adds, with its exception |
| Echa.PaginateUntilFailure | src/bots/echaWebScraping.py:93-152 | from any page on, a row that raises on page `k` after good pages ends the loop: the earlier pages' tuples, then those of the rows of page `k` before the failing one, are returned, `k` pages are read, and that row's exception is logged |
| Echa.PaginateUntilClassMissing | src/bots/echaWebScraping.py:93-152 | from any page on, a readable page `k` whose `Next` link has no `class` ends the loop after good pages: all `k` pages' tuples are returned and the exception is logged |
| Echa.ScrapeStopsAtFailure | src/bots/echaWebScraping.py:74-152 | the same for `get_urls` from page 1: a bad row on page `k` returns the partial lists of pages `1..k` and logs that row's exception |
| Echa.ScrapeClassMissingAt | src/bots/echaWebScraping.py:74-152 | `get_urls` with a class-less `Next` link on page `k` returns the tuples of pages `1..k` and logs the exception |
| Echa.ScrapeSafe | src/bots/echaWebScraping.py:74-152 | every tuple returned has a date without `/` and a name without `/`, `:`, space or newline |
| Echa.ScrapeDuplicateNames | src/bots/echaWebScraping.py:124-128 | names are not made unique: a page with the same row twice returns two tuples with one name |
| Echa.ReadRow | src/bots/echaWebScraping.py:109-133 | the loop body, with its suffix loop over `matching_links`, computes `Classify` |
| Echa.ReadPage | src/bots/echaWebScraping.py:108-133 | the row loop computes `Fill` over the page's rows |
| Echa.ReadPages | src/bots/echaWebScraping.py:93-148 | the `while True` loop computes `Paginate` from page 1 |
| Echa.GetUrls | src/bots/echaWebScraping.py:74-152 | the two lists and the failure are those of `Scrape` |
| Base.SanitizeKeyword | structure/baseScrapper.py:41 | the sanitised keyword has no `:` or space, is no longer than the keyword, and adds only `_` |
| Base.SanitizeKeywordChar | structure/baseScrapper.py:41 | a `:` disappears, a space becomes `_`, and every other character is kept; with `SanitizeKeywordAppend` this pins the folder name |
| Base.SanitizeKeywordAppend | structure/baseScrapper.py:41 | sanitisation works character by character |
| Base.SanitizeKeywordIdempotent | structure/baseScrapper.py:41 | sanitising twice changes nothing more |
| Base.PathJoinShape | structure/baseScrapper.py:41 | `os.path.join` ends with its second part; an absolute second part replaces the first |
| Base.PathJoinLast | structure/baseScrapper.py:96 | joining a part without `/` makes it the last path segment |
| Base.KeywordFolderUnderSite | structure/baseScrapper.py:41 | the keyword folder lies under `data/raw/{site}` whenever the sanitised keyword does not start with `/` (an absolute keyword replaces the site root, as `os.path.join` does) |
| Base.SubfolderInKeywordFolder | structure/baseScrapper.py:43-46 | each subfolder lies in the keyword folder and ends in its own name |
| Base.FolderStructure | structure/baseScrapper.py:40-46 | the keyword folder is created first, then `pdf`, `text`, `metadata` and `json` |
| Base.MetadataOf | structure/baseScrapper.py:62-68 | the record carries the tuple's name, date and URL and the keyword; the notifying country is never known |
| Base.MetadataFile | structure/baseScrapper.py:93-98 | `save_metadata` creates the metadata folder, then writes the record to a path in it whose last component is `metadata_{name}.json` |
| Base.SummaryLines | structure/baseScrapper.py:105-109 | a summary has the four lines title, distribution date, keywords and summary, each ended by a newline |
| Base.SavesUseCreatedFolders | structure/baseScrapper.py:94-103 | the folders the metadata and summary saves create are among those created for the keyword |
| Base.StripAll | structure/baseScrapper.py:126 | each header text is the stripped text of its cell |
| Base.DataRows | structure/baseScrapper.py:127-130 | rows without cells are dropped, and none is left exactly when every row is empty |
| Base.DataRowsAppend | structure/baseScrapper.py:127-130 | the rows of a table are handled one by one, in order |
| Base.DataRowsOne | structure/baseScrapper.py:127-130 | a `tr` gives its stripped cells when it has a `td`, and nothing otherwise |
| Base.KeepIff | structure/baseScrapper.py:131 | a table is kept exactly when it has a header and a row with a cell |
| Base.KeptOne | structure/baseScrapper.py:131-136 | one table contributes at most one kept table, and only a table worth keeping |
| Base.KeptTablesWellFormed | structure/baseScrapper.py:123-136 | every kept table has headers, rows, and no empty row |
| Base.KeptTablesAppend | structure/baseScrapper.py:125-136 | the tables of a page are kept independently, in order |
| Base.TablesWrites | structure/baseScrapper.py:137-143 | saving tables never closes the browser |
| Base.TablesWrittenIff | structure/baseScrapper.py:131-143 | the tables file is written exactly when some table of the page is kept |
| Base.ExtractAndSaveTables | structure/baseScrapper.py:121-143 | the table loop creates exactly the folders and file of `TablesWrites` for the kept tables |
| Base.RecordOf | structure/baseScrapper.py:53-60 | a tuple contributes one record when its request succeeds, none otherwise |
| Base.DownloadWrites | structure/baseScrapper.py:53-71 | a tuple writes nothing exactly when its request fails |
| Base.DownloadOne | structure/baseScrapper.py:53-71 | the loop body computes the tuple's record and writes |
| Base.DownloadPdfFiles | structure/baseScrapper.py:49-72 | the loop returns the records and writes of all tuples, in order |
| Base.DownloadAllFetched | structure/baseScrapper.py:52-60 | when every request succeeds, there is one record per tuple, with its URL, date, name and response content |
| Base.DownloadSkipsFailure | structure/baseScrapper.py:70-71 | a tuple whose request fails is skipped without disturbing the others |
| Base.SavePdfData | structure/baseScrapper.py:112-119 | the pdf folder is created, then one file per record |
| Base.PdfFilesPerRecord | structure/baseScrapper.py:115-118 | record i is written to `{file_name}.pdf` in the pdf folder with its content |
| Base.ProcessWrites | structure/baseScrapper.py:76-91 | a page writes nothing exactly when its request fails, and never closes the browser |
| Base.ProcessOne | structure/baseScrapper.py:77-91 | the loop body computes the page's writes: summary, tables, metadata |
| Base.ProcessNonPdfUrls | structure/baseScrapper.py:74-91 | the loop computes the writes of all pages, in order |
| Base.ProcessSkipsFailure | structure/baseScrapper.py:90-91 | a page whose request fails is skipped without disturbing the others |
| Base.KeywordWritesNoQuit | structure/baseScrapper.py:32-36 | nothing done for one keyword closes the browser |
| Scraper.SiteName | src/bots/eur_lexWebScraping.py:24 | the site name is `eur_lex` exactly for the EUR-Lex bot and `ECHA` exactly for the ECHA bot |
| Scraper.StartQuitsOnceAtEnd | structure/baseScrapper.py:29-37 | the browser is closed exactly once, as the last effect, even without keywords |
| Scraper.StartFirstKeyword | structure/baseScrapper.py:31-36 | the first keyword is handled completely before the others |
| Scraper.KeywordSearchFailed | structure/baseScrapper.py:32-35 | a keyword whose search fails still gets its folders and the pdf folder, and nothing else is written for it |
| Scraper.ScrapeKeyword | structure/baseScrapper.py:32-36 | the loop body for one keyword computes `KeywordEffects` |
| Scraper.Start | structure/baseScrapper.py:29-37 | `start()` writes every keyword's effects in order, then closes the browser |

## Left out

- Selenium (finding elements, waits, clicks, typing) is not modelled as
  such. The pages a bot reaches are a `Site` value. A 20-second wait that
  runs out is a `Failure` value.
- `time.sleep` is dropped.
- `driver.get(base_url)` is dropped, both in the ECHA bot's constructor and
  at the start of `get_urls`.
- `select_date(2012, 8, 9)`: of its clicks on the date picker, only the
  chance that a control does not appear is kept (`DateFilterTimeout`). The
  date filter's effect on the results is part of the `Site` value.
- Logging (`setup_shared_logger`, `log_error`, the `logger` calls) is left
  out. The logged failure is returned as an `Option<Failure>`.
- The message text of exceptions, including `str(e).splitlines()`, is left
  out.
- `requests.get` is a function of the URL: one URL always gives the same
  response, and an exception is `None`. HTTP status codes play no part,
  because the code does not check them.
- BeautifulSoup parsing is left out. A response carries its tables, already
  parsed into header texts and rows of cell texts.
- `get_text()` of nested markup is not modelled.
- The JSON layout of the metadata and table files (`indent=4`,
  `ensure_ascii=False`) and the file encodings are not modelled. A file's
  content is a `Content` value.
- Exceptions raised by file writes inside the save functions are not
  modelled: every write succeeds.
- `os.makedirs` with `exist_ok=True` is a `MakeDirs` effect. Directory
  creation is not checked for errors.
- Strings are sequences of code points. Python's `str.isspace` is written
  out as the list of characters it accepts; no normalisation or encoding is
  modelled.
- `Base.PathJoin` models POSIX `os.path.join` only.
- The bots' `limited_pages` is any integer. A negative limit behaves as the
  code does: the limit test fails and no further page is read.
  `float('inf')` is the condition `limit == 0`.
- The ECHA bot's `matching_links` is always empty. `Echa.ReadRow`,
  `Echa.ReadPage` and `Echa.ReadPages` take it as a parameter and require it
  to be empty, as in the code; the suffix loop over it is modelled and
  never runs.
- EurLex.RowsOk: the failure of `extract_links` is stated over the rows of
  all result blocks together, rather than per block.
- Base.SummaryLines: the four-line shape is stated only for fields without
  a newline of their own. A newline inside a description makes more lines,
  as in the code.
- Scraper.ScrapeKeyword: the EUR-Lex bot's page counter is reset by
  `get_urls` itself, so the keyword's effects do not depend on its old value.
  The contract therefore gives no final value for the counter.
