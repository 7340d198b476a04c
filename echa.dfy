/**
 * The ECHA scraper (`EchaWebScraper.get_urls`): for every result row the
 * link is made absolute, the `DD/MM/YY` date becomes `20YY-MM-DD`, a name
 * fit for a file is built from date and title, and the row goes to the PDF
 * or the non-PDF list by the second-to-last segment of its link; then the
 * `Next` link decides whether another page is read.
 *
 * As in the source, the name is run through the suffix loop against
 * `matching_links`, a list nothing is ever appended to: the loop never
 * runs, and two rows with the same date and title get the same name.
 */
module Echa {
  import opened Wrappers
  import opened Text
  import opened Results

  /** A result title link: its `href` attribute and its text. */
  datatype TitleLink = TitleLink(href: string, text: string)

  /**
   * One page of results: the title links, the date cells that follow them,
   * the description blocks, and the `Next` link if the page has one.
   */
  datatype Page = Page(results: seq<TitleLink>, dates: seq<string>, descriptions: seq<string>, next: Option<NextButton>)

  /**
   * What the browser shows for one keyword: whether the search field, the
   * date picker's controls and the sort select appear, and the result pages
   * in the order the `Next` link reaches them.
   */
  datatype Site = Site(searchBox: bool, datePicker: bool, sortSelect: bool, pages: seq<Page>)

  /** The site a relative link is resolved against. */
  const Origin := "https://echa.europa.eu"

  // ---------------------------------------------------------------- one row

  /** A link starting with `/` gets the site in front; any other link is kept as it is. */
  function AbsoluteLink(link: string): (r: string)
    ensures EndsWith(r, link)
    ensures !StartsWith(r, "/")
    ensures !StartsWith(link, "/") ==> r == link
    ensures StartsWith(link, "/") ==> r == Origin + link
  {
    if StartsWith(link, "/") then
      assert (Origin + link)[|Origin|..] == link;
      assert (Origin + link)[0] == 'h';
      Origin + link
    else link
  }

  /** Making a link absolute a second time changes nothing. */
  lemma AbsoluteLinkIdempotent(link: string)
    ensures AbsoluteLink(AbsoluteLink(link)) == AbsoluteLink(link)
  {
  }

  /** `date.text.strip().replace('/', '-')`: the text that is split into day, month and year. */
  function Dashed(raw: string): (r: string)
    ensures '/' !in r
  {
    Replace(Strip(raw), '/', "-")
  }

  /**
   * The date of a row: the dashed text split at `-` into day, month and
   * year, then `20` put before the year and the parts reversed. It succeeds
   * exactly when the stripped text holds two separators, `/` and `-`
   * counted together; any other count raises.
   */
  function EchaDate(raw: string): (r: Result<string, Failure>)
    ensures r.Ok? <==> Count(Strip(raw), '/') + Count(Strip(raw), '-') == 2
    ensures r.Ok? ==> StartsWith(r.value, "20") && '/' !in r.value
    ensures r.Err? ==> r.error == BadDate(Dashed(raw))
  {
    var parts := Split(Dashed(raw), '-');
    DashedParts(Strip(raw));
    if |parts| == 3 then
      YearFirstClean(Dashed(raw));
      Ok("20" + parts[2] + "-" + parts[1] + "-" + parts[0])
    else Err(BadDate(Dashed(raw)))
  }

  /** Dashing a text leaves three parts exactly when the text holds two separators. */
  lemma DashedParts(s: string)
    ensures |Split(Replace(s, '/', "-"), '-')| == 3 <==> Count(s, '/') + Count(s, '-') == 2
  {
    ReplaceCount(s, '/', '-');
  }

  /** The date rebuilt from the parts of a text without `/` starts with `20` and has no `/`. */
  lemma YearFirstClean(d: string)
    requires '/' !in d && |Split(d, '-')| == 3
    ensures var parts := Split(d, '-');
      var date := "20" + parts[2] + "-" + parts[1] + "-" + parts[0];
      StartsWith(date, "20") && '/' !in date
  {
    var parts := Split(d, '-');
    var date := "20" + parts[2] + "-" + parts[1] + "-" + parts[0];
    SplitPiecesIn(d, '-');
    assert date[..2] == "20";
    assert forall ch :: ch in date ==> ch in "20" || ch == '-' || ch in d;
  }

  /**
   * `DD/MM/YY` becomes `20YY-MM-DD`. The year is not inspected: a year of
   * any number of digits gets `20` in front.
   */
  lemma EchaDateSlashed(day: string, month: string, year: string)
    requires Digits(day) && Digits(month) && Digits(year)
    ensures EchaDate(day + "/" + month + "/" + year) == Ok("20" + year + "-" + month + "-" + day)
  {
    DigitsPlain(day);
    DigitsPlain(month);
    DigitsPlain(year);
    var raw := day + "/" + month + "/" + year;
    assert raw[0] == day[0] && raw[|raw| - 1] == year[|year| - 1];
    StripFixed(raw);
    SlashesToDashes(day, month, year);
    SplitThree(day, month, year, '-');
  }

  /** A name with none of `/`, `:`, space and newline. */
  predicate FileSafe(name: string) {
    '/' !in name && ':' !in name && ' ' !in name && '\n' !in name
  }

  /**
   * `f"{date}-{name}"` with `/` turned into `_`, `:` removed, and space and
   * newline turned into `_`: no character other than those of date and
   * title, `-` and `_` appears.
   */
  function EchaName(date: string, name: string): (r: string)
    ensures FileSafe(r)
    ensures forall ch :: ch in r ==> ch in date || ch in name || ch == '-' || ch == '_'
  {
    CleanFileName(date + "-" + name)
  }

  /** The four replacements of the name, applied to any text. */
  function CleanFileName(s: string): (r: string)
    ensures FileSafe(r)
    ensures forall ch :: ch in r ==> ch in s || ch == '_'
  {
    Replace(Replace(Replace(Replace(s, '/', "_"), ':', ""), ' ', "_"), '\n', "_")
  }

  /** Cleaning works character by character. */
  lemma CleanFileNameAppend(a: string, b: string)
    ensures CleanFileName(a + b) == CleanFileName(a) + CleanFileName(b)
  {
    var a1, b1 := Replace(a, '/', "_"), Replace(b, '/', "_");
    var a2, b2 := Replace(a1, ':', ""), Replace(b1, ':', "");
    var a3, b3 := Replace(a2, ' ', "_"), Replace(b2, ' ', "_");
    ReplaceAppend(a, b, '/', "_");
    ReplaceAppend(a1, b1, ':', "");
    ReplaceAppend(a2, b2, ' ', "_");
    ReplaceAppend(a3, b3, '\n', "_");
  }

  /** A `/`, a space or a newline becomes `_`, a `:` disappears, every other character is kept. */
  lemma CleanFileNameChar(x: char)
    ensures CleanFileName([x]) == if x == '/' || x == ' ' || x == '\n' then "_" else if x == ':' then "" else [x]
  {
    if x == ':' {
      ReplaceChar(x, '/', "_");
      ReplaceChar(x, ':', "");
    } else {
      var y := if x == '/' then '_' else x;
      ReplaceChar(x, '/', "_");
      assert Replace([x], '/', "_") == [y];
      ReplaceChar(y, ':', "");
      ReplaceChar(y, ' ', "_");
      var z := if y == ' ' then '_' else y;
      assert Replace([y], ' ', "_") == [z];
      ReplaceChar(z, '\n', "_");
    }
  }

  /** The name is the cleaned date, a `-`, and the cleaned title. */
  lemma EchaNameParts(date: string, name: string)
    ensures EchaName(date, name) == CleanFileName(date) + "-" + CleanFileName(name)
  {
    CleanFileNameAppend(date + "-", name);
    CleanFileNameAppend(date, "-");
    CleanFileNameChar('-');
  }

  /** A date and a title that are fit for a file name are joined unchanged. */
  lemma EchaNameKeepsSafe(date: string, name: string)
    requires FileSafe(date) && FileSafe(name)
    ensures EchaName(date, name) == date + "-" + name
  {
    EchaNameParts(date, name);
  }

  /**
   * `link.split('/')[-2].endswith('.pdf')`: whether the second-to-last
   * segment of the link names a PDF. A link without `/` has no such
   * segment, and the index raises.
   */
  function IsPdfLink(link: string): (r: Result<bool, Failure>)
    ensures r.Err? <==> '/' !in link
    ensures r.Err? ==> r.error == NoPathSegment(link)
  {
    var parts := Split(link, '/');
    CountZero(link, '/');
    if |parts| < 2 then Err(NoPathSegment(link)) else Ok(EndsWith(parts[|parts| - 2], ".pdf"))
  }

  /** Only the segment before the last one decides. */
  lemma IsPdfLinkSegments(front: string, segment: string, last: string)
    requires '/' !in segment && '/' !in last
    ensures IsPdfLink(front + "/" + segment + "/" + last) == Ok(EndsWith(segment, ".pdf"))
  {
    assert front + "/" + segment + "/" + last == front + ['/'] + (segment + ['/'] + last);
    SplitAppend(front, segment + ['/'] + last, '/');
    SplitAtFirst(segment, last, '/');
    SplitNone(last, '/');
  }

  /** One `(result, date, description)` triple of the `zip`. */
  type Triple = (TitleLink, string, string)

  /**
   * The loop body for one triple: which list the row goes to (`true` for
   * the PDF list) and its tuple, or the exception it raises. The date is
   * parsed before the link is classified, so a bad date is the error that
   * shows when both are wrong.
   */
  function Classify(t: Triple): Result<(bool, Entry), Failure> {
    var link := AbsoluteLink(t.0.href);
    match EchaDate(t.1)
    case Err(f) => Err(f)
    case Ok(date) =>
      var name := UniqueName(EchaName(date, Strip(t.0.text)), []);
      match IsPdfLink(link)
      case Err(f) => Err(f)
      case Ok(isPdf) => Ok((isPdf, Entry(link, date, name, Strip(t.2))))
  }

  /**
   * The tuple of a row: the absolute link, the normalised date, the name
   * exactly as built (the suffix loop leaves it alone), the stripped
   * description; the list is the one its link's segment selects.
   */
  lemma ClassifyEntry(t: Triple)
    requires Classify(t).Ok?
    ensures var (isPdf, e) := Classify(t).value;
      && e.url == AbsoluteLink(t.0.href)
      && EchaDate(t.1) == Ok(e.date)
      && e.name == EchaName(e.date, Strip(t.0.text))
      && e.description == Strip(t.2)
      && IsPdfLink(e.url) == Ok(isPdf)
  {
    var date := EchaDate(t.1).value;
    UniqueNameKeepsFree(EchaName(date, Strip(t.0.text)), []);
  }

  /** A row raises exactly when its date does not unpack or its link has no `/`; the date is checked first. */
  lemma ClassifyFails(t: Triple)
    ensures Classify(t).Err? <==> EchaDate(t.1).Err? || '/' !in AbsoluteLink(t.0.href)
    ensures EchaDate(t.1).Err? ==> Classify(t) == Err(EchaDate(t.1).error)
    ensures EchaDate(t.1).Ok? && '/' !in AbsoluteLink(t.0.href) ==> Classify(t) == Err(NoPathSegment(AbsoluteLink(t.0.href)))
  {
  }

  // ---------------------------------------------------------------- one page

  /** The two lists after some rows, and the exception that stopped them, if any. */
  datatype Buckets = Buckets(pdf: seq<Entry>, nonPdf: seq<Entry>, failure: Option<Failure>)

  /**
   * The `for` loop over the rows of a page: each row's tuple is appended
   * to the list `step` chooses; the first exception stops the loop, and the
   * tuples already appended stay.
   */
  function Fill<R>(rows: seq<R>, pdf: seq<Entry>, nonPdf: seq<Entry>, step: R -> Result<(bool, Entry), Failure>): Buckets
    decreases |rows|
  {
    if rows == [] then Buckets(pdf, nonPdf, None)
    else match step(rows[0])
      case Err(f) => Buckets(pdf, nonPdf, Some(f))
      case Ok((isPdf, e)) =>
        if isPdf then Fill(rows[1..], pdf + [e], nonPdf, step)
        else Fill(rows[1..], pdf, nonPdf + [e], step)
  }

  /** The number of rows before the first one `step` fails on. */
  function OkPrefix<R>(rows: seq<R>, step: R -> Result<(bool, Entry), Failure>): (n: nat)
    ensures n <= |rows|
    ensures forall i :: 0 <= i < n ==> step(rows[i]).Ok?
    ensures n < |rows| ==> step(rows[n]).Err?
  {
    if rows == [] || step(rows[0]).Err? then 0
    else
      var m := OkPrefix(rows[1..], step);
      assert forall i :: 1 <= i < m + 1 ==> rows[i] == rows[1..][i - 1];
      m + 1
  }

  /** The tuples of the rows that `step` sends to the list `wanted`, in row order. */
  function Bucket<R>(rows: seq<R>, step: R -> Result<(bool, Entry), Failure>, wanted: bool): (b: seq<Entry>)
    ensures |b| <= |rows|
  {
    if rows == [] then []
    else match step(rows[0])
      case Err(_) => Bucket(rows[1..], step, wanted)
      case Ok((isPdf, e)) => (if isPdf == wanted then [e] else []) + Bucket(rows[1..], step, wanted)
  }

  /**
   * The row loop extends each list by the tuples of the rows before the
   * first exception that belong to it, in row order, and reports that
   * exception.
   */
  lemma {:induction false} FillSpec<R>(rows: seq<R>, pdf: seq<Entry>, nonPdf: seq<Entry>, step: R -> Result<(bool, Entry), Failure>)
    ensures var n := OkPrefix(rows, step);
      Fill(rows, pdf, nonPdf, step)
      == Buckets(pdf + Bucket(rows[..n], step, true), nonPdf + Bucket(rows[..n], step, false),
                 if n < |rows| then Some(step(rows[n]).error) else None)
    decreases |rows|
  {
    var n := OkPrefix(rows, step);
    if rows == [] || step(rows[0]).Err? {
      assert rows[..n] == [];
    } else {
      var (isPdf, e) := step(rows[0]).value;
      var rest := rows[1..];
      var m := OkPrefix(rest, step);
      assert n == m + 1;
      assert rows[..n] == [rows[0]] + rest[..m];
      assert rows[..n][1..] == rest[..m];
      var failure := if n < |rows| then Some(step(rows[n]).error) else None;
      assert m < |rest| ==> rest[m] == rows[n];
      assert failure == if m < |rest| then Some(step(rest[m]).error) else None;
      var pdfRest, nonPdfRest := Bucket(rest[..m], step, true), Bucket(rest[..m], step, false);
      if isPdf {
        assert Bucket(rows[..n], step, true) == [e] + pdfRest;
        assert Bucket(rows[..n], step, false) == nonPdfRest;
        FillSpec(rest, pdf + [e], nonPdf, step);
        assert pdf + [e] + pdfRest == pdf + ([e] + pdfRest);
      } else {
        assert Bucket(rows[..n], step, true) == pdfRest;
        assert Bucket(rows[..n], step, false) == [e] + nonPdfRest;
        FillSpec(rest, pdf, nonPdf + [e], step);
        assert nonPdf + [e] + nonPdfRest == nonPdf + ([e] + nonPdfRest);
      }
    }
  }

  /** Each row on which `step` succeeds lands in exactly one of the two lists. */
  lemma {:induction false} BucketPartition<R>(rows: seq<R>, step: R -> Result<(bool, Entry), Failure>)
    requires forall i :: 0 <= i < |rows| ==> step(rows[i]).Ok?
    ensures |Bucket(rows, step, true)| + |Bucket(rows, step, false)| == |rows|
    decreases |rows|
  {
    if rows != [] {
      assert step(rows[0]).Ok?;
      assert forall i :: 0 <= i < |rows[1..]| ==> rows[1..][i] == rows[i + 1];
      BucketPartition(rows[1..], step);
    }
  }

  /** A row on which `step` succeeds has its tuple in the list it chose. */
  lemma {:induction false} BucketMember<R>(rows: seq<R>, step: R -> Result<(bool, Entry), Failure>, i: int)
    requires 0 <= i < |rows| && step(rows[i]).Ok?
    ensures step(rows[i]).value.1 in Bucket(rows, step, step(rows[i]).value.0)
    decreases |rows|
  {
    if i > 0 {
      assert rows[1..][i - 1] == rows[i];
      BucketMember(rows[1..], step, i - 1);
    }
  }

  /** The same row twice yields the same tuple twice, in the same list. */
  lemma FillTwice<R>(row: R, step: R -> Result<(bool, Entry), Failure>)
    requires step(row).Ok?
    ensures var b := Fill([row, row], [], [], step);
      b.pdf + b.nonPdf == [step(row).value.1, step(row).value.1] && b.failure == None
  {
    var (isPdf, e) := step(row).value;
    assert [row, row][1..] == [row];
    assert [row][1..] == [];
    assert [] + [e] == [e];
    if isPdf {
      assert Fill([row, row], [], [], step) == Fill([row], [e], [], step) == Fill([], [e, e], [], step);
    } else {
      assert Fill([row, row], [], [], step) == Fill([row], [], [e], step) == Fill([], [], [e, e], step);
    }
  }

  /** `zip(results, dates, descriptions)`: as many rows as the shortest of the three lists has elements. */
  function Rows(page: Page): (rows: seq<Triple>)
    ensures |rows| <= |page.results| && |rows| <= |page.dates| && |rows| <= |page.descriptions|
    ensures |rows| == |page.results| || |rows| == |page.dates| || |rows| == |page.descriptions|
    ensures forall i :: 0 <= i < |rows| ==> rows[i] == (page.results[i], page.dates[i], page.descriptions[i])
  {
    Zip3(page.results, page.dates, page.descriptions)
  }

  // ---------------------------------------------------------------- pagination

  /** How one row is turned into a list choice and a tuple. */
  type Step = Triple -> Result<(bool, Entry), Failure>

  /** The page `pageNumber` (counted from 1) is read when its titles, dates and descriptions all appear. */
  predicate Shows(pages: seq<Page>, pageNumber: int)
    requires 1 <= pageNumber
  {
    && pageNumber <= |pages|
    && pages[pageNumber - 1].results != []
    && pages[pageNumber - 1].dates != []
    && pages[pageNumber - 1].descriptions != []
  }

  /**
   * The `while True` loop of `get_urls` from page `pageNumber` on, with the
   * lists and the number of pages read so far. After the rows of a page:
   * stop at the page limit, stop when there is no `Next` link, raise when
   * it has no `class`, go on when it is enabled, stop otherwise.
   */
  function Paginate(pages: seq<Page>, pageNumber: int, limit: int, step: Step,
                    pdf: seq<Entry>, nonPdf: seq<Entry>, read: nat): Run
    requires 1 <= pageNumber
    decreases |pages| + 1 - pageNumber
  {
    if !Shows(pages, pageNumber) then Run(pdf, nonPdf, read, Some(ResultsTimeout))
    else
      var page := pages[pageNumber - 1];
      var b := Fill(Rows(page), pdf, nonPdf, step);
      if b.failure.Some? || !WithinLimit(pageNumber, limit) || page.next.None? then Run(b.pdf, b.nonPdf, read + 1, b.failure)
      else if page.next.value.cls.None? then Run(b.pdf, b.nonPdf, read + 1, Some(NextClassMissing))
      else if NextEnabled(page.next) then Paginate(pages, pageNumber + 1, limit, step, b.pdf, b.nonPdf, read + 1)
      else Run(b.pdf, b.nonPdf, read + 1, None)
  }

  /** Search, date filter and sort, then the loop from page 1, reading rows with `step`. */
  function Walk(site: Site, limit: int, step: Step): Run {
    if !site.searchBox then Run([], [], 0, Some(SearchTimeout))
    else if !site.datePicker then Run([], [], 0, Some(DateFilterTimeout))
    else if !site.sortSelect then Run([], [], 0, Some(SortTimeout))
    else Paginate(site.pages, 1, limit, step, [], [], 0)
  }

  /** `get_urls(keyword, limited_page)`. */
  function Scrape(site: Site, limit: int): Run {
    Walk(site, limit, Classify)
  }

  /** A failed search, date filter or sort step returns two empty lists. */
  lemma ScrapeSetupFailure(site: Site, limit: int)
    requires !site.searchBox || !site.datePicker || !site.sortSelect
    ensures Scrape(site, limit).pdf == [] && Scrape(site, limit).nonPdf == [] && Scrape(site, limit).pagesRead == 0
    ensures Scrape(site, limit).failure
         == Some(if !site.searchBox then SearchTimeout else if !site.datePicker then DateFilterTimeout else SortTimeout)
  {
  }

  lemma {:induction false} PaginateReadBound(pages: seq<Page>, pageNumber: int, limit: int, step: Step,
                                             pdf: seq<Entry>, nonPdf: seq<Entry>, read: nat)
    requires 1 <= pageNumber <= |pages| + 1 && read == pageNumber - 1
    requires limit > 0 ==> pageNumber <= limit
    ensures var r := Paginate(pages, pageNumber, limit, step, pdf, nonPdf, read);
      r.pagesRead <= |pages| && (limit > 0 ==> r.pagesRead <= limit)
    decreases |pages| + 1 - pageNumber
  {
    if Shows(pages, pageNumber) {
      var page := pages[pageNumber - 1];
      var b := Fill(Rows(page), pdf, nonPdf, step);
      if b.failure.None? && WithinLimit(pageNumber, limit) && NextEnabled(page.next) {
        PaginateReadBound(pages, pageNumber + 1, limit, step, b.pdf, b.nonPdf, read + 1);
      }
    }
  }

  /** No more pages are read than the site has, nor, with a limit `n > 0`, more than `n`. */
  lemma ScrapeReadBound(site: Site, limit: int)
    ensures Scrape(site, limit).pagesRead <= |site.pages|
    ensures limit > 0 ==> Scrape(site, limit).pagesRead <= limit
  {
    if site.searchBox && site.datePicker && site.sortSelect {
      PaginateReadBound(site.pages, 1, limit, Classify, [], [], 0);
    }
  }

  lemma {:induction false} PaginatePrefix(pages: seq<Page>, pageNumber: int, limit: int, step: Step,
                                          pdf: seq<Entry>, nonPdf: seq<Entry>, read: nat)
    requires 0 < limit <= |pages| && 1 <= pageNumber <= limit
    ensures Paginate(pages, pageNumber, limit, step, pdf, nonPdf, read)
         == Paginate(pages[..limit], pageNumber, limit, step, pdf, nonPdf, read)
    decreases |pages| + 1 - pageNumber
  {
    var page := pages[pageNumber - 1];
    assert pages[..limit][pageNumber - 1] == page;
    var b := Fill(Rows(page), pdf, nonPdf, step);
    if Shows(pages, pageNumber) && b.failure.None? && WithinLimit(pageNumber, limit) && NextEnabled(page.next) {
      PaginatePrefix(pages, pageNumber + 1, limit, step, b.pdf, b.nonPdf, read + 1);
    }
  }

  /** With a limit `n > 0`, pages after the `n`-th have no influence on the result. */
  lemma ScrapeFirstPagesOnly(site: Site, limit: int)
    requires 0 < limit <= |site.pages|
    ensures Scrape(site, limit) == Scrape(site.(pages := site.pages[..limit]), limit)
  {
    if site.searchBox && site.datePicker && site.sortSelect {
      PaginatePrefix(site.pages, 1, limit, Classify, [], [], 0);
    }
  }

  /** A page whose rows all appear and none of whose rows raises. */
  predicate PageReadable(step: Step, page: Page) {
    && page.results != [] && page.dates != [] && page.descriptions != []
    && Fill(Rows(page), [], [], step).failure.None?
  }

  /** A readable page extends each list by the tuples of its rows that belong there, in row order. */
  lemma FillReadable(page: Page, step: Step, pdf: seq<Entry>, nonPdf: seq<Entry>)
    requires PageReadable(step, page)
    ensures Fill(Rows(page), pdf, nonPdf, step)
         == Buckets(pdf + Bucket(Rows(page), step, true), nonPdf + Bucket(Rows(page), step, false), None)
  {
    var rows := Rows(page);
    FillSpec(rows, [], [], step);
    FillSpec(rows, pdf, nonPdf, step);
    assert rows[..OkPrefix(rows, step)] == rows;
  }

  /** The tuples of one list that `step` makes on a run of pages, page after page and row after row. */
  function Gathered(pages: seq<Page>, step: Step, wanted: bool): seq<Entry>
    decreases |pages|
  {
    if pages == [] then [] else Bucket(Rows(pages[0]), step, wanted) + Gathered(pages[1..], step, wanted)
  }

  /** Lists concatenated in order, grouped two ways. */
  lemma Regroup(a: seq<Entry>, b: seq<Entry>, c: seq<Entry>, d: seq<Entry>)
    ensures a + b + c + d == a + (b + c) + d
    ensures a + b + c == a + (b + c)
  {
  }

  /** A run of pages gathers the first page's tuples, then those of the rest. */
  lemma GatheredFirst(pages: seq<Page>, lo: int, hi: int, step: Step, wanted: bool)
    requires 0 <= lo < hi <= |pages|
    ensures Gathered(pages[lo..hi], step, wanted) == Bucket(Rows(pages[lo]), step, wanted) + Gathered(pages[lo + 1..hi], step, wanted)
  {
    assert pages[lo..hi][0] == pages[lo];
    assert pages[lo..hi][1..] == pages[lo + 1..hi];
  }

  /**
   * Pages `pageNumber..last` are readable, the loop follows the `Next` link of
   * each but the last, and stops after page `last` without an exception.
   */
  predicate ReadsThrough(pages: seq<Page>, pageNumber: int, limit: int, step: Step, last: int)
    requires 1 <= pageNumber <= last <= |pages|
    decreases last - pageNumber
  {
    var page := pages[pageNumber - 1];
    && PageReadable(step, page)
    && if pageNumber < last then
         WithinLimit(pageNumber, limit) && NextEnabled(page.next) && ReadsThrough(pages, pageNumber + 1, limit, step, last)
       else
         && !(WithinLimit(pageNumber, limit) && page.next.Some? && page.next.value.cls.None?)
         && !(WithinLimit(pageNumber, limit) && NextEnabled(page.next))
  }

  /** The page-by-page conditions follow from the conditions stated over the whole run. */
  lemma {:induction false} ReadsThroughFrom(pages: seq<Page>, pageNumber: int, limit: int, step: Step, last: int)
    requires 1 <= pageNumber <= last <= |pages|
    requires forall i :: pageNumber - 1 <= i < last ==> PageReadable(step, pages[i])
    requires forall i :: pageNumber - 1 <= i < last - 1 ==> NextEnabled(pages[i].next)
    requires pageNumber < last ==> WithinLimit(last - 1, limit)
    requires !(WithinLimit(last, limit) && pages[last - 1].next.Some? && pages[last - 1].next.value.cls.None?)
    requires !(WithinLimit(last, limit) && NextEnabled(pages[last - 1].next))
    ensures ReadsThrough(pages, pageNumber, limit, step, last)
    decreases last - pageNumber
  {
    assert PageReadable(step, pages[pageNumber - 1]);
    if pageNumber < last {
      assert NextEnabled(pages[pageNumber - 1].next);
      ReadsThroughFrom(pages, pageNumber + 1, limit, step, last);
    }
  }

  /** One readable page whose enabled `Next` link is followed moves the loop to the next page. */
  lemma NextPage(pages: seq<Page>, pageNumber: int, limit: int, step: Step,
                 pdf: seq<Entry>, nonPdf: seq<Entry>, read: nat)
    requires 1 <= pageNumber <= |pages| && PageReadable(step, pages[pageNumber - 1])
    requires WithinLimit(pageNumber, limit) && NextEnabled(pages[pageNumber - 1].next)
    ensures var rows := Rows(pages[pageNumber - 1]);
      Paginate(pages, pageNumber, limit, step, pdf, nonPdf, read)
      == Paginate(pages, pageNumber + 1, limit, step, pdf + Bucket(rows, step, true), nonPdf + Bucket(rows, step, false), read + 1)
  {
    FillReadable(pages[pageNumber - 1], step, pdf, nonPdf);
  }

  /** A readable page after which the loop stops ends the run normally with its rows added. */
  lemma LastPage(pages: seq<Page>, pageNumber: int, limit: int, step: Step,
                 pdf: seq<Entry>, nonPdf: seq<Entry>, read: nat)
    requires 1 <= pageNumber <= |pages| && PageReadable(step, pages[pageNumber - 1])
    requires !(WithinLimit(pageNumber, limit) && pages[pageNumber - 1].next.Some? && pages[pageNumber - 1].next.value.cls.None?)
    requires !(WithinLimit(pageNumber, limit) && NextEnabled(pages[pageNumber - 1].next))
    ensures var rows := Rows(pages[pageNumber - 1]);
      Paginate(pages, pageNumber, limit, step, pdf, nonPdf, read)
      == Run(pdf + Bucket(rows, step, true), nonPdf + Bucket(rows, step, false), read + 1, None)
  {
    FillReadable(pages[pageNumber - 1], step, pdf, nonPdf);
  }

  /** The whole run from `pageNumber`, by induction on the pages left to read. */
  lemma {:induction false} Through(pages: seq<Page>, pageNumber: int, limit: int, step: Step,
                                   pdf: seq<Entry>, nonPdf: seq<Entry>, read: nat, last: int)
    requires 1 <= pageNumber <= last <= |pages| && ReadsThrough(pages, pageNumber, limit, step, last)
    ensures Paginate(pages, pageNumber, limit, step, pdf, nonPdf, read)
         == Run(pdf + Gathered(pages[pageNumber - 1..last], step, true),
                nonPdf + Gathered(pages[pageNumber - 1..last], step, false),
                read + last - pageNumber + 1, None)
    decreases last - pageNumber
  {
    var rows := Rows(pages[pageNumber - 1]);
    var pv, hv := Bucket(rows, step, true), Bucket(rows, step, false);
    GatheredFirst(pages, pageNumber - 1, last, step, true);
    GatheredFirst(pages, pageNumber - 1, last, step, false);
    if pageNumber < last {
      NextPage(pages, pageNumber, limit, step, pdf, nonPdf, read);
      Through(pages, pageNumber + 1, limit, step, pdf + pv, nonPdf + hv, read + 1, last);
      var restP, restH := Gathered(pages[pageNumber..last], step, true), Gathered(pages[pageNumber..last], step, false);
      Regroup(pdf, pv, restP, []);
      Regroup(nonPdf, hv, restH, []);
    } else {
      LastPage(pages, pageNumber, limit, step, pdf, nonPdf, read);
      assert pages[pageNumber..last] == [];
      assert pv + [] == pv && hv + [] == hv;
    }
  }

  /**
   * A run of readable pages whose `Next` links work, ending where the limit
   * or the last page's link stops the loop without an exception: each page
   * is read once, nothing is logged, and each list is extended by the
   * tuples of those pages that belong to it, in page and row order.
   */
  lemma PaginateThrough(pages: seq<Page>, pageNumber: int, limit: int, step: Step,
                                           pdf: seq<Entry>, nonPdf: seq<Entry>, read: nat, last: int)
    requires 1 <= pageNumber <= last <= |pages|
    requires forall i :: pageNumber - 1 <= i < last ==> PageReadable(step, pages[i])
    requires forall i :: pageNumber - 1 <= i < last - 1 ==> NextEnabled(pages[i].next)
    requires pageNumber < last ==> WithinLimit(last - 1, limit)
    requires !(WithinLimit(last, limit) && pages[last - 1].next.Some? && pages[last - 1].next.value.cls.None?)
    requires !(WithinLimit(last, limit) && NextEnabled(pages[last - 1].next))
    ensures var run := Paginate(pages, pageNumber, limit, step, pdf, nonPdf, read);
      && run.pagesRead == read + last - pageNumber + 1
      && run.failure == None
      && run.pdf == pdf + Gathered(pages[pageNumber - 1..last], step, true)
      && run.nonPdf == nonPdf + Gathered(pages[pageNumber - 1..last], step, false)
  {
    ReadsThroughFrom(pages, pageNumber, limit, step, last);
    Through(pages, pageNumber, limit, step, pdf, nonPdf, read, last);
  }

  lemma WalkReadsLimit(site: Site, limit: int, step: Step)
    requires site.searchBox && site.datePicker && site.sortSelect
    requires 0 < limit <= |site.pages|
    requires forall i :: 0 <= i < limit ==> PageReadable(step, site.pages[i])
    requires forall i :: 0 <= i < limit - 1 ==> NextEnabled(site.pages[i].next)
    ensures var run := Walk(site, limit, step);
      && run.pagesRead == limit && run.failure == None
      && run.pdf == Gathered(site.pages[..limit], step, true)
      && run.nonPdf == Gathered(site.pages[..limit], step, false)
  {
    PaginateThrough(site.pages, 1, limit, step, [], [], 0, limit);
    assert site.pages[0..limit] == site.pages[..limit];
  }

  /**
   * With a limit `n > 0` and a site of at least `n` readable pages whose
   * `Next` links work, exactly `n` pages are read, nothing is logged, and
   * the lists hold the tuples of those pages in page and row order.
   */
  lemma ScrapeReadsLimit(site: Site, limit: int)
    requires site.searchBox && site.datePicker && site.sortSelect
    requires 0 < limit <= |site.pages|
    requires forall i :: 0 <= i < limit ==> PageReadable(Classify, site.pages[i])
    requires forall i :: 0 <= i < limit - 1 ==> NextEnabled(site.pages[i].next)
    ensures Scrape(site, limit).pagesRead == limit && Scrape(site, limit).failure == None
    ensures Scrape(site, limit).pdf == Gathered(site.pages[..limit], Classify, true)
    ensures Scrape(site, limit).nonPdf == Gathered(site.pages[..limit], Classify, false)
  {
    WalkReadsLimit(site, limit, Classify);
  }

  lemma WalkReadsAll(site: Site, step: Step)
    requires site.searchBox && site.datePicker && site.sortSelect && site.pages != []
    requires forall i :: 0 <= i < |site.pages| ==> PageReadable(step, site.pages[i])
    requires forall i :: 0 <= i < |site.pages| - 1 ==> NextEnabled(site.pages[i].next)
    requires var next := site.pages[|site.pages| - 1].next; !NextEnabled(next) && !(next.Some? && next.value.cls.None?)
    ensures var run := Walk(site, 0, step);
      && run.pagesRead == |site.pages| && run.failure == None
      && run.pdf == Gathered(site.pages, step, true)
      && run.nonPdf == Gathered(site.pages, step, false)
  {
    PaginateThrough(site.pages, 1, 0, step, [], [], 0, |site.pages|);
    assert site.pages[0..|site.pages|] == site.pages;
  }

  /**
   * With limit 0 the loop goes on until the last page offers no working
   * `Next` link: every page is read when each is readable, and the lists
   * hold the tuples of all pages in page and row order.
   */
  lemma ScrapeUnboundedReadsAll(site: Site)
    requires site.searchBox && site.datePicker && site.sortSelect && site.pages != []
    requires forall i :: 0 <= i < |site.pages| ==> PageReadable(Classify, site.pages[i])
    requires forall i :: 0 <= i < |site.pages| - 1 ==> NextEnabled(site.pages[i].next)
    requires var next := site.pages[|site.pages| - 1].next; !NextEnabled(next) && !(next.Some? && next.value.cls.None?)
    ensures Scrape(site, 0).pagesRead == |site.pages| && Scrape(site, 0).failure == None
    ensures Scrape(site, 0).pdf == Gathered(site.pages, Classify, true)
    ensures Scrape(site, 0).nonPdf == Gathered(site.pages, Classify, false)
  {
    WalkReadsAll(site, Classify);
  }

  /**
   * A `Next` link without a `class` raises when the limit lets the loop
   * look at it: the rows of the page are kept and the exception is logged.
   */
  lemma ScrapeClassMissing(site: Site, limit: int)
    requires site.searchBox && site.datePicker && site.sortSelect && site.pages != []
    requires PageReadable(Classify, site.pages[0]) && WithinLimit(1, limit)
    requires site.pages[0].next.Some? && site.pages[0].next.value.cls.None?
    ensures var b := Fill(Rows(site.pages[0]), [], [], Classify);
      Scrape(site, limit) == Run(b.pdf, b.nonPdf, 1, Some(NextClassMissing))
  {
  }

  /** Pages `pageNumber..last - 1` are readable and the loop follows the `Next` link of each. */
  predicate ReadsBefore(pages: seq<Page>, pageNumber: int, limit: int, step: Step, last: int)
    requires 1 <= pageNumber <= last <= |pages|
    decreases last - pageNumber
  {
    pageNumber < last ==>
      var page := pages[pageNumber - 1];
      && PageReadable(step, page) && WithinLimit(pageNumber, limit) && NextEnabled(page.next)
      && ReadsBefore(pages, pageNumber + 1, limit, step, last)
  }

  lemma {:induction false} ReadsBeforeFrom(pages: seq<Page>, pageNumber: int, limit: int, step: Step, last: int)
    requires 1 <= pageNumber <= last <= |pages|
    requires forall i :: pageNumber - 1 <= i < last - 1 ==> PageReadable(step, pages[i]) && NextEnabled(pages[i].next)
    requires pageNumber < last ==> WithinLimit(last - 1, limit)
    ensures ReadsBefore(pages, pageNumber, limit, step, last)
    decreases last - pageNumber
  {
    if pageNumber < last {
      assert PageReadable(step, pages[pageNumber - 1]) && NextEnabled(pages[pageNumber - 1].next);
      ReadsBeforeFrom(pages, pageNumber + 1, limit, step, last);
    }
  }

  /** From any lists and count, the loop at page `last` adds `endPdf` and `endNonPdf`, reads that page and ends with `failure`. */
  ghost predicate EndsAt(pages: seq<Page>, last: int, limit: int, step: Step,
                         endPdf: seq<Entry>, endNonPdf: seq<Entry>, failure: Option<Failure>)
    requires 1 <= last
  {
    forall pdf, nonPdf, read: nat ::
      Paginate(pages, last, limit, step, pdf, nonPdf, read) == Run(pdf + endPdf, nonPdf + endNonPdf, read + 1, failure)
  }

  /**
   * Pages `pageNumber..last - 1` are read and their `Next` links followed,
   * then page `last` ends the loop: the lists hold the earlier pages'
   * tuples followed by what page `last` adds.
   */
  lemma {:induction false} Until(pages: seq<Page>, pageNumber: int, limit: int, step: Step,
                                 pdf: seq<Entry>, nonPdf: seq<Entry>, read: nat, last: int,
                                 endPdf: seq<Entry>, endNonPdf: seq<Entry>, failure: Option<Failure>)
    requires 1 <= pageNumber <= last <= |pages| && ReadsBefore(pages, pageNumber, limit, step, last)
    requires EndsAt(pages, last, limit, step, endPdf, endNonPdf, failure)
    ensures Paginate(pages, pageNumber, limit, step, pdf, nonPdf, read)
         == Run(pdf + Gathered(pages[pageNumber - 1..last - 1], step, true) + endPdf,
                nonPdf + Gathered(pages[pageNumber - 1..last - 1], step, false) + endNonPdf,
                read + last - pageNumber + 1, failure)
    decreases last - pageNumber
  {
    if pageNumber < last {
      var rows := Rows(pages[pageNumber - 1]);
      var pv, hv := Bucket(rows, step, true), Bucket(rows, step, false);
      NextPage(pages, pageNumber, limit, step, pdf, nonPdf, read);
      Until(pages, pageNumber + 1, limit, step, pdf + pv, nonPdf + hv, read + 1, last, endPdf, endNonPdf, failure);
      GatheredFirst(pages, pageNumber - 1, last - 1, step, true);
      GatheredFirst(pages, pageNumber - 1, last - 1, step, false);
      var restP, restH := Gathered(pages[pageNumber..last - 1], step, true), Gathered(pages[pageNumber..last - 1], step, false);
      Regroup(pdf, pv, restP, endPdf);
      Regroup(nonPdf, hv, restH, endNonPdf);
    } else {
      assert pages[pageNumber - 1..last - 1] == [];
      assert pdf + [] == pdf && nonPdf + [] == nonPdf;
    }
  }

  /**
   * A page whose rows all appear but one of which raises: the rows before
   * it are kept in their lists, the page counts as read, and the loop ends
   * with that row's exception.
   */
  lemma FailingPage(pages: seq<Page>, pageNumber: int, limit: int, step: Step,
                    pdf: seq<Entry>, nonPdf: seq<Entry>, read: nat)
    requires 1 <= pageNumber <= |pages|
    requires var page := pages[pageNumber - 1];
      page.results != [] && page.dates != [] && page.descriptions != [] && !PageReadable(step, page)
    ensures var rows := Rows(pages[pageNumber - 1]);
      var n := OkPrefix(rows, step);
      && n < |rows|
      && Paginate(pages, pageNumber, limit, step, pdf, nonPdf, read)
         == Run(pdf + Bucket(rows[..n], step, true), nonPdf + Bucket(rows[..n], step, false), read + 1, Some(step(rows[n]).error))
  {
    var rows := Rows(pages[pageNumber - 1]);
    FillSpec(rows, [], [], step);
    FillSpec(rows, pdf, nonPdf, step);
  }

  /** A readable page whose `Next` link has no `class`, looked at within the limit: the rows are kept and the lookup raises. */
  lemma ClassMissingPage(pages: seq<Page>, pageNumber: int, limit: int, step: Step,
                         pdf: seq<Entry>, nonPdf: seq<Entry>, read: nat)
    requires 1 <= pageNumber <= |pages| && PageReadable(step, pages[pageNumber - 1]) && WithinLimit(pageNumber, limit)
    requires pages[pageNumber - 1].next.Some? && pages[pageNumber - 1].next.value.cls.None?
    ensures var rows := Rows(pages[pageNumber - 1]);
      Paginate(pages, pageNumber, limit, step, pdf, nonPdf, read)
      == Run(pdf + Bucket(rows, step, true), nonPdf + Bucket(rows, step, false), read + 1, Some(NextClassMissing))
  {
    FillReadable(pages[pageNumber - 1], step, pdf, nonPdf);
  }

  /**
   * A run of readable pages whose `Next` links work, up to a page `last`
   * one of whose rows raises: every page is read once, each list holds the
   * earlier pages' tuples and those of the rows of page `last` before the
   * failing one, and that row's exception is logged.
   */
  lemma PaginateUntilFailure(pages: seq<Page>, pageNumber: int, limit: int, step: Step,
                             pdf: seq<Entry>, nonPdf: seq<Entry>, read: nat, last: int)
    requires 1 <= pageNumber <= last <= |pages|
    requires forall i :: pageNumber - 1 <= i < last - 1 ==> PageReadable(step, pages[i]) && NextEnabled(pages[i].next)
    requires pageNumber < last ==> WithinLimit(last - 1, limit)
    requires var page := pages[last - 1];
      page.results != [] && page.dates != [] && page.descriptions != [] && !PageReadable(step, page)
    ensures var rows := Rows(pages[last - 1]);
      var n := OkPrefix(rows, step);
      var before := pages[pageNumber - 1..last - 1];
      var run := Paginate(pages, pageNumber, limit, step, pdf, nonPdf, read);
      && n < |rows|
      && run.pagesRead == read + last - pageNumber + 1
      && run.pdf == pdf + Gathered(before, step, true) + Bucket(rows[..n], step, true)
      && run.nonPdf == nonPdf + Gathered(before, step, false) + Bucket(rows[..n], step, false)
      && run.failure == Some(step(rows[n]).error)
  {
    ReadsBeforeFrom(pages, pageNumber, limit, step, last);
    var rows := Rows(pages[last - 1]);
    var n := OkPrefix(rows, step);
    FailingPage(pages, last, limit, step, pdf, nonPdf, read);
    forall pdf', nonPdf', read': nat
      ensures Paginate(pages, last, limit, step, pdf', nonPdf', read')
           == Run(pdf' + Bucket(rows[..n], step, true), nonPdf' + Bucket(rows[..n], step, false), read' + 1, Some(step(rows[n]).error))
    {
      FailingPage(pages, last, limit, step, pdf', nonPdf', read');
    }
    Until(pages, pageNumber, limit, step, pdf, nonPdf, read, last,
          Bucket(rows[..n], step, true), Bucket(rows[..n], step, false), Some(step(rows[n]).error));
  }

  /**
   * A run of readable pages whose `Next` links work, up to a readable page
   * `last` whose `Next` link has no `class` and is looked at within the
   * limit: every page's tuples are kept and the lookup's exception is logged.
   */
  lemma PaginateUntilClassMissing(pages: seq<Page>, pageNumber: int, limit: int, step: Step,
                                  pdf: seq<Entry>, nonPdf: seq<Entry>, read: nat, last: int)
    requires 1 <= pageNumber <= last <= |pages|
    requires forall i :: pageNumber - 1 <= i < last - 1 ==> PageReadable(step, pages[i]) && NextEnabled(pages[i].next)
    requires PageReadable(step, pages[last - 1]) && WithinLimit(last, limit)
    requires pages[last - 1].next.Some? && pages[last - 1].next.value.cls.None?
    ensures var run := Paginate(pages, pageNumber, limit, step, pdf, nonPdf, read);
      && run.pagesRead == read + last - pageNumber + 1
      && run.pdf == pdf + Gathered(pages[pageNumber - 1..last], step, true)
      && run.nonPdf == nonPdf + Gathered(pages[pageNumber - 1..last], step, false)
      && run.failure == Some(NextClassMissing)
  {
    assert pageNumber < last ==> WithinLimit(last - 1, limit);
    ReadsBeforeFrom(pages, pageNumber, limit, step, last);
    var rows := Rows(pages[last - 1]);
    forall pdf', nonPdf', read': nat
      ensures Paginate(pages, last, limit, step, pdf', nonPdf', read')
           == Run(pdf' + Bucket(rows, step, true), nonPdf' + Bucket(rows, step, false), read' + 1, Some(NextClassMissing))
    {
      ClassMissingPage(pages, last, limit, step, pdf', nonPdf', read');
    }
    Until(pages, pageNumber, limit, step, pdf, nonPdf, read, last,
          Bucket(rows, step, true), Bucket(rows, step, false), Some(NextClassMissing));
    var before := pages[pageNumber - 1..last - 1];
    assert pages[pageNumber - 1..last] == before + [pages[last - 1]];
    GatheredSnoc(before, pages[last - 1], step, true);
    GatheredSnoc(before, pages[last - 1], step, false);
    Regroup(pdf, Gathered(before, step, true), Bucket(rows, step, true), []);
    Regroup(nonPdf, Gathered(before, step, false), Bucket(rows, step, false), []);
  }

  /** A run of pages gathers the earlier pages' tuples, then those of its last page. */
  lemma {:induction false} GatheredSnoc(pages: seq<Page>, page: Page, step: Step, wanted: bool)
    ensures Gathered(pages + [page], step, wanted) == Gathered(pages, step, wanted) + Bucket(Rows(page), step, wanted)
    decreases |pages|
  {
    if pages == [] {
      assert ([] + [page])[1..] == [];
    } else {
      assert (pages + [page])[0] == pages[0];
      assert (pages + [page])[1..] == pages[1..] + [page];
      GatheredSnoc(pages[1..], page, step, wanted);
      Regroup([], Bucket(Rows(pages[0]), step, wanted), Gathered(pages[1..], step, wanted), Bucket(Rows(page), step, wanted));
    }
  }

  lemma WalkStopsAtFailure(site: Site, limit: int, step: Step, last: int)
    requires site.searchBox && site.datePicker && site.sortSelect
    requires 1 <= last <= |site.pages|
    requires forall i :: 0 <= i < last - 1 ==> PageReadable(step, site.pages[i]) && NextEnabled(site.pages[i].next)
    requires 1 < last ==> WithinLimit(last - 1, limit)
    requires var page := site.pages[last - 1];
      page.results != [] && page.dates != [] && page.descriptions != [] && !PageReadable(step, page)
    ensures var rows := Rows(site.pages[last - 1]);
      var n := OkPrefix(rows, step);
      var run := Walk(site, limit, step);
      && n < |rows|
      && run.pagesRead == last
      && run.pdf == Gathered(site.pages[..last - 1], step, true) + Bucket(rows[..n], step, true)
      && run.nonPdf == Gathered(site.pages[..last - 1], step, false) + Bucket(rows[..n], step, false)
      && run.failure == Some(step(rows[n]).error)
  {
    PaginateUntilFailure(site.pages, 1, limit, step, [], [], 0, last);
    var before := site.pages[0..last - 1];
    assert before == site.pages[..last - 1];
    assert [] + Gathered(before, step, true) == Gathered(before, step, true);
    assert [] + Gathered(before, step, false) == Gathered(before, step, false);
  }

  /**
   * `get_urls` on a site whose page `last` has a row that raises, after
   * `last - 1` good pages: the tuples of every earlier page and of the rows
   * of page `last` before the failing one, and that row's exception.
   */
  lemma ScrapeStopsAtFailure(site: Site, limit: int, last: int)
    requires site.searchBox && site.datePicker && site.sortSelect
    requires 1 <= last <= |site.pages|
    requires forall i :: 0 <= i < last - 1 ==> PageReadable(Classify, site.pages[i]) && NextEnabled(site.pages[i].next)
    requires 1 < last ==> WithinLimit(last - 1, limit)
    requires var page := site.pages[last - 1];
      page.results != [] && page.dates != [] && page.descriptions != [] && !PageReadable(Classify, page)
    ensures var rows := Rows(site.pages[last - 1]);
      var n := OkPrefix(rows, Classify);
      var run := Scrape(site, limit);
      && n < |rows|
      && run.pagesRead == last
      && run.pdf == Gathered(site.pages[..last - 1], Classify, true) + Bucket(rows[..n], Classify, true)
      && run.nonPdf == Gathered(site.pages[..last - 1], Classify, false) + Bucket(rows[..n], Classify, false)
      && run.failure == Some(Classify(rows[n]).error)
  {
    WalkStopsAtFailure(site, limit, Classify, last);
  }

  /**
   * `get_urls` on a site whose page `last` is readable but whose `Next`
   * link has no `class`, after `last - 1` good pages: the tuples of all
   * `last` pages, and the exception of the lookup.
   */
  lemma ScrapeClassMissingAt(site: Site, limit: int, last: int)
    requires site.searchBox && site.datePicker && site.sortSelect
    requires 1 <= last <= |site.pages|
    requires forall i :: 0 <= i < last - 1 ==> PageReadable(Classify, site.pages[i]) && NextEnabled(site.pages[i].next)
    requires PageReadable(Classify, site.pages[last - 1]) && WithinLimit(last, limit)
    requires site.pages[last - 1].next.Some? && site.pages[last - 1].next.value.cls.None?
    ensures var run := Scrape(site, limit);
      && run.pagesRead == last
      && run.pdf == Gathered(site.pages[..last], Classify, true)
      && run.nonPdf == Gathered(site.pages[..last], Classify, false)
      && run.failure == Some(NextClassMissing)
  {
    PaginateUntilClassMissing(site.pages, 1, limit, Classify, [], [], 0, last);
    assert site.pages[0..last] == site.pages[..last];
  }

  /** Every tuple a step makes has a date without `/` and a name fit for a file. */
  ghost predicate SafeStep(step: Step) {
    forall t :: step(t).Ok? ==> '/' !in step(t).value.1.date && FileSafe(step(t).value.1.name)
  }

  lemma {:induction false} FillSafe<R>(rows: seq<R>, pdf: seq<Entry>, nonPdf: seq<Entry>, step: R -> Result<(bool, Entry), Failure>)
    requires forall r :: step(r).Ok? ==> '/' !in step(r).value.1.date && FileSafe(step(r).value.1.name)
    requires forall e :: e in pdf + nonPdf ==> '/' !in e.date && FileSafe(e.name)
    ensures var b := Fill(rows, pdf, nonPdf, step);
      forall e :: e in b.pdf + b.nonPdf ==> '/' !in e.date && FileSafe(e.name)
    decreases |rows|
  {
    if rows != [] && step(rows[0]).Ok? {
      var (isPdf, e) := step(rows[0]).value;
      if isPdf {
        FillSafe(rows[1..], pdf + [e], nonPdf, step);
      } else {
        FillSafe(rows[1..], pdf, nonPdf + [e], step);
      }
    }
  }

  lemma {:induction false} PaginateSafe(pages: seq<Page>, pageNumber: int, limit: int, step: Step,
                                        pdf: seq<Entry>, nonPdf: seq<Entry>, read: nat)
    requires 1 <= pageNumber && SafeStep(step)
    requires forall e :: e in pdf + nonPdf ==> '/' !in e.date && FileSafe(e.name)
    ensures var r := Paginate(pages, pageNumber, limit, step, pdf, nonPdf, read);
      forall e :: e in r.pdf + r.nonPdf ==> '/' !in e.date && FileSafe(e.name)
    decreases |pages| + 1 - pageNumber
  {
    if Shows(pages, pageNumber) {
      var page := pages[pageNumber - 1];
      FillSafe(Rows(page), pdf, nonPdf, step);
      var b := Fill(Rows(page), pdf, nonPdf, step);
      if b.failure.None? && WithinLimit(pageNumber, limit) && NextEnabled(page.next) {
        PaginateSafe(pages, pageNumber + 1, limit, step, b.pdf, b.nonPdf, read + 1);
      }
    }
  }

  /** Every tuple `get_urls` returns has a date without `/` and a name without `/`, `:`, space or newline. */
  lemma ScrapeSafe(site: Site, limit: int)
    ensures var r := Scrape(site, limit);
      forall e :: e in r.pdf + r.nonPdf ==> '/' !in e.date && FileSafe(e.name)
  {
    forall t: Triple | Classify(t).Ok?
      ensures '/' !in Classify(t).value.1.date && FileSafe(Classify(t).value.1.name)
    {
      ClassifyEntry(t);
    }
    if site.searchBox && site.datePicker && site.sortSelect {
      PaginateSafe(site.pages, 1, limit, Classify, [], [], 0);
    }
  }

  /** A page holding the same row twice contributes its tuple twice, whatever happens after the page. */
  lemma WalkDuplicateRow(site: Site, limit: int, step: Step, t: Triple)
    requires site.searchBox && site.datePicker && site.sortSelect && |site.pages| == 1
    requires Rows(site.pages[0]) == [t, t] && Shows(site.pages, 1)
    requires step(t).Ok?
    ensures var r := Walk(site, limit, step);
      r.pdf + r.nonPdf == [step(t).value.1, step(t).value.1]
  {
    FillTwice(t, step);
    var page := site.pages[0];
    var b := Fill(Rows(page), [], [], step);
    if b.failure.None? && WithinLimit(1, limit) && NextEnabled(page.next) {
      assert !Shows(site.pages, 2);
      assert Paginate(site.pages, 1, limit, step, [], [], 0) == Paginate(site.pages, 2, limit, step, b.pdf, b.nonPdf, 1);
    }
  }

  /** Three lists that each repeat one value give that triple twice. */
  lemma RowsTwice(page: Page, t: Triple)
    requires page.results == [t.0, t.0] && page.dates == [t.1, t.1] && page.descriptions == [t.2, t.2]
    ensures Rows(page) == [t, t]
  {
  }

  /**
   * Names are not made unique: a page with the same row twice returns two
   * tuples with the same name.
   */
  lemma ScrapeDuplicateNames(site: Site, limit: int, link: TitleLink, date: string, description: string)
    requires site.searchBox && site.datePicker && site.sortSelect && |site.pages| == 1
    requires site.pages[0].results == [link, link] && site.pages[0].dates == [date, date]
    requires site.pages[0].descriptions == [description, description]
    requires Classify((link, date, description)).Ok?
    ensures var r := Scrape(site, limit);
      |r.pdf + r.nonPdf| == 2 && (r.pdf + r.nonPdf)[0].name == (r.pdf + r.nonPdf)[1].name
  {
    var t: Triple := (link, date, description);
    RowsTwice(site.pages[0], t);
    WalkDuplicateRow(site, limit, Classify, t);
  }

  // ---------------------------------------------------------------- the loop

  /**
   * The body of the row loop of `get_urls` for one `(result, date,
   * description)` triple, checked against `matching_links`: the list the row
   * goes to (`true` for the PDF list) and its tuple, or the exception raised.
   */
  method ReadRow(result: TitleLink, date: string, description: string, matchingLinks: seq<Entry>)
    returns (r: Result<(bool, Entry), Failure>)
    requires matchingLinks == []
    ensures r == Classify((result, date, description))
  {
    var link := result.href;
    var name := Strip(result.text);
    var descriptionText := Strip(description);
    if StartsWith(link, "/") {
      link := Origin + link;
    }
    var formattedDate := Replace(Strip(date), '/', "-");
    var parts := Split(formattedDate, '-');
    if |parts| != 3 {
      return Err(BadDate(formattedDate));
    }
    formattedDate := "20" + parts[2] + "-" + parts[1] + "-" + parts[0];
    var uniqueName := SuffixUntilFree(EchaName(formattedDate, name), matchingLinks);
    var segments := Split(link, '/');
    if |segments| < 2 {
      return Err(NoPathSegment(link));
    }
    return Ok((EndsWith(segments[|segments| - 2], ".pdf"), Entry(link, formattedDate, uniqueName, descriptionText)));
  }

  /**
   * The `for` loop of `get_urls` over the rows of one page, appending to the
   * two lists; an exception stops it with the lists as far as they got.
   */
  method ReadPage(page: Page, pdfUrls: seq<Entry>, nonPdfUrls: seq<Entry>, matchingLinks: seq<Entry>) returns (b: Buckets)
    requires matchingLinks == []
    ensures b == Fill(Rows(page), pdfUrls, nonPdfUrls, Classify)
  {
    var rows := Zip3(page.results, page.dates, page.descriptions);
    assert rows == Rows(page);
    var pdf, nonPdf := pdfUrls, nonPdfUrls;
    for i := 0 to |rows|
      invariant Fill(rows, pdfUrls, nonPdfUrls, Classify) == Fill(rows[i..], pdf, nonPdf, Classify)
    {
      assert rows[i..][0] == rows[i] && rows[i..][1..] == rows[i + 1..];
      var (result, date, description) := rows[i];
      var row := ReadRow(result, date, description, matchingLinks);
      if row.Err? {
        return Buckets(pdf, nonPdf, Some(row.error));
      }
      var (isPdf, entry) := row.value;
      if isPdf {
        pdf := pdf + [entry];
      } else {
        nonPdf := nonPdf + [entry];
      }
    }
    assert rows[|rows|..] == [];
    return Buckets(pdf, nonPdf, None);
  }

  /**
   * The `while True` loop of `get_urls` from page 1: the two lists and the
   * exception that ended it, if any.
   */
  method ReadPages(pages: seq<Page>, limit: int, matchingLinks: seq<Entry>)
    returns (pdfUrls: seq<Entry>, nonPdfUrls: seq<Entry>, failure: Option<Failure>)
    requires matchingLinks == []
    ensures var run := Paginate(pages, 1, limit, Classify, [], [], 0);
      pdfUrls == run.pdf && nonPdfUrls == run.nonPdf && failure == run.failure
  {
    pdfUrls, nonPdfUrls, failure := [], [], None;
    var pageNumber := 1;
    ghost var read: nat := 0;
    while true
      invariant 1 <= pageNumber
      invariant Paginate(pages, 1, limit, Classify, [], [], 0) == Paginate(pages, pageNumber, limit, Classify, pdfUrls, nonPdfUrls, read)
      decreases |pages| + 1 - pageNumber
    {
      if !Shows(pages, pageNumber) {
        failure := Some(ResultsTimeout);
        return;
      }
      var page := pages[pageNumber - 1];
      var b := ReadPage(page, pdfUrls, nonPdfUrls, matchingLinks);
      pdfUrls, nonPdfUrls := b.pdf, b.nonPdf;
      if b.failure.Some? {
        failure := b.failure;
        return;
      }
      read := read + 1;
      if !WithinLimit(pageNumber, limit) {
        return;
      }
      pageNumber := pageNumber + 1;
      if page.next.None? {
        return;
      }
      var button := page.next.value;
      if button.cls.None? {
        failure := Some(NextClassMissing);
        return;
      }
      if Contains(button.cls.value, "disabled") || button.href == Some(NoOpHref) {
        return;
      }
    }
  }

  /**
   * `get_urls(keyword, limited_page)`: the two lists it returns and the
   * exception it logs, if any.
   */
  method GetUrls(site: Site, limit: int) returns (pdfUrls: seq<Entry>, nonPdfUrls: seq<Entry>, failure: Option<Failure>)
    ensures var run := Scrape(site, limit);
      pdfUrls == run.pdf && nonPdfUrls == run.nonPdf && failure == run.failure
  {
    pdfUrls, nonPdfUrls, failure := [], [], None;
    var matchingLinks: seq<Entry> := [];
    if !site.searchBox {
      failure := Some(SearchTimeout);
      return;
    }
    if !site.datePicker {
      failure := Some(DateFilterTimeout);
      return;
    }
    if !site.sortSelect {
      failure := Some(SortTimeout);
      return;
    }
    pdfUrls, nonPdfUrls, failure := ReadPages(site.pages, limit, matchingLinks);
  }
}
