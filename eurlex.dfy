/**
 * The EUR-Lex scraper (`EurWebScraper`): date formatting, link extraction
 * for one link type with the collision suffix loop, the next-page decision
 * that advances the page counter, and the pagination loop of `get_urls`.
 *
 * The browser is replaced by its observable content: a search is a finite
 * sequence of result pages, each holding its `SearchResult` blocks and its
 * next-page link. A wait that would time out is a `Failure`.
 */
module EurLex {
  import opened Wrappers
  import opened Text
  import opened Results

  /** A link inside a result block: its `title` attribute and its `href`. */
  datatype Anchor = Anchor(title: string, href: string)

  /**
   * One `SearchResult` block: the texts of its `cellar_` title links, its
   * other links, and the texts of its `dd` elements.
   */
  datatype SearchResult = SearchResult(names: seq<string>, anchors: seq<Anchor>, dds: seq<string>)

  /** One page of results, with its "Next Page" link if it has one. */
  datatype Page = Page(results: seq<SearchResult>, next: Option<NextButton>)

  /**
   * What the browser shows for one keyword: whether the quick-search field
   * appears, whether the sort select and its "last modified" option appear,
   * and the result pages in the order the next-page link reaches them.
   */
  datatype Site = Site(searchBox: bool, sortControls: bool, pages: seq<Page>)

  /** The page counter `current_page` after `get_urls`, beside the run itself. */
  datatype Progress = Progress(run: Run, currentPage: int)

  // ---------------------------------------------------------------- dates

  /**
   * `format_date`: with a `;`, the stripped text before the first `;`;
   * without one, the text as it is; in both cases with every `/` turned
   * into `-`, so that no `/` is left.
   */
  function FormatDate(dateText: string): (r: string)
    ensures '/' !in r
    ensures ';' !in dateText ==> |r| == |dateText|
  {
    if ';' in dateText then Replace(Strip(Split(dateText, ';')[0]), '/', "-")
    else Replace(dateText, '/', "-")
  }

  /** Only what precedes the first `;` counts, stripped. */
  lemma FormatDateBeforeSemicolon(a: string, b: string)
    requires ';' !in a
    ensures FormatDate(a + ";" + b) == Replace(Strip(a), '/', "-")
  {
    SplitAtFirst(a, b, ';');
    assert (a + ";" + b)[|a|] == ';';
  }

  /**
   * `day, month, year = date_text.split('-')` followed by
   * `f"{year}-{month}-{day}"`: the three parts in reverse order, with no
   * expansion of the year; any other number of parts raises.
   */
  function ReorderDate(d: string): (r: Result<string, Failure>)
    ensures r.Ok? <==> Count(d, '-') == 2
    ensures r.Err? ==> r.error == BadDate(d)
  {
    var parts := Split(d, '-');
    if |parts| == 3 then Ok(parts[2] + "-" + parts[1] + "-" + parts[0]) else Err(BadDate(d))
  }

  /** Three dash-free parts are reversed. */
  lemma ReorderDateParts(day: string, month: string, year: string)
    requires '-' !in day && '-' !in month && '-' !in year
    ensures ReorderDate(day + "-" + month + "-" + year) == Ok(year + "-" + month + "-" + day)
  {
    var ps := [day, month, year];
    assert Join(ps[2..], '-') == year;
    assert Join(ps[1..], '-') == month + "-" + year;
    assert Join(ps, '-') == day + "-" + month + "-" + year;
    SplitJoin(ps, '-');
  }

  /** Reordering twice gives back the original date. */
  lemma ReorderDateInvolutive(d: string)
    requires ReorderDate(d).Ok?
    ensures ReorderDate(ReorderDate(d).value) == Ok(d)
  {
    var ps := Split(d, '-');
    SplitJoinBack(d, '-');
    assert '-' !in ps[0] && '-' !in ps[1] && '-' !in ps[2];
    ReorderDateParts(ps[2], ps[1], ps[0]);
    assert ps[2..] == [ps[2]];
    assert Join(ps[1..], '-') == ps[1] + "-" + ps[2];
    assert Join(ps, '-') == ps[0] + "-" + ps[1] + "-" + ps[2];
  }

  /** The date of one row: the stripped cell text, formatted, then reordered. */
  function DateText(raw: string): Result<string, Failure> {
    ReorderDate(FormatDate(Strip(raw)))
  }

  /** The reordered date is made of the parts of the formatted one and the dashes between them. */
  lemma ReorderDateChars(d: string)
    requires ReorderDate(d).Ok?
    ensures forall ch :: ch in ReorderDate(d).value ==> ch in d || ch == '-'
  {
    SplitPiecesIn(d, '-');
    var ps := Split(d, '-');
    assert ReorderDate(d).value == ps[2] + "-" + ps[1] + "-" + ps[0];
  }

  /** A date `extract_links` stores never contains `/`. */
  lemma DateTextClean(raw: string)
    ensures DateText(raw).Ok? ==> '/' !in DateText(raw).value
  {
    if DateText(raw).Ok? {
      ReorderDateChars(FormatDate(Strip(raw)));
    }
  }

  /** `DD/MM/YYYY` becomes `YYYY-MM-DD`. */
  lemma DateTextSlashed(day: string, month: string, year: string)
    requires Digits(day) && Digits(month) && Digits(year)
    ensures DateText(day + "/" + month + "/" + year) == Ok(year + "-" + month + "-" + day)
  {
    DigitsPlain(day);
    DigitsPlain(month);
    DigitsPlain(year);
    var raw := day + "/" + month + "/" + year;
    assert raw[0] == day[0] && raw[|raw| - 1] == year[|year| - 1];
    StripFixed(raw);
    assert ';' !in raw;
    SlashesToDashes(day, month, year);
    assert FormatDate(raw) == day + "-" + month + "-" + year;
    ReorderDateParts(day, month, year);
  }

  /** A date and what follows its `;` are stripped only at the far end. */
  lemma StripAnnotated(date: string, note: string)
    requires date != [] && !IsSpace(date[0])
    ensures Strip(date + ";" + note) == date + ";" + TrimRight(note)
  {
    var raw := date + ";" + note;
    assert raw[0] == date[0];
    assert TrimLeft(raw) == raw;
    assert (date + ";")[|date + ";"| - 1] == ';';
    TrimRightAfter(date + ";", note);
  }

  /** `DD/MM/YYYY; annotation` becomes `YYYY-MM-DD` as well: the annotation is dropped. */
  lemma DateTextAnnotated(day: string, month: string, year: string, note: string)
    requires Digits(day) && Digits(month) && Digits(year)
    ensures DateText(day + "/" + month + "/" + year + ";" + note) == Ok(year + "-" + month + "-" + day)
  {
    DigitsPlain(day);
    DigitsPlain(month);
    DigitsPlain(year);
    var date := day + "/" + month + "/" + year;
    assert date[0] == day[0] && date[|date| - 1] == year[|year| - 1];
    assert ';' !in date;
    StripAnnotated(date, note);
    FormatDateBeforeSemicolon(date, TrimRight(note));
    StripFixed(date);
    DateTextSlashed(day, month, year);
  }

  // ---------------------------------------------------------------- names

  /** A name fit for a file name in the EUR-Lex sense (newlines are not replaced). */
  predicate SafeName(name: string) {
    '/' !in name && ':' !in name && ' ' !in name
  }

  /** `.replace('/', '_').replace(':', '').replace(' ', '_')`, applied to the name. */
  function CleanName(s: string): (r: string)
    ensures '/' !in r && ':' !in r && ' ' !in r
  {
    Replace(Replace(Replace(s, '/', "_"), ':', ""), ' ', "_")
  }

  /** Cleaning works character by character. */
  lemma CleanNameAppend(a: string, b: string)
    ensures CleanName(a + b) == CleanName(a) + CleanName(b)
  {
    ReplaceAppend(a, b, '/', "_");
    ReplaceAppend(Replace(a, '/', "_"), Replace(b, '/', "_"), ':', "");
    ReplaceAppend(Replace(Replace(a, '/', "_"), ':', ""), Replace(Replace(b, '/', "_"), ':', ""), ' ', "_");
  }

  /** A `/` or a space becomes `_`, a `:` disappears, every other character is kept. */
  lemma CleanNameChar(x: char)
    ensures CleanName([x]) == if x == '/' || x == ' ' then "_" else if x == ':' then "" else [x]
  {
    ReplaceChar(x, '/', "_");
    var a := if x == '/' then "_" else [x];
    assert a == [a[0]];
    ReplaceChar(a[0], ':', "");
    if x != '/' && x != ':' {
      ReplaceChar(x, ' ', "_");
    } else if x == '/' {
      ReplaceChar('_', ' ', "_");
    }
  }

  /** `f"{date}-{name}"` with `/` turned into `_`, `:` removed and spaces turned into `_`. */
  function BaseName(date: string, name: string): (r: string)
    ensures '/' !in r && ':' !in r && ' ' !in r
  {
    CleanName(date + "-" + name)
  }

  /** The name is the cleaned date, a `-`, and the cleaned title. */
  lemma BaseNameParts(date: string, name: string)
    ensures BaseName(date, name) == CleanName(date) + "-" + CleanName(name)
  {
    CleanNameAppend(date + "-", name);
    CleanNameAppend(date, "-");
    CleanNameChar('-');
  }

  /** A date and a title that hold none of `/`, `:` and space are joined unchanged. */
  lemma BaseNameKeepsSafe(date: string, name: string)
    requires SafeName(date) && SafeName(name)
    ensures BaseName(date, name) == date + "-" + name
  {
    BaseNameParts(date, name);
  }

  /** Suffixing a safe base name keeps it safe. */
  lemma UniqueNameSafe(base: string, urls: seq<Entry>)
    requires SafeName(base)
    ensures SafeName(UniqueName(base, urls))
  {
    var k: nat :| UniqueName(base, urls) == Candidate(base, k);
    CandidateChars(base, k);
  }

  // ---------------------------------------------------------------- extraction

  /** The `href`s of the links whose title starts with `linkType` (`pdf` or `html`), in document order. */
  function LinksOfType(anchors: seq<Anchor>, linkType: string): (hrefs: seq<string>)
    ensures |hrefs| <= |anchors|
  {
    if anchors == [] then []
    else (if StartsWith(anchors[0].title, linkType) then [anchors[0].href] else []) + LinksOfType(anchors[1..], linkType)
  }

  /** One more anchor adds its `href` at the end exactly when its title starts with the link type. */
  lemma {:induction false} LinksOfTypeSnoc(anchors: seq<Anchor>, a: Anchor, linkType: string)
    ensures LinksOfType(anchors + [a], linkType)
         == LinksOfType(anchors, linkType) + (if StartsWith(a.title, linkType) then [a.href] else [])
    decreases |anchors|
  {
    if anchors == [] {
      assert [a][1..] == [];
      assert anchors + [a] == [a];
    } else {
      var first := if StartsWith(anchors[0].title, linkType) then [anchors[0].href] else [];
      var last := if StartsWith(a.title, linkType) then [a.href] else [];
      assert (anchors + [a])[0] == anchors[0];
      assert (anchors + [a])[1..] == anchors[1..] + [a];
      LinksOfTypeSnoc(anchors[1..], a, linkType);
      assert LinksOfType(anchors + [a], linkType) == first + (LinksOfType(anchors[1..], linkType) + last);
      assert LinksOfType(anchors, linkType) == first + LinksOfType(anchors[1..], linkType);
      assert first + (LinksOfType(anchors[1..], linkType) + last) == first + LinksOfType(anchors[1..], linkType) + last;
    }
  }

  /** No title starts with both `pdf` and `html`: an anchor lands in at most one of the two lists. */
  lemma LinkTypesDisjoint(title: string)
    ensures !(StartsWith(title, "pdf") && StartsWith(title, "html"))
  {
    if StartsWith(title, "pdf") {
      assert title[0] == title[..3][0] == 'p';
    }
  }

  /** The `dd` texts that contain a `/`, in document order. */
  function DateCells(dds: seq<string>): (cells: seq<string>)
    ensures |cells| <= |dds|
    ensures forall i :: 0 <= i < |cells| ==> Contains(cells[i], "/")
  {
    if dds == [] then []
    else (if Contains(dds[0], "/") then [dds[0]] else []) + DateCells(dds[1..])
  }

  /** One more `dd` is added at the end exactly when it contains a `/`. */
  lemma {:induction false} DateCellsSnoc(dds: seq<string>, d: string)
    ensures DateCells(dds + [d]) == DateCells(dds) + (if Contains(d, "/") then [d] else [])
    decreases |dds|
  {
    if dds == [] {
      assert [d][1..] == [];
      assert dds + [d] == [d];
    } else {
      assert (dds + [d])[1..] == dds[1..] + [d];
      DateCellsSnoc(dds[1..], d);
    }
  }

  /**
   * One `(name_element, date, link)` triple of the `zip`, as the loop body
   * reads it: the stripped title, the date formatted and reordered (or the
   * exception its unpacking raises), and the link.
   */
  datatype Row = Row(title: string, date: Result<string, Failure>, href: string)

  /** The row of one zipped triple. */
  function RowOf(t: (string, string, string)): Row {
    Row(Strip(t.0), DateText(t.1), t.2)
  }

  /** `f` applied to each element, in order. */
  function Mapped<A, B>(xs: seq<A>, f: A -> B): (ys: seq<B>)
    ensures |ys| == |xs|
  {
    if xs == [] then [] else [f(xs[0])] + Mapped(xs[1..], f)
  }

  lemma {:induction false} MappedAt<A, B>(xs: seq<A>, f: A -> B, i: int)
    requires 0 <= i < |xs|
    ensures Mapped(xs, f)[i] == f(xs[i])
    decreases i
  {
    if i > 0 {
      MappedAt(xs[1..], f, i - 1);
      assert xs[1..][i - 1] == xs[i];
    }
  }

  /** The rows of a list of triples, one per triple. */
  function RowsOfTriples(zipped: seq<(string, string, string)>): (rows: seq<Row>)
    ensures |rows| == |zipped|
  {
    Mapped(zipped, RowOf)
  }

  /** The `i`-th row holds the stripped title, the date text and the link of the `i`-th triple. */
  lemma RowsOfTriplesAt(zipped: seq<(string, string, string)>, i: int)
    requires 0 <= i < |zipped|
    ensures RowsOfTriples(zipped)[i] == Row(Strip(zipped[i].0), DateText(zipped[i].1), zipped[i].2)
  {
    MappedAt(zipped, RowOf, i);
  }

  /** `zip(name_elements, dates, links)` for one result block. */
  function Triples(result: SearchResult, linkType: string): seq<(string, string, string)> {
    Zip3(result.names, DateCells(result.dds), LinksOfType(result.anchors, linkType))
  }

  /** The rows of one result block. */
  function RowsOf(result: SearchResult, linkType: string): seq<Row> {
    RowsOfTriples(Triples(result, linkType))
  }

  /** The rows of all result blocks of a page, block after block. */
  function AllRows(results: seq<SearchResult>, linkType: string): seq<Row> {
    if results == [] then [] else RowsOf(results[0], linkType) + AllRows(results[1..], linkType)
  }

  /**
   * The tuple one row yields, given the tuples already collected in this
   * call: the link, the date, a name made of the date and the title's first
   * 20 characters and suffixed until it is free, and the title as
   * description. A bad date raises.
   */
  function MakeEntry(row: Row, urls: seq<Entry>): Result<Entry, Failure> {
    match row.date
    case Err(f) => Err(f)
    case Ok(date) => Ok(Entry(row.href, date, UniqueName(BaseName(date, Take(row.title, 20)), urls), row.title))
  }

  /**
   * Append to `urls`, row after row, the tuple `step` makes of the row and
   * the tuples collected so far; the first failure ends the fold, and the
   * collected tuples are then lost.
   */
  function Collect<R>(rows: seq<R>, urls: seq<Entry>, step: (R, seq<Entry>) -> Result<Entry, Failure>): Result<seq<Entry>, Failure>
    decreases |rows|
  {
    if rows == [] then Ok(urls)
    else match step(rows[0], urls)
      case Err(f) => Err(f)
      case Ok(e) => Collect(rows[1..], urls + [e], step)
  }

  /** A fold that succeeds extends `urls` by one tuple per row, each the one `step` makes given all tuples before it. */
  lemma {:induction false} CollectSpec<R>(rows: seq<R>, urls: seq<Entry>, step: (R, seq<Entry>) -> Result<Entry, Failure>)
    requires Collect(rows, urls, step).Ok?
    ensures var out := Collect(rows, urls, step).value;
      && |out| == |urls| + |rows|
      && out[..|urls|] == urls
      && forall j :: |urls| <= j < |out| ==> step(rows[j - |urls|], out[..j]) == Ok(out[j])
    decreases |rows|
  {
    if rows != [] {
      var e := step(rows[0], urls).value;
      var urls' := urls + [e];
      CollectSpec(rows[1..], urls', step);
      var out := Collect(rows, urls, step).value;
      assert out[..|urls'|] == urls';
      assert out[..|urls|] == urls'[..|urls|];
      forall j | |urls| <= j < |out|
        ensures step(rows[j - |urls|], out[..j]) == Ok(out[j])
      {
        if j == |urls| {
          assert out[..j] == urls;
        } else {
          assert rows[1..][j - |urls'|] == rows[j - |urls|];
        }
      }
    }
  }

  /** A fold fails exactly when `step` fails on some row, whatever the tuples before it, given a `step` that fails on a row regardless of them. */
  lemma {:induction false} CollectOk<R>(rows: seq<R>, urls: seq<Entry>, step: (R, seq<Entry>) -> Result<Entry, Failure>, good: R -> bool)
    requires forall row, u :: step(row, u).Ok? <==> good(row)
    ensures Collect(rows, urls, step).Ok? <==> forall i :: 0 <= i < |rows| ==> good(rows[i])
    decreases |rows|
  {
    if rows != [] && good(rows[0]) {
      CollectOk(rows[1..], urls + [step(rows[0], urls).value], step, good);
      assert forall i :: 1 <= i < |rows| ==> rows[i] == rows[1..][i - 1];
    }
  }

  /** What `extract_links(search_results, link_type)` returns, or the exception it raises. */
  function Extracted(results: seq<SearchResult>, linkType: string): Result<seq<Entry>, Failure> {
    Collect(AllRows(results, linkType), [], MakeEntry)
  }

  /** The fold over `rows` raises exactly when the date of some row does not unpack into three parts. */
  lemma RowsOk(rows: seq<Row>)
    ensures Collect(rows, [], MakeEntry).Ok? <==> forall i :: 0 <= i < |rows| ==> rows[i].date.Ok?
  {
    CollectOk(rows, [], MakeEntry, (row: Row) => row.date.Ok?);
  }

  /** A raised exception is the one of some row's date. */
  lemma {:induction false} CollectFailure(rows: seq<Row>, urls: seq<Entry>)
    requires Collect(rows, urls, MakeEntry).Err?
    ensures exists i :: 0 <= i < |rows| && rows[i].date == Err(Collect(rows, urls, MakeEntry).error)
    decreases |rows|
  {
    if rows[0].date.Ok? {
      CollectFailure(rows[1..], urls + [MakeEntry(rows[0], urls).value]);
      var i :| 0 <= i < |rows[1..]| && rows[1..][i].date == Err(Collect(rows, urls, MakeEntry).error);
      assert rows[i + 1] == rows[1..][i];
    } else {
      assert rows[0].date == Err(Collect(rows, urls, MakeEntry).error);
    }
  }

  /** The `j`-th tuple of a fold from nothing is the one `step` makes of the `j`-th row and the tuples before it. */
  lemma CollectAt<R>(rows: seq<R>, step: (R, seq<Entry>) -> Result<Entry, Failure>, j: int)
    requires Collect(rows, [], step).Ok? && 0 <= j < |rows|
    ensures |Collect(rows, [], step).value| == |rows|
    ensures var out := Collect(rows, [], step).value; step(rows[j], out[..j]) == Ok(out[j])
  {
    CollectSpec(rows, [], step);
  }

  /** What a tuple made from a row holds. */
  lemma MadeEntry(row: Row, urls: seq<Entry>, e: Entry)
    requires MakeEntry(row, urls) == Ok(e)
    ensures e.url == row.href && row.date == Ok(e.date) && e.description == row.title
    ensures e.name == UniqueName(BaseName(e.date, Take(row.title, 20)), urls)
  {
  }

  /**
   * The `j`-th tuple `extract_links` returns stands for the `j`-th row: the
   * link, the reordered date, the stripped title as description, and a name
   * made from the date and the title's first 20 characters, suffixed so that
   * it equals no field of any earlier tuple of the same call.
   */
  lemma ExtractedEntry(results: seq<SearchResult>, linkType: string, j: int)
    requires Extracted(results, linkType).Ok? && 0 <= j < |AllRows(results, linkType)|
    ensures |Extracted(results, linkType).value| == |AllRows(results, linkType)|
    ensures var out := Extracted(results, linkType).value; var row := AllRows(results, linkType)[j];
        && out[j].url == row.href
        && row.date == Ok(out[j].date)
        && out[j].description == row.title
        && out[j].name == UniqueName(BaseName(out[j].date, Take(row.title, 20)), out[..j])
  {
    var rows := AllRows(results, linkType);
    CollectAt(rows, MakeEntry, j);
    var out := Collect(rows, [], MakeEntry).value;
    MadeEntry(rows[j], out[..j], out[j]);
  }

  /** In the fold a name equals no field of any earlier tuple. */
  lemma RowsNamesFresh(rows: seq<Row>)
    requires Collect(rows, [], MakeEntry).Ok?
    ensures var out := Collect(rows, [], MakeEntry).value;
      forall i, j :: 0 <= i < j < |out| ==> !InTuple(out[j].name, out[i])
  {
    var out := Collect(rows, [], MakeEntry).value;
    CollectSpec(rows, [], MakeEntry);
    forall i, j | 0 <= i < j < |out|
      ensures !InTuple(out[j].name, out[i])
    {
      CollectAt(rows, MakeEntry, j);
      MadeEntry(rows[j], out[..j], out[j]);
      assert out[..j][i] == out[i];
    }
  }

  /** Within one call a name equals no field of any earlier tuple; in particular no two tuples share a name. */
  lemma ExtractedNamesFresh(results: seq<SearchResult>, linkType: string)
    requires Extracted(results, linkType).Ok?
    ensures var out := Extracted(results, linkType).value;
      && (forall i, j :: 0 <= i < j < |out| ==> !InTuple(out[j].name, out[i]))
      && (forall i, j :: 0 <= i < |out| && 0 <= j < |out| && i != j ==> out[i].name != out[j].name)
  {
    RowsNamesFresh(AllRows(results, linkType));
  }

  /** Rows whose dates, where they unpack, contain no `/`. */
  predicate DatesClean(rows: seq<Row>) {
    forall i :: 0 <= i < |rows| && rows[i].date.Ok? ==> '/' !in rows[i].date.value
  }

  lemma RowsOfClean(result: SearchResult, linkType: string)
    ensures DatesClean(RowsOf(result, linkType))
  {
    var zipped := Triples(result, linkType);
    var rows := RowsOf(result, linkType);
    forall i | 0 <= i < |rows| && rows[i].date.Ok?
      ensures '/' !in rows[i].date.value
    {
      RowsOfTriplesAt(zipped, i);
      DateTextClean(zipped[i].1);
    }
  }

  lemma DatesCleanAppend(a: seq<Row>, b: seq<Row>)
    requires DatesClean(a) && DatesClean(b)
    ensures DatesClean(a + b)
  {
    forall i | 0 <= i < |a + b| && (a + b)[i].date.Ok?
      ensures '/' !in (a + b)[i].date.value
    {
      if i < |a| {
        assert (a + b)[i] == a[i];
      } else {
        assert (a + b)[i] == b[i - |a|];
      }
    }
  }

  lemma {:induction false} AllRowsClean(results: seq<SearchResult>, linkType: string)
    ensures DatesClean(AllRows(results, linkType))
    decreases |results|
  {
    if results != [] {
      AllRowsClean(results[1..], linkType);
      RowsOfClean(results[0], linkType);
      DatesCleanAppend(RowsOf(results[0], linkType), AllRows(results[1..], linkType));
    }
  }

  /** Every tuple of the fold has a date without `/` and a name without `/`, `:` or space. */
  lemma RowsSafe(rows: seq<Row>)
    requires Collect(rows, [], MakeEntry).Ok? && DatesClean(rows)
    ensures forall e :: e in Collect(rows, [], MakeEntry).value ==> '/' !in e.date && SafeName(e.name)
  {
    var out := Collect(rows, [], MakeEntry).value;
    CollectSpec(rows, [], MakeEntry);
    forall j | 0 <= j < |out|
      ensures '/' !in out[j].date && SafeName(out[j].name)
    {
      CollectAt(rows, MakeEntry, j);
      MadeEntry(rows[j], out[..j], out[j]);
      UniqueNameSafe(BaseName(out[j].date, Take(out[j].description, 20)), out[..j]);
    }
  }

  /** Every tuple of a call has a date without `/` and a name without `/`, `:` or space. */
  lemma ExtractedSafe(results: seq<SearchResult>, linkType: string)
    requires Extracted(results, linkType).Ok?
    ensures forall e :: e in Extracted(results, linkType).value ==> '/' !in e.date && SafeName(e.name)
  {
    AllRowsClean(results, linkType);
    RowsSafe(AllRows(results, linkType));
  }

  /** One result block yields as many rows as the shortest of its three lists has elements. */
  lemma RowsPerResult(result: SearchResult, linkType: string)
    ensures var n := |RowsOf(result, linkType)|;
      && n <= |result.names| && n <= |DateCells(result.dds)| && n <= |LinksOfType(result.anchors, linkType)|
      && (n == |result.names| || n == |DateCells(result.dds)| || n == |LinksOfType(result.anchors, linkType)|)
  {
  }

  // ---------------------------------------------------------------- pagination

  /**
   * `click_next_button`: whether the next page was opened, and the page
   * counter afterwards. The counter advances whenever the limit test
   * passes, even when no click follows; a missing link or a missing class
   * raises inside the method and reads as "not clicked".
   */
  function ClickNext(currentPage: int, limit: int, next: Option<NextButton>): (r: (bool, int))
    ensures r.0 <==> WithinLimit(currentPage, limit) && NextEnabled(next)
    ensures r.1 == if WithinLimit(currentPage, limit) then currentPage + 1 else currentPage
  {
    if !WithinLimit(currentPage, limit) then (false, currentPage)
    else match next
      case None => (false, currentPage + 1)
      case Some(b) =>
        if b.cls.None? then (false, currentPage + 1)
        else (!Contains(b.cls.value, "disabled") && b.href != Some(NoOpHref), currentPage + 1)
  }

  /** The page at `currentPage` (counted from 1), read when its result blocks appear. */
  predicate Shows(pages: seq<Page>, currentPage: int)
    requires 1 <= currentPage
  {
    currentPage <= |pages| && pages[currentPage - 1].results != []
  }

  /** How the result blocks of a page are turned into tuples for one link type (`extract_links`). */
  type Extractor = (seq<SearchResult>, string) -> Result<seq<Entry>, Failure>

  /**
   * The `while True` loop of `get_urls` from page `currentPage` on, with the
   * lists and the number of pages read so far. Both link types of a page are
   * extracted before the next-page decision; an exception keeps what was
   * already extended.
   */
  function Paginate(pages: seq<Page>, currentPage: int, limit: int, extract: Extractor,
                    pdf: seq<Entry>, nonPdf: seq<Entry>, read: nat): Progress
    requires 1 <= currentPage
    decreases |pages| + 1 - currentPage
  {
    if !Shows(pages, currentPage) then Progress(Run(pdf, nonPdf, read, Some(ResultsTimeout)), currentPage)
    else
      var page := pages[currentPage - 1];
      match extract(page.results, "pdf")
      case Err(f) => Progress(Run(pdf, nonPdf, read + 1, Some(f)), currentPage)
      case Ok(p) =>
        match extract(page.results, "html")
        case Err(f) => Progress(Run(pdf + p, nonPdf, read + 1, Some(f)), currentPage)
        case Ok(h) =>
          var (clicked, nextPage) := ClickNext(currentPage, limit, page.next);
          if clicked then Paginate(pages, nextPage, limit, extract, pdf + p, nonPdf + h, read + 1)
          else Progress(Run(pdf + p, nonPdf + h, read + 1, None), nextPage)
  }

  /** The loop of `get_urls` from the first page, reading each page with `extract`. */
  function Walk(site: Site, limit: int, extract: Extractor): Run {
    if !site.searchBox then Run([], [], 0, Some(SearchTimeout))
    else if !site.sortControls then Run([], [], 0, Some(NoResultsFound))
    else Paginate(site.pages, 1, limit, extract, [], [], 0).run
  }

  /** `get_urls(keyword, limit)`: search, sort, then paginate from page 1 with `extract_links`. */
  function Scrape(site: Site, limit: int): Run {
    Walk(site, limit, Extracted)
  }

  /** A failed search or sort step returns two empty lists. */
  lemma ScrapeSetupFailure(site: Site, limit: int)
    requires !site.searchBox || !site.sortControls
    ensures Scrape(site, limit).pdf == [] && Scrape(site, limit).nonPdf == []
    ensures Scrape(site, limit).failure == Some(if !site.searchBox then SearchTimeout else NoResultsFound)
  {
  }

  lemma {:induction false} PaginateReadBound(pages: seq<Page>, currentPage: int, limit: int, extract: Extractor,
                                             pdf: seq<Entry>, nonPdf: seq<Entry>, read: nat)
    requires 1 <= currentPage <= |pages| + 1 && read == currentPage - 1
    requires limit > 0 ==> currentPage <= limit
    ensures var r := Paginate(pages, currentPage, limit, extract, pdf, nonPdf, read).run;
      r.pagesRead <= |pages| && (limit > 0 ==> r.pagesRead <= limit)
    decreases |pages| + 1 - currentPage
  {
    if Shows(pages, currentPage) {
      var page := pages[currentPage - 1];
      var p, h := extract(page.results, "pdf"), extract(page.results, "html");
      if p.Ok? && h.Ok? {
        var (clicked, nextPage) := ClickNext(currentPage, limit, page.next);
        if clicked {
          PaginateReadBound(pages, nextPage, limit, extract, pdf + p.value, nonPdf + h.value, read + 1);
        }
      }
    }
  }

  /** No more pages are read than the site has, nor, with a limit `n > 0`, more than `n`. */
  lemma ScrapeReadBound(site: Site, limit: int)
    ensures Scrape(site, limit).pagesRead <= |site.pages|
    ensures limit > 0 ==> Scrape(site, limit).pagesRead <= limit
  {
    if site.searchBox && site.sortControls {
      PaginateReadBound(site.pages, 1, limit, Extracted, [], [], 0);
    }
  }

  lemma {:induction false} PaginatePrefix(pages: seq<Page>, currentPage: int, limit: int, extract: Extractor,
                                          pdf: seq<Entry>, nonPdf: seq<Entry>, read: nat)
    requires 0 < limit <= |pages| && 1 <= currentPage <= limit
    ensures Paginate(pages, currentPage, limit, extract, pdf, nonPdf, read)
         == Paginate(pages[..limit], currentPage, limit, extract, pdf, nonPdf, read)
    decreases |pages| + 1 - currentPage
  {
    var page := pages[currentPage - 1];
    assert pages[..limit][currentPage - 1] == page;
    var p, h := extract(page.results, "pdf"), extract(page.results, "html");
    if Shows(pages, currentPage) && p.Ok? && h.Ok? {
      var (clicked, nextPage) := ClickNext(currentPage, limit, page.next);
      if clicked {
        PaginatePrefix(pages, nextPage, limit, extract, pdf + p.value, nonPdf + h.value, read + 1);
      }
    }
  }

  /** With a limit `n > 0`, pages after the `n`-th have no influence on the result. */
  lemma ScrapeFirstPagesOnly(site: Site, limit: int)
    requires 0 < limit <= |site.pages|
    ensures Scrape(site, limit) == Scrape(site.(pages := site.pages[..limit]), limit)
  {
    if site.searchBox && site.sortControls {
      PaginatePrefix(site.pages, 1, limit, Extracted, [], [], 0);
    }
  }

  /** A page whose results appear and whose links of both types are extracted without an exception. */
  predicate PageReadable(extract: Extractor, page: Page) {
    page.results != [] && extract(page.results, "pdf").Ok? && extract(page.results, "html").Ok?
  }

  /** The tuples of one link type that `extract` yields on a run of pages, page after page. */
  function Gathered(pages: seq<Page>, extract: Extractor, linkType: string): seq<Entry>
    decreases |pages|
  {
    if pages == [] then []
    else
      var here := match extract(pages[0].results, linkType) case Ok(v) => v case Err(_) => [];
      here + Gathered(pages[1..], extract, linkType)
  }

  /** A run of pages gathers the first page's tuples, then those of the rest. */
  lemma GatheredFirst(pages: seq<Page>, lo: int, hi: int, extract: Extractor, linkType: string)
    requires 0 <= lo < hi <= |pages|
    ensures Gathered(pages[lo..hi], extract, linkType)
         == (match extract(pages[lo].results, linkType) case Ok(v) => v case Err(_) => [])
            + Gathered(pages[lo + 1..hi], extract, linkType)
  {
    assert pages[lo..hi][0] == pages[lo];
    assert pages[lo..hi][1..] == pages[lo + 1..hi];
  }

  /** A readable page whose `Next` link is clicked passes its tuples on to the next page. */
  lemma PaginateStep(pages: seq<Page>, currentPage: int, limit: int, extract: Extractor,
                     pdf: seq<Entry>, nonPdf: seq<Entry>, read: nat)
    requires 1 <= currentPage <= |pages|
    requires PageReadable(extract, pages[currentPage - 1]) && NextEnabled(pages[currentPage - 1].next)
    requires WithinLimit(currentPage, limit)
    ensures var page := pages[currentPage - 1];
      Paginate(pages, currentPage, limit, extract, pdf, nonPdf, read)
      == Paginate(pages, currentPage + 1, limit, extract, pdf + extract(page.results, "pdf").value,
                  nonPdf + extract(page.results, "html").value, read + 1)
  {
    var page := pages[currentPage - 1];
    assert ClickNext(currentPage, limit, page.next) == (true, currentPage + 1);
  }

  /**
   * A run of readable pages whose `Next` links work, ending where the limit
   * or the last page's link stops the loop: each page is read once, nothing
   * is logged, and each list is extended by the tuples of its link type of
   * those pages, page after page.
   */
  lemma {:induction false} PaginateThrough(pages: seq<Page>, currentPage: int, limit: int, extract: Extractor,
                                           pdf: seq<Entry>, nonPdf: seq<Entry>, read: nat, last: int)
    requires 1 <= currentPage <= last <= |pages|
    requires forall i :: currentPage - 1 <= i < last ==> PageReadable(extract, pages[i])
    requires forall i :: currentPage - 1 <= i < last - 1 ==> NextEnabled(pages[i].next)
    requires currentPage < last ==> WithinLimit(last - 1, limit)
    requires !(WithinLimit(last, limit) && NextEnabled(pages[last - 1].next))
    ensures var run := Paginate(pages, currentPage, limit, extract, pdf, nonPdf, read).run;
      && run.pagesRead == read + last - currentPage + 1
      && run.failure == None
      && run.pdf == pdf + Gathered(pages[currentPage - 1..last], extract, "pdf")
      && run.nonPdf == nonPdf + Gathered(pages[currentPage - 1..last], extract, "html")
    decreases last - currentPage
  {
    var page := pages[currentPage - 1];
    assert PageReadable(extract, page);
    var pv, hv := extract(page.results, "pdf").value, extract(page.results, "html").value;
    GatheredFirst(pages, currentPage - 1, last, extract, "pdf");
    GatheredFirst(pages, currentPage - 1, last, extract, "html");
    if currentPage < last {
      assert NextEnabled(page.next);
      PaginateStep(pages, currentPage, limit, extract, pdf, nonPdf, read);
      PaginateThrough(pages, currentPage + 1, limit, extract, pdf + pv, nonPdf + hv, read + 1, last);
    } else {
      assert pdf + (pv + []) == pdf + pv && nonPdf + (hv + []) == nonPdf + hv;
    }
  }

  lemma WalkReadsLimit(site: Site, limit: int, extract: Extractor)
    requires site.searchBox && site.sortControls
    requires 0 < limit <= |site.pages|
    requires forall i :: 0 <= i < limit ==> PageReadable(extract, site.pages[i])
    requires forall i :: 0 <= i < limit - 1 ==> NextEnabled(site.pages[i].next)
    ensures var run := Walk(site, limit, extract);
      && run.pagesRead == limit && run.failure == None
      && run.pdf == Gathered(site.pages[..limit], extract, "pdf")
      && run.nonPdf == Gathered(site.pages[..limit], extract, "html")
  {
    PaginateThrough(site.pages, 1, limit, extract, [], [], 0, limit);
    assert site.pages[0..limit] == site.pages[..limit];
  }

  /**
   * With a limit `n > 0` and a site of at least `n` readable pages whose
   * next-page links work, exactly `n` pages are read, no failure is logged,
   * and the lists hold the PDF and HTML tuples of those pages in page order.
   */
  lemma ScrapeReadsLimit(site: Site, limit: int)
    requires site.searchBox && site.sortControls
    requires 0 < limit <= |site.pages|
    requires forall i :: 0 <= i < limit ==> PageReadable(Extracted, site.pages[i])
    requires forall i :: 0 <= i < limit - 1 ==> NextEnabled(site.pages[i].next)
    ensures Scrape(site, limit).pagesRead == limit && Scrape(site, limit).failure == None
    ensures Scrape(site, limit).pdf == Gathered(site.pages[..limit], Extracted, "pdf")
    ensures Scrape(site, limit).nonPdf == Gathered(site.pages[..limit], Extracted, "html")
  {
    WalkReadsLimit(site, limit, Extracted);
  }

  lemma WalkReadsAll(site: Site, extract: Extractor)
    requires site.searchBox && site.sortControls && site.pages != []
    requires forall i :: 0 <= i < |site.pages| ==> PageReadable(extract, site.pages[i])
    requires forall i :: 0 <= i < |site.pages| - 1 ==> NextEnabled(site.pages[i].next)
    requires !NextEnabled(site.pages[|site.pages| - 1].next)
    ensures var run := Walk(site, 0, extract);
      && run.pagesRead == |site.pages| && run.failure == None
      && run.pdf == Gathered(site.pages, extract, "pdf")
      && run.nonPdf == Gathered(site.pages, extract, "html")
  {
    PaginateThrough(site.pages, 1, 0, extract, [], [], 0, |site.pages|);
    assert site.pages[0..|site.pages|] == site.pages;
  }

  /**
   * With limit 0 the loop goes on until the site offers no further page:
   * every readable page is read when only the last one lacks a working
   * link, and the lists hold the tuples of all pages in page order.
   */
  lemma ScrapeUnboundedReadsAll(site: Site)
    requires site.searchBox && site.sortControls && site.pages != []
    requires forall i :: 0 <= i < |site.pages| ==> PageReadable(Extracted, site.pages[i])
    requires forall i :: 0 <= i < |site.pages| - 1 ==> NextEnabled(site.pages[i].next)
    requires !NextEnabled(site.pages[|site.pages| - 1].next)
    ensures Scrape(site, 0).pagesRead == |site.pages| && Scrape(site, 0).failure == None
    ensures Scrape(site, 0).pdf == Gathered(site.pages, Extracted, "pdf")
    ensures Scrape(site, 0).nonPdf == Gathered(site.pages, Extracted, "html")
  {
    WalkReadsAll(site, Extracted);
  }

  /**
   * When the loop reaches a page whose results appear but whose extraction
   * raises, it stops there: the lists hold the tuples of the pages before,
   * plus that page's PDF tuples when only the HTML call raised, and the
   * exception is logged.
   */
  lemma {:induction false} FailureRunEnds(pages: seq<Page>, currentPage: int, limit: int, extract: Extractor,
                                          pdf: seq<Entry>, nonPdf: seq<Entry>, read: nat, last: int)
    requires 1 <= currentPage <= last <= |pages|
    requires forall i :: currentPage - 1 <= i < last - 1 ==> PageReadable(extract, pages[i]) && NextEnabled(pages[i].next)
    requires currentPage < last ==> WithinLimit(last - 1, limit)
    requires pages[last - 1].results != [] && !PageReadable(extract, pages[last - 1])
    ensures var page := pages[last - 1];
      var p := extract(page.results, "pdf");
      var run := Paginate(pages, currentPage, limit, extract, pdf, nonPdf, read).run;
      && run.pagesRead == read + last - currentPage + 1
      && run.failure == Some(if p.Err? then p.error else extract(page.results, "html").error)
    decreases last - currentPage
  {
    var page := pages[currentPage - 1];
    if currentPage < last {
      assert PageReadable(extract, page) && NextEnabled(page.next);
      var pv, hv := extract(page.results, "pdf").value, extract(page.results, "html").value;
      assert ClickNext(currentPage, limit, page.next) == (true, currentPage + 1);
      assert Paginate(pages, currentPage, limit, extract, pdf, nonPdf, read)
          == Paginate(pages, currentPage + 1, limit, extract, pdf + pv, nonPdf + hv, read + 1);
      FailureRunEnds(pages, currentPage + 1, limit, extract, pdf + pv, nonPdf + hv, read + 1, last);
    }
  }

  lemma {:induction false} FailureRunKeepsPdf(pages: seq<Page>, currentPage: int, limit: int, extract: Extractor,
                                              pdf: seq<Entry>, nonPdf: seq<Entry>, read: nat, last: int)
    requires 1 <= currentPage <= last <= |pages|
    requires forall i :: currentPage - 1 <= i < last - 1 ==> PageReadable(extract, pages[i]) && NextEnabled(pages[i].next)
    requires currentPage < last ==> WithinLimit(last - 1, limit)
    requires pages[last - 1].results != [] && !PageReadable(extract, pages[last - 1])
    ensures var page := pages[last - 1];
      var before := pages[currentPage - 1..last - 1];
      var p := extract(page.results, "pdf");
      var run := Paginate(pages, currentPage, limit, extract, pdf, nonPdf, read).run;
      run.pdf == pdf + Gathered(before, extract, "pdf") + (if p.Ok? then p.value else [])
    decreases last - currentPage
  {
    var page := pages[currentPage - 1];
    var before := pages[currentPage - 1..last - 1];
    if currentPage == last {
      assert before == [];
      assert pdf + [] == pdf && nonPdf + [] == nonPdf;
    } else {
      assert PageReadable(extract, page) && NextEnabled(page.next);
      var pv, hv := extract(page.results, "pdf").value, extract(page.results, "html").value;
      assert ClickNext(currentPage, limit, page.next) == (true, currentPage + 1);
      assert Paginate(pages, currentPage, limit, extract, pdf, nonPdf, read)
          == Paginate(pages, currentPage + 1, limit, extract, pdf + pv, nonPdf + hv, read + 1);
      FailureRunKeepsPdf(pages, currentPage + 1, limit, extract, pdf + pv, nonPdf + hv, read + 1, last);
      var rest := pages[currentPage..last - 1];
      assert before[0] == page && before[1..] == rest;
      assert Gathered(before, extract, "pdf") == pv + Gathered(rest, extract, "pdf");
    }
  }

  lemma {:induction false} FailureRunKeepsHtml(pages: seq<Page>, currentPage: int, limit: int, extract: Extractor,
                                               pdf: seq<Entry>, nonPdf: seq<Entry>, read: nat, last: int)
    requires 1 <= currentPage <= last <= |pages|
    requires forall i :: currentPage - 1 <= i < last - 1 ==> PageReadable(extract, pages[i]) && NextEnabled(pages[i].next)
    requires currentPage < last ==> WithinLimit(last - 1, limit)
    requires pages[last - 1].results != [] && !PageReadable(extract, pages[last - 1])
    ensures var before := pages[currentPage - 1..last - 1];
      var run := Paginate(pages, currentPage, limit, extract, pdf, nonPdf, read).run;
      run.nonPdf == nonPdf + Gathered(before, extract, "html")
    decreases last - currentPage
  {
    var page := pages[currentPage - 1];
    var before := pages[currentPage - 1..last - 1];
    if currentPage == last {
      assert before == [];
      assert pdf + [] == pdf && nonPdf + [] == nonPdf;
    } else {
      assert PageReadable(extract, page) && NextEnabled(page.next);
      var pv, hv := extract(page.results, "pdf").value, extract(page.results, "html").value;
      assert ClickNext(currentPage, limit, page.next) == (true, currentPage + 1);
      assert Paginate(pages, currentPage, limit, extract, pdf, nonPdf, read)
          == Paginate(pages, currentPage + 1, limit, extract, pdf + pv, nonPdf + hv, read + 1);
      FailureRunKeepsHtml(pages, currentPage + 1, limit, extract, pdf + pv, nonPdf + hv, read + 1, last);
      var rest := pages[currentPage..last - 1];
      assert before[0] == page && before[1..] == rest;
      assert Gathered(before, extract, "html") == hv + Gathered(rest, extract, "html");
    }
  }

  lemma PaginateUntilFailure(pages: seq<Page>, currentPage: int, limit: int, extract: Extractor,
                                                pdf: seq<Entry>, nonPdf: seq<Entry>, read: nat, last: int)
    requires 1 <= currentPage <= last <= |pages|
    requires forall i :: currentPage - 1 <= i < last - 1 ==> PageReadable(extract, pages[i]) && NextEnabled(pages[i].next)
    requires currentPage < last ==> WithinLimit(last - 1, limit)
    requires pages[last - 1].results != [] && !PageReadable(extract, pages[last - 1])
    ensures var page := pages[last - 1];
      var before := pages[currentPage - 1..last - 1];
      var p := extract(page.results, "pdf");
      var run := Paginate(pages, currentPage, limit, extract, pdf, nonPdf, read).run;
      && run.pagesRead == read + last - currentPage + 1
      && run.pdf == pdf + Gathered(before, extract, "pdf") + (if p.Ok? then p.value else [])
      && run.nonPdf == nonPdf + Gathered(before, extract, "html")
      && run.failure == Some(if p.Err? then p.error else extract(page.results, "html").error)
  {
    FailureRunEnds(pages, currentPage, limit, extract, pdf, nonPdf, read, last);
    FailureRunKeepsPdf(pages, currentPage, limit, extract, pdf, nonPdf, read, last);
    FailureRunKeepsHtml(pages, currentPage, limit, extract, pdf, nonPdf, read, last);
  }

  lemma WalkStopsAtFailure(site: Site, limit: int, extract: Extractor, last: int)
    requires site.searchBox && site.sortControls
    requires 1 <= last <= |site.pages|
    requires forall i :: 0 <= i < last - 1 ==> PageReadable(extract, site.pages[i]) && NextEnabled(site.pages[i].next)
    requires 1 < last ==> WithinLimit(last - 1, limit)
    requires site.pages[last - 1].results != [] && !PageReadable(extract, site.pages[last - 1])
    ensures var page := site.pages[last - 1];
      var p := extract(page.results, "pdf");
      var run := Walk(site, limit, extract);
      && run.pagesRead == last
      && run.pdf == Gathered(site.pages[..last - 1], extract, "pdf") + (if p.Ok? then p.value else [])
      && run.nonPdf == Gathered(site.pages[..last - 1], extract, "html")
      && run.failure == Some(if p.Err? then p.error else extract(page.results, "html").error)
  {
    PaginateUntilFailure(site.pages, 1, limit, extract, [], [], 0, last);
    assert site.pages[0..last - 1] == site.pages[..last - 1];
  }

  /**
   * `get_urls` on a site whose page `last` raises in `extract_links` after
   * `last - 1` good pages: every earlier page's tuples, those of page `last`
   * that were already extended, and the logged exception.
   */
  lemma ScrapeStopsAtFailure(site: Site, limit: int, last: int)
    requires site.searchBox && site.sortControls
    requires 1 <= last <= |site.pages|
    requires forall i :: 0 <= i < last - 1 ==> PageReadable(Extracted, site.pages[i]) && NextEnabled(site.pages[i].next)
    requires 1 < last ==> WithinLimit(last - 1, limit)
    requires site.pages[last - 1].results != [] && !PageReadable(Extracted, site.pages[last - 1])
    ensures var page := site.pages[last - 1];
      var p := Extracted(page.results, "pdf");
      var run := Scrape(site, limit);
      && run.pagesRead == last
      && run.pdf == Gathered(site.pages[..last - 1], Extracted, "pdf") + (if p.Ok? then p.value else [])
      && run.nonPdf == Gathered(site.pages[..last - 1], Extracted, "html")
      && run.failure == Some(if p.Err? then p.error else Extracted(page.results, "html").error)
  {
    WalkStopsAtFailure(site, limit, Extracted, last);
  }

  /** Every tuple `extract` returns is fit for a file name. */
  ghost predicate SafeExtractor(extract: Extractor) {
    forall results, linkType :: extract(results, linkType).Ok? ==>
      forall e :: e in extract(results, linkType).value ==> '/' !in e.date && SafeName(e.name)
  }

  lemma {:induction false} PaginateSafe(pages: seq<Page>, currentPage: int, limit: int, extract: Extractor,
                                        pdf: seq<Entry>, nonPdf: seq<Entry>, read: nat)
    requires 1 <= currentPage && SafeExtractor(extract)
    requires forall e :: e in pdf + nonPdf ==> '/' !in e.date && SafeName(e.name)
    ensures var r := Paginate(pages, currentPage, limit, extract, pdf, nonPdf, read).run;
      forall e :: e in r.pdf + r.nonPdf ==> '/' !in e.date && SafeName(e.name)
    decreases |pages| + 1 - currentPage
  {
    if Shows(pages, currentPage) {
      var page := pages[currentPage - 1];
      var p, h := extract(page.results, "pdf"), extract(page.results, "html");
      if p.Ok? && h.Ok? {
        var (clicked, nextPage) := ClickNext(currentPage, limit, page.next);
        if clicked {
          PaginateSafe(pages, nextPage, limit, extract, pdf + p.value, nonPdf + h.value, read + 1);
        }
      }
    }
  }

  /** Every tuple `get_urls` returns has a date without `/` and a name without `/`, `:` or space. */
  lemma ScrapeSafe(site: Site, limit: int)
    ensures var r := Scrape(site, limit);
      forall e :: e in r.pdf + r.nonPdf ==> '/' !in e.date && SafeName(e.name)
  {
    forall results, linkType | Extracted(results, linkType).Ok?
      ensures forall e :: e in Extracted(results, linkType).value ==> '/' !in e.date && SafeName(e.name)
    {
      ExtractedSafe(results, linkType);
    }
    if site.searchBox && site.sortControls {
      PaginateSafe(site.pages, 1, limit, Extracted, [], [], 0);
    }
  }

  /** A page shown twice, with a working link from the first to the second, contributes its tuples twice. */
  lemma WalkPageTwice(site: Site, limit: int, extract: Extractor)
    requires site.searchBox && site.sortControls && |site.pages| == 2 && site.pages[0] == site.pages[1]
    requires PageReadable(extract, site.pages[0]) && NextEnabled(site.pages[0].next) && WithinLimit(1, limit)
    ensures var p := extract(site.pages[0].results, "pdf").value;
      Walk(site, limit, extract).pdf == p + p
  {
    var page := site.pages[0];
    var p := extract(page.results, "pdf").value;
    var h := extract(page.results, "html").value;
    assert ClickNext(1, limit, page.next) == (true, 2);
    assert [] + p == p && [] + h == h;
    assert Paginate(site.pages, 1, limit, extract, [], [], 0) == Paginate(site.pages, 2, limit, extract, p, h, 1);
    assert site.pages[1] == page;
    var (clicked, nextPage) := ClickNext(2, limit, page.next);
    if clicked {
      assert nextPage == 3 && !Shows(site.pages, 3);
      assert Paginate(site.pages, 2, limit, extract, p, h, 1) == Paginate(site.pages, 3, limit, extract, p + p, h + h, 2);
    }
  }

  /**
   * Uniqueness is local to one `extract_links` call: when the same page is
   * shown twice, its tuples come back twice, names included.
   */
  lemma NamesRepeatAcrossPages(site: Site, limit: int)
    requires site.searchBox && site.sortControls && |site.pages| == 2 && site.pages[0] == site.pages[1]
    requires PageReadable(Extracted, site.pages[0]) && NextEnabled(site.pages[0].next) && WithinLimit(1, limit)
    ensures var p := Extracted(site.pages[0].results, "pdf").value;
      Scrape(site, limit).pdf == p + p
  {
    WalkPageTwice(site, limit, Extracted);
  }

  // ---------------------------------------------------------------- the scraper object

  /** `EurWebScraper`, reduced to the state `get_urls` updates: the page counter. */
  class EurLexScraper {
    var currentPage: int

    /** The bot holds no page counter until `get_urls` sets one. */
    constructor () {
    }

    /** `click_next_button(limited_page)` on the current page's next-page link. */
    method ClickNextButton(limit: int, next: Option<NextButton>) returns (clicked: bool)
      modifies this
      ensures (clicked, currentPage) == ClickNext(old(currentPage), limit, next)
    {
      if WithinLimit(currentPage, limit) {
        currentPage := currentPage + 1;
        if next.None? {
          return false;
        }
        var button := next.value;
        if button.cls.None? {
          return false;
        }
        if !Contains(button.cls.value, "disabled") && button.href != Some(NoOpHref) {
          return true;
        }
      }
      return false;
    }

    /** `extract_links(search_results, link_type)`. */
    method ExtractLinks(searchResults: seq<SearchResult>, linkType: string) returns (r: Result<seq<Entry>, Failure>)
      ensures r == Extracted(searchResults, linkType)
    {
      var urls: seq<Entry> := [];
      for k := 0 to |searchResults|
        invariant Extracted(searchResults, linkType) == Collect(AllRows(searchResults[k..], linkType), urls, MakeEntry)
      {
        assert searchResults[k..][1..] == searchResults[k + 1..];
        var zipped := Zip3(searchResults[k].names, DateCells(searchResults[k].dds), LinksOfType(searchResults[k].anchors, linkType));
        ghost var rows := RowsOf(searchResults[k], linkType);
        ghost var rest := AllRows(searchResults[k + 1..], linkType);
        assert zipped == Triples(searchResults[k], linkType) && |rows| == |zipped|;
        assert rows[0..] + rest == AllRows(searchResults[k..], linkType);
        for i := 0 to |zipped|
          invariant Extracted(searchResults, linkType) == Collect(rows[i..] + rest, urls, MakeEntry)
        {
          StepThrough(rows, rest, i);
          var (nameElement, date, link) := zipped[i];
          RowsOfTriplesAt(zipped, i);
          var nameText := Take(Strip(nameElement), 20);
          var dateText := FormatDate(Strip(date));
          var parts := Split(dateText, '-');
          if |parts| != 3 {
            return Err(BadDate(dateText));
          }
          dateText := parts[2] + "-" + parts[1] + "-" + parts[0];
          var url := link;
          var descriptionText := Strip(nameElement);
          var uniqueName := SuffixUntilFree(BaseName(dateText, nameText), urls);
          urls := urls + [Entry(url, dateText, uniqueName, descriptionText)];
        }
        assert rows[|rows|..] + rest == rest;
      }
      return Ok(urls);
    }

    /**
     * `get_urls(keyword, limited_pages)`: the two lists and the logged
     * failure, if any; the page counter ends where the loop left it.
     */
    method GetUrls(site: Site, limit: int) returns (pdfUrls: seq<Entry>, nonPdfUrls: seq<Entry>, failure: Option<Failure>)
      modifies this
      ensures var run := Scrape(site, limit);
        pdfUrls == run.pdf && nonPdfUrls == run.nonPdf && failure == run.failure
      ensures site.searchBox && site.sortControls ==> currentPage == Paginate(site.pages, 1, limit, Extracted, [], [], 0).currentPage
      ensures !(site.searchBox && site.sortControls) ==> currentPage == old(currentPage)
    {
      pdfUrls, nonPdfUrls, failure := [], [], None;
      if !site.searchBox {
        failure := Some(SearchTimeout);
        return;
      }
      if !site.sortControls {
        failure := Some(NoResultsFound);
        return;
      }
      currentPage := 1;
      ghost var read := 0;
      while true
        invariant 1 <= currentPage
        invariant Paginate(site.pages, 1, limit, Extracted, [], [], 0) == Paginate(site.pages, currentPage, limit, Extracted, pdfUrls, nonPdfUrls, read)
        decreases |site.pages| + 1 - currentPage
      {
        if !Shows(site.pages, currentPage) {
          failure := Some(ResultsTimeout);
          return;
        }
        var page := site.pages[currentPage - 1];
        var p := ExtractLinks(page.results, "pdf");
        if p.Err? {
          failure := Some(p.error);
          return;
        }
        pdfUrls := pdfUrls + p.value;
        var h := ExtractLinks(page.results, "html");
        if h.Err? {
          failure := Some(h.error);
          return;
        }
        nonPdfUrls := nonPdfUrls + h.value;
        read := read + 1;
        var clicked := ClickNextButton(limit, page.next);
        if !clicked {
          return;
        }
      }
    }
  }
}
