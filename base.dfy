/**
 * What `BaseScraper` does with the tuples a bot finds: the per-keyword
 * folder tree, the metadata record and the summary text written for every
 * document, the tables kept from an HTML page, and the loops that fetch the
 * PDF and non-PDF links and write their files.
 *
 * The file system is not modelled as state: every operation returns the
 * directory creations and file writes it performs, in order, as `Effect`s.
 * The network is a function from URL to an optional response (`None` when
 * the request raises); BeautifulSoup's parse is the list of tables it finds.
 */
module Base {
  import opened Wrappers
  import opened Text
  import opened Results

  // ---------------------------------------------------------------- lists

  /** The lists `f` gives for the elements of `xs`, one after the other (a loop appending `f(x)` for each `x`). */
  function FlatMap<T, U>(xs: seq<T>, f: T -> seq<U>): seq<U>
    decreases |xs|
  {
    if xs == [] then [] else FlatMap(xs[..|xs| - 1], f) + f(xs[|xs| - 1])
  }

  lemma {:induction false} FlatMapAppend<T, U>(xs: seq<T>, ys: seq<T>, f: T -> seq<U>)
    ensures FlatMap(xs + ys, f) == FlatMap(xs, f) + FlatMap(ys, f)
    decreases |ys|
  {
    if ys == [] {
      assert xs + ys == xs;
    } else {
      var zs := xs + ys;
      assert zs[..|zs| - 1] == xs + ys[..|ys| - 1];
      assert zs[|zs| - 1] == ys[|ys| - 1];
      FlatMapAppend(xs, ys[..|ys| - 1], f);
    }
  }

  /** The first element's list comes first. */
  lemma FlatMapCons<T, U>(x: T, rest: seq<T>, f: T -> seq<U>)
    ensures FlatMap([x] + rest, f) == f(x) + FlatMap(rest, f)
  {
    FlatMapAppend([x], rest, f);
    assert FlatMap([x], f) == FlatMap([], f) + f(x);
  }

  /** `FlatMapCons` followed by a fixed tail. */
  lemma FlatMapConsThen<T, U>(x: T, rest: seq<T>, f: T -> seq<U>, tail: seq<U>)
    ensures FlatMap([x] + rest, f) + tail == f(x) + (FlatMap(rest, f) + tail)
  {
    FlatMapCons(x, rest, f);
  }

  /** One step of the loop: the lists for a prefix one element longer. */
  lemma FlatMapStep<T, U>(xs: seq<T>, i: int, f: T -> seq<U>)
    requires 0 <= i < |xs|
    ensures FlatMap(xs[..i + 1], f) == FlatMap(xs[..i], f) + f(xs[i])
  {
    assert xs[..i + 1][..i] == xs[..i];
  }

  /** Something is produced exactly by producing it for one of the elements. */
  lemma {:induction false} FlatMapMember<T, U>(xs: seq<T>, f: T -> seq<U>, u: U)
    ensures u in FlatMap(xs, f) <==> exists i :: 0 <= i < |xs| && u in f(xs[i])
    decreases |xs|
  {
    if xs != [] {
      var n := |xs| - 1;
      FlatMapMember(xs[..n], f, u);
      assert FlatMap(xs, f) == FlatMap(xs[..n], f) + f(xs[n]);
      if exists i :: 0 <= i < n && u in f(xs[..n][i]) {
        var i :| 0 <= i < n && u in f(xs[..n][i]);
        assert xs[..n][i] == xs[i];
      }
      if exists i :: 0 <= i < |xs| && u in f(xs[i]) {
        var i :| 0 <= i < |xs| && u in f(xs[i]);
        if i < n {
          assert xs[..n][i] == xs[i];
        }
      }
    }
  }

  /** What no element's list holds, the whole list does not hold. */
  lemma FlatMapAvoids<T, U>(xs: seq<T>, f: T -> seq<U>, u: U)
    requires forall i :: 0 <= i < |xs| ==> u !in f(xs[i])
    ensures u !in FlatMap(xs, f)
  {
    FlatMapMember(xs, f, u);
  }

  /** When every element gives exactly one item, there is one item per element, in order. */
  lemma {:induction false} FlatMapSingletons<T, U>(xs: seq<T>, f: T -> seq<U>)
    requires forall i :: 0 <= i < |xs| ==> |f(xs[i])| == 1
    ensures |FlatMap(xs, f)| == |xs|
    ensures forall i :: 0 <= i < |xs| ==> FlatMap(xs, f)[i] == f(xs[i])[0]
    decreases |xs|
  {
    if xs != [] {
      var n := |xs| - 1;
      assert forall i :: 0 <= i < n ==> xs[..n][i] == xs[i];
      FlatMapSingletons(xs[..n], f);
      var front := FlatMap(xs[..n], f);
      assert FlatMap(xs, f) == front + f(xs[n]);
      forall i | 0 <= i < |xs|
        ensures FlatMap(xs, f)[i] == f(xs[i])[0]
      {
        if i < n {
          assert FlatMap(xs, f)[i] == front[i];
        }
      }
    }
  }

  // ---------------------------------------------------------------- paths

  /** `keyword.replace(':', '').replace(' ', '_')`: the keyword as a folder name. */
  function SanitizeKeyword(keyword: string): (r: string)
    ensures ':' !in r && ' ' !in r
    ensures |r| <= |keyword|
    ensures forall ch :: ch in r ==> ch in keyword || ch == '_'
  {
    Replace(Replace(keyword, ':', ""), ' ', "_")
  }

  /** A `:` disappears, a space becomes `_`, every other character of the keyword is kept. */
  lemma SanitizeKeywordChar(c: char)
    ensures SanitizeKeyword([c]) == if c == ':' then "" else if c == ' ' then "_" else [c]
  {
    ReplaceChar(c, ':', "");
    if c != ':' {
      ReplaceChar(c, ' ', "_");
    }
  }

  /** Sanitising works character by character: it distributes over concatenation. */
  lemma SanitizeKeywordAppend(a: string, b: string)
    ensures SanitizeKeyword(a + b) == SanitizeKeyword(a) + SanitizeKeyword(b)
  {
    ReplaceAppend(a, b, ':', "");
    ReplaceAppend(Replace(a, ':', ""), Replace(b, ':', ""), ' ', "_");
  }

  /** A sanitised keyword is sanitised already. */
  lemma SanitizeKeywordIdempotent(keyword: string)
    ensures SanitizeKeyword(SanitizeKeyword(keyword)) == SanitizeKeyword(keyword)
  {
  }

  /**
   * `os.path.join(a, b)` on POSIX: a `b` starting with `/` replaces `a`;
   * otherwise `b` is appended, after a `/` unless `a` is empty or already
   * ends with one.
   */
  function PathJoin(a: string, b: string): string {
    if StartsWith(b, "/") then b
    else if a == [] || EndsWith(a, "/") then a + b
    else a + "/" + b
  }

  /** The joined path ends with `b`; it is `b` when `b` is absolute, and otherwise starts with `a` and adds at most one `/`. */
  lemma PathJoinShape(a: string, b: string)
    ensures EndsWith(PathJoin(a, b), b)
    ensures StartsWith(b, "/") ==> PathJoin(a, b) == b
    ensures !StartsWith(b, "/") ==> StartsWith(PathJoin(a, b), a) && |PathJoin(a, b)| <= |a| + 1 + |b|
  {
    if !StartsWith(b, "/") {
      if a == [] || EndsWith(a, "/") {
        assert (a + b)[..|a|] == a && (a + b)[|a|..] == b;
      } else {
        assert (a + "/" + b)[..|a|] == a && (a + "/" + b)[|a| + 1..] == b;
      }
    }
  }

  /** A file name without `/` joined to a non-empty folder is the last component of the path. */
  lemma PathJoinLast(a: string, b: string)
    requires a != [] && '/' !in b
    ensures var ps := Split(PathJoin(a, b), '/'); ps[|ps| - 1] == b
  {
    SplitNone(b, '/');
    if EndsWith(a, "/") {
      var front := a[..|a| - 1];
      assert a == front + ['/'];
      assert a + b == front + ['/'] + b;
      SplitAppend(front, b, '/');
    } else {
      assert a + "/" + b == a + ['/'] + b;
      SplitAppend(a, b, '/');
    }
  }

  /** A file name without `/` joined to a non-empty folder lies in that folder and is the last component. */
  lemma FileInFolder(folder: string, file: string)
    requires folder != [] && file != [] && '/' !in file
    ensures StartsWith(PathJoin(folder, file), folder)
    ensures var ps := Split(PathJoin(folder, file), '/'); ps[|ps| - 1] == file
  {
    assert file[0] != '/';
    PathJoinShape(folder, file);
    PathJoinLast(folder, file);
  }

  /** `data/raw/{site_name}`. */
  function SiteRoot(site: string): string {
    "data/raw/" + site
  }

  /** The folder of one keyword. */
  function KeywordFolder(site: string, keyword: string): string {
    PathJoin(SiteRoot(site), SanitizeKeyword(keyword))
  }

  /** A subfolder of a keyword's folder, as every save operation builds it. */
  function Subfolder(site: string, keyword: string, sub: string): string {
    PathJoin(KeywordFolder(site, keyword), sub)
  }

  lemma KeywordFolderNonEmpty(site: string, keyword: string)
    ensures KeywordFolder(site, keyword) != []
  {
    var k := SanitizeKeyword(keyword);
    PathJoinShape(SiteRoot(site), k);
    if !StartsWith(k, "/") {
      assert |SiteRoot(site)| > 0;
    }
  }

  lemma SubfolderNonEmpty(site: string, keyword: string, sub: string)
    requires sub != []
    ensures Subfolder(site, keyword, sub) != []
  {
    PathJoinShape(KeywordFolder(site, keyword), sub);
  }

  /** Every keyword folder lies under `data/raw/{site_name}` unless the sanitised keyword is an absolute path. */
  lemma KeywordFolderUnderSite(site: string, keyword: string)
    requires !StartsWith(SanitizeKeyword(keyword), "/")
    ensures StartsWith(KeywordFolder(site, keyword), SiteRoot(site))
  {
    PathJoinShape(SiteRoot(site), SanitizeKeyword(keyword));
  }

  /** A subfolder name without `/` is one level down in the keyword folder. */
  lemma SubfolderInKeywordFolder(site: string, keyword: string, sub: string)
    requires sub != [] && '/' !in sub
    ensures StartsWith(Subfolder(site, keyword, sub), KeywordFolder(site, keyword))
    ensures var ps := Split(Subfolder(site, keyword, sub), '/'); ps[|ps| - 1] == sub
  {
    KeywordFolderNonEmpty(site, keyword);
    FileInFolder(KeywordFolder(site, keyword), sub);
  }

  /** The four subfolders of every keyword folder. */
  const Subfolders: seq<string> := ["pdf", "text", "metadata", "json"]

  // ---------------------------------------------------------------- effects

  /** The metadata record: name, notification date, notifying country (never known), URL and keyword. */
  datatype Metadata = Metadata(name: string, notifiedDate: string, notifiedCountry: Option<string>, url: string, keyword: string)

  /** A table kept from an HTML page: header texts and the data rows' cell texts. */
  datatype Table = Table(headers: seq<string>, rows: seq<seq<string>>)

  /** What a file is written with. */
  datatype Content =
    | PlainText(text: string)
    | MetadataJson(metadata: Metadata)
    | TablesJson(tables: seq<Table>)
    | Binary(bytes: seq<bv8>)

  /** One observable action: a directory created (`exist_ok=True`), a file written, or the browser closed. */
  datatype Effect = MakeDirs(path: string) | WriteFile(path: string, content: Content) | QuitDriver

  /** `create_folder_structure(keyword)`: the keyword folder, then its four subfolders. */
  function FolderStructure(site: string, keyword: string): (r: seq<Effect>)
    ensures |r| == 1 + |Subfolders| && r[0] == MakeDirs(KeywordFolder(site, keyword))
    ensures QuitDriver !in r
    ensures forall i :: 0 <= i < |Subfolders| ==> r[i + 1] == MakeDirs(Subfolder(site, keyword, Subfolders[i]))
  {
    [MakeDirs(KeywordFolder(site, keyword))]
      + [MakeDirs(Subfolder(site, keyword, "pdf")), MakeDirs(Subfolder(site, keyword, "text"))]
      + [MakeDirs(Subfolder(site, keyword, "metadata")), MakeDirs(Subfolder(site, keyword, "json"))]
  }

  /** The metadata of a found tuple. */
  function MetadataOf(e: Entry, keyword: string): (m: Metadata)
    ensures m.name == e.name && m.notifiedDate == e.date && m.url == e.url && m.keyword == keyword
    ensures m.notifiedCountry == None
  {
    Metadata(e.name, e.date, None, e.url, keyword)
  }

  /** `save_metadata`: the metadata folder, then `metadata_{name}.json` in it. */
  function SaveMetadata(site: string, keyword: string, m: Metadata): seq<Effect> {
    var folder := Subfolder(site, keyword, "metadata");
    [MakeDirs(folder), WriteFile(PathJoin(folder, "metadata_" + m.name + ".json"), MetadataJson(m))]
  }

  /**
   * `save_metadata` writes the record, and only it, to `metadata_{name}.json`
   * in the keyword's metadata folder, after creating that folder.
   */
  lemma MetadataFile(site: string, keyword: string, m: Metadata)
    requires '/' !in m.name
    ensures var w := SaveMetadata(site, keyword, m);
      && |w| == 2 && w[0] == MakeDirs(Subfolder(site, keyword, "metadata"))
      && w[1].WriteFile? && w[1].content == MetadataJson(m)
      && StartsWith(w[1].path, Subfolder(site, keyword, "metadata"))
      && var ps := Split(w[1].path, '/'); ps[|ps| - 1] == "metadata_" + m.name + ".json"
  {
    SubfolderNonEmpty(site, keyword, "metadata");
    FileInFolder(Subfolder(site, keyword, "metadata"), "metadata_" + m.name + ".json");
  }

  /** The four lines of a summary file. */
  function SummaryText(name: string, date: string, keyword: string, description: string): string {
    var title, distribution, keywords, summary := "Title: " + name, "Distribution date: " + date, "Keywords: " + keyword, "Summary: " + description;
    title + "\n" + distribution + "\n" + keywords + "\n" + summary + "\n"
  }

  /**
   * A summary has exactly four lines, in the order title, distribution
   * date, keywords, summary, each ended by a newline, as long as no field
   * holds a newline of its own.
   */
  lemma SummaryLines(name: string, date: string, keyword: string, description: string)
    requires '\n' !in name && '\n' !in date && '\n' !in keyword && '\n' !in description
    ensures Split(SummaryText(name, date, keyword, description), '\n')
         == ["Title: " + name, "Distribution date: " + date, "Keywords: " + keyword, "Summary: " + description, ""]
  {
    SplitFour("Title: " + name, "Distribution date: " + date, "Keywords: " + keyword, "Summary: " + description, '\n');
  }

  /** `save_summary`: the text folder, then `{name}.txt` in it; the URL is not written. */
  function SaveSummary(site: string, keyword: string, url: string, date: string, name: string, description: string): seq<Effect> {
    var folder := Subfolder(site, keyword, "text");
    [MakeDirs(folder), WriteFile(PathJoin(folder, name + ".txt"), PlainText(SummaryText(name, date, keyword, description)))]
  }

  /** Every file the save operations write lies in a folder `create_folder_structure` creates. */
  lemma SavesUseCreatedFolders(site: string, keyword: string, m: Metadata, url: string, date: string, name: string, description: string)
    ensures SaveMetadata(site, keyword, m)[0] in FolderStructure(site, keyword)
    ensures SaveSummary(site, keyword, url, date, name, description)[0] in FolderStructure(site, keyword)
  {
    var r := FolderStructure(site, keyword);
    assert r[3] == SaveMetadata(site, keyword, m)[0];
    assert r[2] == SaveSummary(site, keyword, url, date, name, description)[0];
  }

  // ---------------------------------------------------------------- tables

  /** A `table` element as parsed: the texts of all its `th`s, and for each `tr` the texts of its `td`s. */
  datatype RawTable = RawTable(headers: seq<string>, rows: seq<seq<string>>)

  /** Every text stripped. */
  function StripAll(texts: seq<string>): (r: seq<string>)
    ensures |r| == |texts|
    ensures forall i :: 0 <= i < |r| ==> r[i] == Strip(texts[i])
  {
    if texts == [] then [] else [Strip(texts[0])] + StripAll(texts[1..])
  }

  /** The rows that have at least one `td`, their cells stripped; there are none exactly when no row has a cell. */
  function DataRows(rows: seq<seq<string>>): (r: seq<seq<string>>)
    ensures |r| <= |rows|
    ensures forall i :: 0 <= i < |r| ==> r[i] != []
    ensures r == [] <==> forall i :: 0 <= i < |rows| ==> rows[i] == []
  {
    if rows == [] then []
    else
      var rest := DataRows(rows[1..]);
      assert forall i :: 1 <= i < |rows| ==> rows[i] == rows[1..][i - 1];
      (if rows[0] == [] then [] else [StripAll(rows[0])]) + rest
  }

  /** The data rows of two stretches of a table are those of each, in order. */
  lemma {:induction false} DataRowsAppend(a: seq<seq<string>>, b: seq<seq<string>>)
    ensures DataRows(a + b) == DataRows(a) + DataRows(b)
    decreases |a|
  {
    if a == [] {
      assert a + b == b;
    } else {
      assert (a + b)[0] == a[0] && (a + b)[1..] == a[1..] + b;
      DataRowsAppend(a[1..], b);
    }
  }

  /** One `tr` gives its stripped cells when it has a `td`, and nothing otherwise. */
  lemma DataRowsOne(row: seq<string>)
    ensures DataRows([row]) == if row == [] then [] else [StripAll(row)]
  {
    assert [row][1..] == [];
  }

  /** A table as the JSON stores it: the header texts and the data rows, all stripped. */
  function CleanTable(raw: RawTable): Table {
    Table(StripAll(raw.headers), DataRows(raw.rows))
  }

  /** `if rows and headers`: the table is kept. */
  predicate Keep(t: Table) {
    t.rows != [] && t.headers != []
  }

  /** A table is kept exactly when it has a header and a row with a cell. */
  lemma KeepIff(raw: RawTable)
    ensures Keep(CleanTable(raw)) <==> raw.headers != [] && exists i :: 0 <= i < |raw.rows| && raw.rows[i] != []
  {
  }

  /** The one-table list of a raw table that is kept, the empty list otherwise. */
  function KeptOne(raw: RawTable): (r: seq<Table>)
    ensures |r| <= 1
    ensures forall t :: t in r ==> Keep(t)
  {
    if Keep(CleanTable(raw)) then [CleanTable(raw)] else []
  }

  /** The tables `extract_and_save_tables` keeps, in document order. */
  function KeptTables(raws: seq<RawTable>): seq<Table> {
    FlatMap(raws, KeptOne)
  }

  /** Every kept table has a header and a row, and none of its rows is empty. */
  lemma KeptTablesWellFormed(raws: seq<RawTable>)
    ensures forall t :: t in KeptTables(raws) ==> Keep(t) && forall j :: 0 <= j < |t.rows| ==> t.rows[j] != []
  {
    forall t | t in KeptTables(raws)
      ensures Keep(t) && forall j :: 0 <= j < |t.rows| ==> t.rows[j] != []
    {
      FlatMapMember(raws, KeptOne, t);
      var i :| 0 <= i < |raws| && t in KeptOne(raws[i]);
      assert t == CleanTable(raws[i]);
    }
  }

  /** Tables are kept one by one: the tables of two stretches of a page are the tables of each. */
  lemma KeptTablesAppend(a: seq<RawTable>, b: seq<RawTable>)
    ensures KeptTables(a + b) == KeptTables(a) + KeptTables(b)
  {
    FlatMapAppend(a, b, KeptOne);
  }

  /** The JSON file of a page's kept tables: written only when at least one table is kept. */
  function TablesWrites(site: string, keyword: string, name: string, tables: seq<Table>): (r: seq<Effect>)
    ensures QuitDriver !in r
  {
    if tables == [] then []
    else
      var folder := Subfolder(site, keyword, "json");
      [MakeDirs(folder), WriteFile(PathJoin(folder, name + ".json"), TablesJson(tables))]
  }

  /** The tables file is written exactly when some table of the page has a header and a row with a cell. */
  lemma TablesWrittenIff(site: string, keyword: string, name: string, raws: seq<RawTable>)
    ensures TablesWrites(site, keyword, name, KeptTables(raws)) != []
        <==> exists i :: 0 <= i < |raws| && Keep(CleanTable(raws[i]))
  {
    if exists i :: 0 <= i < |raws| && Keep(CleanTable(raws[i])) {
      var i :| 0 <= i < |raws| && Keep(CleanTable(raws[i]));
      FlatMapMember(raws, KeptOne, CleanTable(raws[i]));
    }
    if KeptTables(raws) != [] {
      FlatMapMember(raws, KeptOne, KeptTables(raws)[0]);
    }
  }

  /** `extract_and_save_tables(soup, keyword, name, date)`; the date is not used. */
  method ExtractAndSaveTables(site: string, keyword: string, name: string, date: string, tables: seq<RawTable>)
    returns (effects: seq<Effect>)
    ensures effects == TablesWrites(site, keyword, name, KeptTables(tables))
  {
    var tablesData: seq<Table> := [];
    for i := 0 to |tables|
      invariant tablesData == FlatMap(tables[..i], KeptOne)
    {
      FlatMapStep(tables, i, KeptOne);
      var headers := StripAll(tables[i].headers);
      var rows := DataRows(tables[i].rows);
      if rows != [] && headers != [] {
        tablesData := tablesData + [Table(headers, rows)];
      }
    }
    assert tables[..|tables|] == tables;
    effects := [];
    if tablesData != [] {
      var folder := Subfolder(site, keyword, "json");
      effects := [MakeDirs(folder), WriteFile(PathJoin(folder, name + ".json"), TablesJson(tablesData))];
    }
  }

  // ---------------------------------------------------------------- downloads

  /** What a request returns: the body, and the tables BeautifulSoup finds in it. */
  datatype Response = Response(content: seq<bv8>, tables: seq<RawTable>)

  /** `requests.get`: the response for a URL, or `None` when the request raises. */
  type Fetch = string -> Option<Response>

  /** A downloaded PDF: `url`, `date`, `file_name` and `content`. */
  datatype PdfRecord = PdfRecord(url: string, date: string, fileName: string, content: seq<bv8>)

  /** The record one tuple contributes to `data`: one when its request succeeds, none otherwise. */
  function RecordOf(e: Entry, fetch: Fetch): (r: seq<PdfRecord>)
    ensures |r| == if fetch(e.url).Some? then 1 else 0
  {
    match fetch(e.url)
    case None => []
    case Some(resp) => [PdfRecord(e.url, e.date, e.name, resp.content)]
  }

  function RecordStep(fetch: Fetch): Entry -> seq<PdfRecord> {
    e => RecordOf(e, fetch)
  }

  /** The writes one tuple causes in `download_pdf_files`: its metadata, then its summary; nothing when the request fails. */
  function DownloadWrites(site: string, keyword: string, e: Entry, fetch: Fetch): (r: seq<Effect>)
    ensures fetch(e.url).None? <==> r == []
    ensures QuitDriver !in r
  {
    if fetch(e.url).None? then []
    else SaveMetadata(site, keyword, MetadataOf(e, keyword)) + SaveSummary(site, keyword, e.url, e.date, e.name, e.description)
  }

  function DownloadStep(site: string, keyword: string, fetch: Fetch): Entry -> seq<Effect> {
    e => DownloadWrites(site, keyword, e, fetch)
  }

  /** The body of the loop in `download_pdf_files`, for one tuple: the record it appends and the files it writes. */
  method DownloadOne(site: string, keyword: string, e: Entry, fetch: Fetch) returns (record: seq<PdfRecord>, effects: seq<Effect>)
    ensures record == RecordOf(e, fetch)
    ensures effects == DownloadWrites(site, keyword, e, fetch)
  {
    var response := fetch(e.url);
    if response.None? {
      return [], [];
    }
    record := [PdfRecord(e.url, e.date, e.name, response.value.content)];
    var metadata := SaveMetadata(site, keyword, MetadataOf(e, keyword));
    var summary := SaveSummary(site, keyword, e.url, e.date, e.name, e.description);
    effects := metadata + summary;
  }

  /** `download_pdf_files(urls, keyword)`: the records it returns and the files it writes. */
  method DownloadPdfFiles(site: string, keyword: string, urls: seq<Entry>, fetch: Fetch)
    returns (data: seq<PdfRecord>, effects: seq<Effect>)
    ensures data == FlatMap(urls, RecordStep(fetch))
    ensures effects == FlatMap(urls, DownloadStep(site, keyword, fetch))
  {
    data, effects := [], [];
    for i := 0 to |urls|
      invariant data == FlatMap(urls[..i], RecordStep(fetch))
      invariant effects == FlatMap(urls[..i], DownloadStep(site, keyword, fetch))
    {
      FlatMapStep(urls, i, RecordStep(fetch));
      FlatMapStep(urls, i, DownloadStep(site, keyword, fetch));
      var record, written := DownloadOne(site, keyword, urls[i], fetch);
      data := data + record;
      effects := effects + written;
    }
    assert urls[..|urls|] == urls;
  }

  /** When every request succeeds there is one record per tuple, in order, with the tuple's URL, date and name. */
  lemma DownloadAllFetched(urls: seq<Entry>, fetch: Fetch)
    requires forall i :: 0 <= i < |urls| ==> fetch(urls[i].url).Some?
    ensures var data := FlatMap(urls, RecordStep(fetch));
      && |data| == |urls|
      && forall i :: 0 <= i < |urls| ==>
           data[i] == PdfRecord(urls[i].url, urls[i].date, urls[i].name, fetch(urls[i].url).value.content)
  {
    FlatMapSingletons(urls, RecordStep(fetch));
  }

  /** An element that gives nothing can be dropped. */
  lemma FlatMapSkip<T, U>(before: seq<T>, x: T, after: seq<T>, f: T -> seq<U>)
    requires f(x) == []
    ensures FlatMap(before + [x] + after, f) == FlatMap(before + after, f)
  {
    FlatMapAppend(before + [x], after, f);
    FlatMapAppend(before, [x], f);
    FlatMapAppend(before, after, f);
    assert FlatMap([x], f) == FlatMap([], f) + f(x);
  }

  /** A tuple whose request fails is skipped: it adds no record and writes no metadata or summary. */
  lemma DownloadSkipsFailure(site: string, keyword: string, before: seq<Entry>, e: Entry, after: seq<Entry>, fetch: Fetch)
    requires fetch(e.url).None?
    ensures FlatMap(before + [e] + after, RecordStep(fetch)) == FlatMap(before + after, RecordStep(fetch))
    ensures FlatMap(before + [e] + after, DownloadStep(site, keyword, fetch)) == FlatMap(before + after, DownloadStep(site, keyword, fetch))
  {
    FlatMapSkip(before, e, after, RecordStep(fetch));
    FlatMapSkip(before, e, after, DownloadStep(site, keyword, fetch));
  }

  /** The file of one downloaded PDF, `{file_name}.pdf` in the pdf folder. */
  function PdfFile(site: string, keyword: string, item: PdfRecord): Effect {
    WriteFile(PathJoin(Subfolder(site, keyword, "pdf"), item.fileName + ".pdf"), Binary(item.content))
  }

  function PdfStep(site: string, keyword: string): PdfRecord -> seq<Effect> {
    item => [PdfFile(site, keyword, item)]
  }

  /** `save_pdf_data(keyword, data)`: the pdf folder, then one file per record. */
  method SavePdfData(site: string, keyword: string, data: seq<PdfRecord>) returns (effects: seq<Effect>)
    ensures effects == [MakeDirs(Subfolder(site, keyword, "pdf"))] + FlatMap(data, PdfStep(site, keyword))
  {
    var pdfFolder := Subfolder(site, keyword, "pdf");
    effects := [MakeDirs(pdfFolder)];
    for i := 0 to |data|
      invariant effects == [MakeDirs(pdfFolder)] + FlatMap(data[..i], PdfStep(site, keyword))
    {
      FlatMapStep(data, i, PdfStep(site, keyword));
      var pdfName := PathJoin(pdfFolder, data[i].fileName + ".pdf");
      effects := effects + [WriteFile(pdfName, Binary(data[i].content))];
    }
    assert data[..|data|] == data;
  }

  /** One PDF file per record, in order, each holding the record's content. */
  lemma PdfFilesPerRecord(site: string, keyword: string, data: seq<PdfRecord>)
    ensures |FlatMap(data, PdfStep(site, keyword))| == |data|
    ensures forall i :: 0 <= i < |data| ==>
      FlatMap(data, PdfStep(site, keyword))[i] == WriteFile(PathJoin(Subfolder(site, keyword, "pdf"), data[i].fileName + ".pdf"), Binary(data[i].content))
  {
    FlatMapSingletons(data, PdfStep(site, keyword));
  }

  /**
   * The writes one tuple causes in `process_non_pdf_urls`: its summary, the
   * tables file when a table is kept, then its metadata; nothing when the
   * request fails.
   */
  function ProcessWrites(site: string, keyword: string, e: Entry, fetch: Fetch): (r: seq<Effect>)
    ensures fetch(e.url).None? <==> r == []
    ensures QuitDriver !in r
  {
    match fetch(e.url)
    case None => []
    case Some(resp) =>
      var summary := SaveSummary(site, keyword, e.url, e.date, e.name, e.description);
      var tables := TablesWrites(site, keyword, e.name, KeptTables(resp.tables));
      var metadata := SaveMetadata(site, keyword, MetadataOf(e, keyword));
      assert summary != [] && QuitDriver !in summary && QuitDriver !in metadata;
      summary + tables + metadata
  }

  function ProcessStep(site: string, keyword: string, fetch: Fetch): Entry -> seq<Effect> {
    e => ProcessWrites(site, keyword, e, fetch)
  }

  /** The body of the loop in `process_non_pdf_urls`, for one tuple. */
  method ProcessOne(site: string, keyword: string, e: Entry, fetch: Fetch) returns (effects: seq<Effect>)
    ensures effects == ProcessWrites(site, keyword, e, fetch)
  {
    var response := fetch(e.url);
    if response.None? {
      return [];
    }
    var summary := SaveSummary(site, keyword, e.url, e.date, e.name, e.description);
    var tableEffects := ExtractAndSaveTables(site, keyword, e.name, e.date, response.value.tables);
    var metadata := SaveMetadata(site, keyword, MetadataOf(e, keyword));
    effects := summary + tableEffects + metadata;
  }

  /** `process_non_pdf_urls(urls, keyword)`: the files it writes. */
  method ProcessNonPdfUrls(site: string, keyword: string, urls: seq<Entry>, fetch: Fetch) returns (effects: seq<Effect>)
    ensures effects == FlatMap(urls, ProcessStep(site, keyword, fetch))
  {
    effects := [];
    for i := 0 to |urls|
      invariant effects == FlatMap(urls[..i], ProcessStep(site, keyword, fetch))
    {
      FlatMapStep(urls, i, ProcessStep(site, keyword, fetch));
      var written := ProcessOne(site, keyword, urls[i], fetch);
      effects := effects + written;
    }
    assert urls[..|urls|] == urls;
  }

  /** A non-PDF tuple whose request fails writes nothing. */
  lemma ProcessSkipsFailure(site: string, keyword: string, before: seq<Entry>, e: Entry, after: seq<Entry>, fetch: Fetch)
    requires fetch(e.url).None?
    ensures FlatMap(before + [e] + after, ProcessStep(site, keyword, fetch)) == FlatMap(before + after, ProcessStep(site, keyword, fetch))
  {
    FlatMapSkip(before, e, after, ProcessStep(site, keyword, fetch));
  }

  // ---------------------------------------------------------------- one keyword

  /**
   * Everything one keyword of `start()` writes once the bot has found its
   * tuples: its folders, the metadata and summary of every downloaded PDF,
   * the pdf folder and files, then the files of every non-PDF page.
   */
  function KeywordWrites(site: string, keyword: string, pdfUrls: seq<Entry>, nonPdfUrls: seq<Entry>, fetch: Fetch): seq<Effect> {
    FolderStructure(site, keyword)
      + FlatMap(pdfUrls, DownloadStep(site, keyword, fetch))
      + ([MakeDirs(Subfolder(site, keyword, "pdf"))] + FlatMap(FlatMap(pdfUrls, RecordStep(fetch)), PdfStep(site, keyword)))
      + FlatMap(nonPdfUrls, ProcessStep(site, keyword, fetch))
  }

  /** Downloading never closes the browser. */
  lemma DownloadsNoQuit(site: string, keyword: string, urls: seq<Entry>, fetch: Fetch)
    ensures QuitDriver !in FlatMap(urls, DownloadStep(site, keyword, fetch))
  {
    var step := DownloadStep(site, keyword, fetch);
    forall i | 0 <= i < |urls|
      ensures QuitDriver !in step(urls[i])
    {
      assert step(urls[i]) == DownloadWrites(site, keyword, urls[i], fetch);
    }
    FlatMapAvoids(urls, step, QuitDriver);
  }

  /** Processing the non-PDF pages never closes the browser. */
  lemma ProcessedNoQuit(site: string, keyword: string, urls: seq<Entry>, fetch: Fetch)
    ensures QuitDriver !in FlatMap(urls, ProcessStep(site, keyword, fetch))
  {
    var step := ProcessStep(site, keyword, fetch);
    forall i | 0 <= i < |urls|
      ensures QuitDriver !in step(urls[i])
    {
      assert step(urls[i]) == ProcessWrites(site, keyword, urls[i], fetch);
    }
    FlatMapAvoids(urls, step, QuitDriver);
  }

  /** A keyword never closes the browser. */
  lemma KeywordWritesNoQuit(site: string, keyword: string, pdfUrls: seq<Entry>, nonPdfUrls: seq<Entry>, fetch: Fetch)
    ensures QuitDriver !in KeywordWrites(site, keyword, pdfUrls, nonPdfUrls, fetch)
  {
    var folders := FolderStructure(site, keyword);
    var downloads := FlatMap(pdfUrls, DownloadStep(site, keyword, fetch));
    var pdfFiles := [MakeDirs(Subfolder(site, keyword, "pdf"))] + FlatMap(FlatMap(pdfUrls, RecordStep(fetch)), PdfStep(site, keyword));
    var processed := FlatMap(nonPdfUrls, ProcessStep(site, keyword, fetch));
    DownloadsNoQuit(site, keyword, pdfUrls, fetch);
    FlatMapAvoids(FlatMap(pdfUrls, RecordStep(fetch)), PdfStep(site, keyword), QuitDriver);
    ProcessedNoQuit(site, keyword, nonPdfUrls, fetch);
    assert QuitDriver !in folders + downloads + pdfFiles + processed;
  }
}
