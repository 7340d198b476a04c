/**
 * `BaseScraper.start`: for every keyword in turn, create its folders, let
 * the bot collect the PDF and non-PDF tuples, download and save the PDFs,
 * process the other pages; then close the browser once.
 *
 * Which site the browser shows for a keyword is a parameter of the bot: a
 * function from the keyword to the site's pages as the model of each bot
 * reads them.
 */
module Scraper {
  import opened Wrappers
  import opened Results
  import opened Base
  import EurLex
  import Echa

  /** The two bots, each with the site it finds for every keyword. */
  datatype Bot =
    | EurLexBot(eurLexSites: string -> EurLex.Site)
    | EchaBot(echaSites: string -> Echa.Site)

  /** The `site_name` each bot passes to `BaseScraper`. */
  function SiteName(bot: Bot): (name: string)
    ensures bot.EurLexBot? <==> name == "eur_lex"
    ensures bot.EchaBot? <==> name == "ECHA"
  {
    match bot
    case EurLexBot(_) => "eur_lex"
    case EchaBot(_) => "ECHA"
  }

  /** What the bot's `get_urls(keyword, limited_pages)` returns for one keyword. */
  function Found(bot: Bot, keyword: string, limit: int): Run {
    match bot
    case EurLexBot(sites) => EurLex.Scrape(sites(keyword), limit)
    case EchaBot(sites) => Echa.Scrape(sites(keyword), limit)
  }

  /** The search, date-filter or sort step of the bot fails for this keyword. */
  predicate SetupFails(bot: Bot, keyword: string) {
    match bot
    case EurLexBot(sites) => !sites(keyword).searchBox || !sites(keyword).sortControls
    case EchaBot(sites) => !sites(keyword).searchBox || !sites(keyword).datePicker || !sites(keyword).sortSelect
  }

  /** Everything one keyword writes, given what the bot found for it. */
  function KeywordEffects(bot: Bot, keyword: string, limit: int, fetch: Fetch): seq<Effect> {
    var run := Found(bot, keyword, limit);
    KeywordWrites(SiteName(bot), keyword, run.pdf, run.nonPdf, fetch)
  }

  function KeywordStep(bot: Bot, limit: int, fetch: Fetch): string -> seq<Effect> {
    keyword => KeywordEffects(bot, keyword, limit, fetch)
  }

  /** Everything `start()` does: the keywords' effects in list order, then closing the browser. */
  function StartEffects(bot: Bot, keywords: seq<string>, limit: int, fetch: Fetch): seq<Effect> {
    FlatMap(keywords, KeywordStep(bot, limit, fetch)) + [QuitDriver]
  }

  /** The browser is closed exactly once, after everything else, even when there are no keywords. */
  lemma StartQuitsOnceAtEnd(bot: Bot, keywords: seq<string>, limit: int, fetch: Fetch)
    ensures var r := StartEffects(bot, keywords, limit, fetch);
      && r[|r| - 1] == QuitDriver
      && QuitDriver !in r[..|r| - 1]
  {
    var body := FlatMap(keywords, KeywordStep(bot, limit, fetch));
    FlatMapMember(keywords, KeywordStep(bot, limit, fetch), QuitDriver);
    forall i | 0 <= i < |keywords|
      ensures QuitDriver !in KeywordEffects(bot, keywords[i], limit, fetch)
    {
      var run := Found(bot, keywords[i], limit);
      KeywordWritesNoQuit(SiteName(bot), keywords[i], run.pdf, run.nonPdf, fetch);
    }
    assert StartEffects(bot, keywords, limit, fetch)[..|body|] == body;
  }

  /** The first keyword is handled completely before the others. */
  lemma StartFirstKeyword(bot: Bot, keyword: string, rest: seq<string>, limit: int, fetch: Fetch)
    ensures StartEffects(bot, [keyword] + rest, limit, fetch)
         == KeywordEffects(bot, keyword, limit, fetch) + StartEffects(bot, rest, limit, fetch)
  {
    FlatMapConsThen(keyword, rest, KeywordStep(bot, limit, fetch), [QuitDriver]);
  }

  /** A keyword whose search fails still gets its folders and the pdf folder, and nothing is written for it. */
  lemma KeywordSearchFailed(bot: Bot, keyword: string, limit: int, fetch: Fetch)
    requires SetupFails(bot, keyword)
    ensures KeywordEffects(bot, keyword, limit, fetch)
         == FolderStructure(SiteName(bot), keyword) + [MakeDirs(Subfolder(SiteName(bot), keyword, "pdf"))]
  {
    match bot
    case EurLexBot(sites) => EurLex.ScrapeSetupFailure(sites(keyword), limit);
    case EchaBot(sites) => Echa.ScrapeSetupFailure(sites(keyword), limit);
  }

  /**
   * The body of the loop in `start()` for one keyword. The EUR-Lex bot keeps
   * its page counter in `scraper`.
   */
  method ScrapeKeyword(bot: Bot, scraper: EurLex.EurLexScraper, keyword: string, limit: int, fetch: Fetch)
    returns (effects: seq<Effect>)
    modifies scraper
    ensures effects == KeywordEffects(bot, keyword, limit, fetch)
  {
    var site := SiteName(bot);
    var folders := FolderStructure(site, keyword);
    var pdfUrls, nonPdfUrls, failure;
    match bot {
      case EurLexBot(sites) =>
        pdfUrls, nonPdfUrls, failure := scraper.GetUrls(sites(keyword), limit);
      case EchaBot(sites) =>
        pdfUrls, nonPdfUrls, failure := Echa.GetUrls(sites(keyword), limit);
    }
    var pdfData, downloads := DownloadPdfFiles(site, keyword, pdfUrls, fetch);
    var pdfFiles := SavePdfData(site, keyword, pdfData);
    var processed := ProcessNonPdfUrls(site, keyword, nonPdfUrls, fetch);
    effects := folders + downloads + pdfFiles + processed;
  }

  /** `start()`: every keyword in list order, then `driver.quit()`. */
  method Start(bot: Bot, keywords: seq<string>, limit: int, fetch: Fetch) returns (effects: seq<Effect>)
    ensures effects == StartEffects(bot, keywords, limit, fetch)
  {
    var scraper := new EurLex.EurLexScraper();
    effects := [];
    for i := 0 to |keywords|
      invariant effects == FlatMap(keywords[..i], KeywordStep(bot, limit, fetch))
    {
      FlatMapStep(keywords, i, KeywordStep(bot, limit, fetch));
      var written := ScrapeKeyword(bot, scraper, keywords[i], limit, fetch);
      effects := effects + written;
    }
    assert keywords[..|keywords|] == keywords;
    effects := effects + [QuitDriver];
  }
}
