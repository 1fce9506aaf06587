/** The destination summary (`fetchDestinationSummary`, app.js:335-367):
    Wikivoyage first, then Wikipedia, else nothing. */
module Summary {
  import opened Wrappers

  /** One page of the Wikivoyage query; pages are listed in `Object.values`
      order, and a body without `query.pages` lists none. */
  datatype VoyagePage = VoyagePage(extract: Option<string>, fullurl: Option<string>)

  datatype VoyageBody = VoyageBody(pages: seq<VoyagePage>)

  /** The Wikipedia REST summary: `extract` and `content_urls.desktop.page`. */
  datatype WikiBody = WikiBody(extract: Option<string>, desktopPage: Option<string>)

  datatype Source = Wikivoyage | Wikipedia

  datatype Summary = Summary(extract: string, url: Option<string>, source: Source)

  /** The promise's fate: a summary, `null`, or a rejection (neither request
      is guarded by a `try`). */
  datatype Outcome = Found(summary: Summary) | NotFound | Rejected

  /** The outcome, and whether the Wikipedia request was issued at all. */
  datatype Run = Run(outcome: Outcome, askedWikipedia: bool)

  /** The Wikivoyage answer is usable: ok, and its first page has a non-empty
      extract. */
  predicate VoyageUsable(voyage: Response<VoyageBody>) {
    voyage.Ok? && |voyage.body.pages| > 0 && Truthy(voyage.body.pages[0].extract)
  }

  /** The Wikipedia answer is usable: ok, with both a non-empty extract and a
      non-empty desktop page URL. */
  predicate WikiUsable(wiki: Response<WikiBody>) {
    wiki.Ok? && Truthy(wiki.body.extract) && Truthy(wiki.body.desktopPage)
  }

  function FetchSummary(voyage: Response<VoyageBody>, wiki: Response<WikiBody>): (r: Run)
    ensures r.askedWikipedia <==> !voyage.Threw? && !VoyageUsable(voyage)
    ensures r.outcome.Found? && r.outcome.summary.source == Wikivoyage <==> VoyageUsable(voyage)
    ensures r.outcome.Found? && r.outcome.summary.source == Wikipedia <==>
              r.askedWikipedia && WikiUsable(wiki)
    ensures r.outcome.Rejected? <==> voyage.Threw? || (r.askedWikipedia && wiki.Threw?)
    ensures r.outcome.Found? ==> r.outcome.summary.extract != ""
    ensures VoyageUsable(voyage) ==> r.outcome.summary == Summary(voyage.body.pages[0].extract.value, voyage.body.pages[0].fullurl, Wikivoyage)
    ensures r.outcome.Found? && !VoyageUsable(voyage) ==>
              WikiUsable(wiki) && r.outcome.summary == Summary(wiki.body.extract.value, wiki.body.desktopPage, Wikipedia)
  {
    if voyage.Threw? then Run(Rejected, false)
    else if VoyageUsable(voyage) then
      var page := voyage.body.pages[0];
      Run(Found(Summary(page.extract.value, page.fullurl, Wikivoyage)), false)
    else
      match wiki
      case Threw => Run(Rejected, true)
      case NotOk => Run(NotFound, true)
      case Ok(body) =>
        if Truthy(body.extract) && Truthy(body.desktopPage) then
          Run(Found(Summary(body.extract.value, body.desktopPage, Wikipedia)), true)
        else Run(NotFound, true)
  }

  /** Short circuit: once Wikivoyage answers usably, nothing Wikipedia would
      have said can change the outcome. */
  lemma WikipediaIrrelevantAfterHit(voyage: Response<VoyageBody>, wiki1: Response<WikiBody>, wiki2: Response<WikiBody>)
    requires VoyageUsable(voyage)
    ensures FetchSummary(voyage, wiki1) == FetchSummary(voyage, wiki2)
  {
  }

  /** Only the first listed page counts: a usable extract on a later page is
      never used when the first has none. */
  lemma OnlyFirstPageCounts(first: VoyagePage, later: seq<VoyagePage>, wiki: Response<WikiBody>)
    requires !Truthy(first.extract)
    ensures FetchSummary(Ok(VoyageBody([first] + later)), wiki) == FetchSummary(NotOk, wiki)
  {
  }
}
