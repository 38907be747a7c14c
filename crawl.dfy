/** The batch lookup: for each requested SKU, search the storefront, collect
    the candidate links, visit them in order until one matches, and emit one
    entry per SKU in input order.  The browser is a class that counts the
    pages it opens and closes and logs every navigation. */
module Crawl {
  import opened Wrappers
  import opened Dom
  import opened Sku
  import opened Extract
  import opened Links
  import Quote

  const SEARCH_URL := "https://spinetohogar.com/search?options%5Bprefix%5D=last&q="
  const NO_RESULTS := "Sin resultados"
  const NO_MATCH := "SKU no coincide en ning\U{FA}n producto"

  /** The storefront as the browser reaches it: navigating to a URL and
      waiting for its body either gives the rendered page or raises (a
      timeout or a network error). */
  type Web = string -> Try<Page>

  /** One entry of the result list: the matching product record, or the
      requested SKU with the reason nothing was found. */
  datatype Entry = Found(product: Product) | Missing(sku: string, message: string)

  /** The search URL of a SKU: the fixed prefix and the percent-encoded SKU. */
  function SearchUrl(sku: string): (r: string)
    ensures |r| >= |SEARCH_URL| + |sku| && r[..|SEARCH_URL|] == SEARCH_URL
  {
    SEARCH_URL + Quote.Quote(sku)
  }

  /** A search URL is the fixed prefix followed by a query that decodes back
      to the SKU's UTF-8 bytes and holds nothing that could end the query. */
  lemma SearchUrlQuery(sku: string)
    ensures |SearchUrl(sku)| >= |SEARCH_URL| && SearchUrl(sku)[..|SEARCH_URL|] == SEARCH_URL
    ensures Quote.PercentDecode(SearchUrl(sku)[|SEARCH_URL|..]) == Some(Quote.Utf8(sku))
    ensures Quote.IsQuoted(SearchUrl(sku)[|SEARCH_URL|..])
  {
    assert SearchUrl(sku)[|SEARCH_URL|..] == Quote.Quote(sku);
    Quote.QuoteAlphabet(Quote.Utf8(sku));
  }

  /** How a product page is read into a record; the batch uses
      `ExtractProductDetails`. */
  type Reader = (Page, string, string) -> Try<Product>

  /** Opening one candidate page and reading its record. */
  function Visit(web: Web, read: Reader, url: string, sku: string): Try<Product> {
    match web(url)
    case Raised => Raised
    case Ok(p) => read(p, url, sku)
  }

  /** The visits of one lookup, as a function of the candidate URL. */
  type Visitor = string -> Try<Product>

  function Visits(web: Web, read: Reader, sku: string): Visitor {
    url => Visit(web, read, url, sku)
  }

  /** Every candidate before index k was visited without raising and did
      not match. */
  predicate Rejected(visit: Visitor, hrefs: seq<string>, k: nat)
    requires k <= |hrefs|
  {
    forall j :: 0 <= j < k ==> visit(hrefs[j]).Ok? && !visit(hrefs[j]).value.matched
  }

  /** The record of the first candidate, in order, that matches; `None` when
      none does; `Raised` when a visit raises first. */
  function FirstMatch(visit: Visitor, hrefs: seq<string>): (r: Try<Option<Product>>)
    ensures r.Ok? && r.value.Some? ==> r.value.value.matched
    ensures r == Ok(None) <==> Rejected(visit, hrefs, |hrefs|)
  {
    if hrefs == [] then Ok(None)
    else
      match visit(hrefs[0])
      case Raised => Raised
      case Ok(d) =>
        if d.matched then Ok(Some(d))
        else
          var rest := FirstMatch(visit, hrefs[1..]);
          assert forall j :: 1 <= j < |hrefs| ==> hrefs[j] == hrefs[1..][j - 1];
          rest
  }

  /** The candidate URLs navigated to, in order: up to and including the
      first that matches or raises. */
  function CandidateVisits(visit: Visitor, hrefs: seq<string>): (r: seq<string>)
    ensures |r| <= |hrefs|
    ensures hrefs != [] ==> r != [] && r[0] == hrefs[0]
  {
    if hrefs == [] then []
    else
      [hrefs[0]] +
        match visit(hrefs[0])
        case Raised => []
        case Ok(d) => if d.matched then [] else CandidateVisits(visit, hrefs[1..])
  }

  /** A rejected first candidate extends a rejected prefix of the rest. */
  lemma RejectedCons(visit: Visitor, hrefs: seq<string>, k: nat)
    requires k < |hrefs| && visit(hrefs[0]).Ok? && !visit(hrefs[0]).value.matched
    requires Rejected(visit, hrefs[1..], k)
    ensures Rejected(visit, hrefs, k + 1)
  {
    forall j | 1 <= j < k + 1
      ensures visit(hrefs[j]).Ok? && !visit(hrefs[j]).value.matched
    {
      assert hrefs[j] == hrefs[1..][j - 1];
    }
  }

  /** Where the candidate walk stops: the number of candidates rejected
      before the first that raises or matches, or all of them. */
  function StopIndex(visit: Visitor, hrefs: seq<string>): (k: nat)
    ensures k <= |hrefs| && Rejected(visit, hrefs, k)
    ensures k < |hrefs| ==> visit(hrefs[k]).Raised? || visit(hrefs[k]).value.matched
  {
    if hrefs == [] then 0
    else if visit(hrefs[0]).Raised? || visit(hrefs[0]).value.matched then 0
    else
      var k := StopIndex(visit, hrefs[1..]);
      RejectedCons(visit, hrefs, k);
      assert k < |hrefs[1..]| ==> hrefs[1..][k] == hrefs[k + 1];
      1 + k
  }

  /** Where the candidate walk stops: after k rejected candidates, a
      candidate that raises or matches decides the result, and the visits
      end with it. */
  lemma StopAt(visit: Visitor, hrefs: seq<string>, k: nat)
    requires k < |hrefs| && Rejected(visit, hrefs, k)
    requires visit(hrefs[k]).Raised? || visit(hrefs[k]).value.matched
    ensures FirstMatch(visit, hrefs) ==
      if visit(hrefs[k]).Raised? then Raised else Ok(Some(visit(hrefs[k]).value))
    ensures CandidateVisits(visit, hrefs) == hrefs[..k + 1]
  {
    StopResultFrom(visit, hrefs, 0, k);
    StopTrailFrom(visit, hrefs, 0, k);
    assert hrefs[0..] == hrefs;
  }

  /** The walk started at candidate j <= k ends with the outcome of k. */
  lemma {:induction false} StopResultFrom(visit: Visitor, hrefs: seq<string>, j: nat, k: nat)
    requires j <= k < |hrefs| && Rejected(visit, hrefs, k)
    requires visit(hrefs[k]).Raised? || visit(hrefs[k]).value.matched
    ensures FirstMatch(visit, hrefs[j..]) ==
      if visit(hrefs[k]).Raised? then Raised else Ok(Some(visit(hrefs[k]).value))
    decreases k - j
  {
    if j == k {
      assert hrefs[k..][0] == hrefs[k];
    } else {
      SkipResult(visit, hrefs, j);
      StopResultFrom(visit, hrefs, j + 1, k);
    }
  }

  /** The walk started at candidate j <= k visits j up to k. */
  lemma {:induction false} StopTrailFrom(visit: Visitor, hrefs: seq<string>, j: nat, k: nat)
    requires j <= k < |hrefs| && Rejected(visit, hrefs, k)
    requires visit(hrefs[k]).Raised? || visit(hrefs[k]).value.matched
    ensures CandidateVisits(visit, hrefs[j..]) == hrefs[j..k + 1]
    decreases k - j
  {
    if j == k {
      assert hrefs[k..][0] == hrefs[k];
      assert hrefs[k..k + 1] == [hrefs[k]];
    } else {
      SkipTrail(visit, hrefs, j);
      StopTrailFrom(visit, hrefs, j + 1, k);
      ConsSlice(hrefs, j, k + 1);
    }
  }

  /** When every candidate is rejected, the walk visits them all. */
  lemma NoneMatches(visit: Visitor, hrefs: seq<string>)
    requires Rejected(visit, hrefs, |hrefs|)
    ensures FirstMatch(visit, hrefs) == Ok(None)
    ensures CandidateVisits(visit, hrefs) == hrefs
  {
    NoneTrailFrom(visit, hrefs, 0);
    assert hrefs[0..] == hrefs;
  }

  /** With every candidate rejected, the walk started at j visits the rest. */
  lemma {:induction false} NoneTrailFrom(visit: Visitor, hrefs: seq<string>, j: nat)
    requires j <= |hrefs| && Rejected(visit, hrefs, |hrefs|)
    ensures CandidateVisits(visit, hrefs[j..]) == hrefs[j..]
    decreases |hrefs| - j
  {
    if j < |hrefs| {
      SkipTrail(visit, hrefs, j);
      NoneTrailFrom(visit, hrefs, j + 1);
      ConsSlice(hrefs, j, |hrefs|);
      assert hrefs[j..|hrefs|] == hrefs[j..];
    } else {
      assert hrefs[j..] == [];
    }
  }

  /** A rejected candidate j passes the result on to candidate j + 1. */
  lemma SkipResult(visit: Visitor, hrefs: seq<string>, j: nat)
    requires j < |hrefs| && visit(hrefs[j]).Ok? && !visit(hrefs[j]).value.matched
    ensures FirstMatch(visit, hrefs[j..]) == FirstMatch(visit, hrefs[j + 1..])
  {
    var u := hrefs[j..];
    assert u[0] == hrefs[j];
    assert u[1..] == hrefs[j + 1..];
  }

  /** A rejected candidate j is visited, then the walk goes on at j + 1. */
  lemma SkipTrail(visit: Visitor, hrefs: seq<string>, j: nat)
    requires j < |hrefs| && visit(hrefs[j]).Ok? && !visit(hrefs[j]).value.matched
    ensures CandidateVisits(visit, hrefs[j..]) == [hrefs[j]] + CandidateVisits(visit, hrefs[j + 1..])
  {
    var u := hrefs[j..];
    assert u[0] == hrefs[j];
    assert u[1..] == hrefs[j + 1..];
  }

  lemma ConsSlice(hrefs: seq<string>, j: nat, e: nat)
    requires j < e <= |hrefs|
    ensures [hrefs[j]] + hrefs[j + 1..e] == hrefs[j..e]
  {
  }

  /** Candidates are visited in order and the first match ends the visits:
      when nothing matches every candidate is visited exactly once, and when
      candidate k matches, the candidates after it are never visited. */
  lemma CandidateVisitsOrder(visit: Visitor, hrefs: seq<string>)
    ensures FirstMatch(visit, hrefs) == Ok(None) ==> CandidateVisits(visit, hrefs) == hrefs
    ensures FirstMatch(visit, hrefs).Ok? && FirstMatch(visit, hrefs).value.Some? ==>
      exists k :: 0 <= k < |hrefs| && Rejected(visit, hrefs, k)
        && CandidateVisits(visit, hrefs) == hrefs[..k + 1]
        && visit(hrefs[k]) == Ok(FirstMatch(visit, hrefs).value.value)
  {
    var k := StopIndex(visit, hrefs);
    if k == |hrefs| {
      NoneMatches(visit, hrefs);
    } else {
      StopAt(visit, hrefs, k);
    }
  }

  /** The anchors listed on a SKU's search page. */
  function SearchAnchors(web: Web, sku: string): Try<seq<Attribute>> {
    match web(SearchUrl(sku))
    case Raised => Raised
    case Ok(page) => page.anchors
  }

  /** The outcome for one SKU once its search page's anchors are known: a
      found record matched, and a missing entry names the SKU. */
  function Outcome(web: Web, read: Reader, sku: string, anchors: seq<Attribute>): (r: Try<Entry>)
    ensures r.Ok? && r.value.Found? ==> r.value.product.matched
    ensures r.Ok? && r.value.Missing? ==> r.value.sku == sku && (r.value.message == NO_RESULTS <==> anchors == [])
  {
    assert NO_RESULTS[1] != NO_MATCH[1];
    if anchors == [] then Ok(Missing(sku, NO_RESULTS))
    else
      match CandidateLinks(anchors)
      case Raised => Raised
      case Ok(hrefs) =>
        match FirstMatch(Visits(web, read, sku), hrefs)
        case Raised => Raised
        case Ok(Some(d)) => Ok(Found(d))
        case Ok(None) => Ok(Missing(sku, NO_MATCH))
  }

  /** The candidate pages navigated to for those anchors. */
  function OutcomeVisits(web: Web, read: Reader, sku: string, anchors: seq<Attribute>): seq<string> {
    if anchors == [] then []
    else
      match CandidateLinks(anchors)
      case Raised => []
      case Ok(hrefs) => CandidateVisits(Visits(web, read, sku), hrefs)
  }

  /** The outcome for one SKU; `Raised` aborts the whole batch.  A found
      record matched, and a missing entry names the SKU. */
  function Lookup(web: Web, read: Reader, sku: string): (r: Try<Entry>)
    ensures r.Ok? && r.value.Found? ==> r.value.product.matched
    ensures r.Ok? && r.value.Missing? ==> r.value.sku == sku
  {
    match SearchAnchors(web, sku)
    case Raised => Raised
    case Ok(anchors) => Outcome(web, read, sku, anchors)
  }

  /** The URLs navigated to while looking one SKU up: its search page, then
      its candidates. */
  function LookupVisits(web: Web, read: Reader, sku: string): (r: seq<string>)
    ensures r != [] && r[0] == SearchUrl(sku)
  {
    [SearchUrl(sku)] +
      match SearchAnchors(web, sku)
      case Raised => []
      case Ok(anchors) => OutcomeVisits(web, read, sku, anchors)
  }

  /** A missing entry carries the requested SKU; "Sin resultados" means the
      search page listed no anchors at all, and the other message that it
      did. */
  lemma LookupMissing(web: Web, read: Reader, sku: string)
    requires Lookup(web, read, sku).Ok? && Lookup(web, read, sku).value.Missing?
    ensures Lookup(web, read, sku).value.sku == sku
    ensures SearchAnchors(web, sku).Ok?
    ensures Lookup(web, read, sku).value.message == NO_RESULTS <==> SearchAnchors(web, sku).value == []
    ensures Lookup(web, read, sku).value.message in {NO_RESULTS, NO_MATCH}
  {
    assert NO_RESULTS != NO_MATCH by {
      assert NO_RESULTS[1] != NO_MATCH[1];
    }
  }

  /** The "no coincide" message means every candidate link was visited once,
      in order, and none matched (which includes an anchor list whose hrefs
      were all filtered out). */
  lemma LookupNoMatch(web: Web, read: Reader, sku: string)
    requires Lookup(web, read, sku) == Ok(Missing(sku, NO_MATCH))
    ensures SearchAnchors(web, sku).Ok? && CandidateLinks(SearchAnchors(web, sku).value).Ok?
    ensures
      var hrefs := CandidateLinks(SearchAnchors(web, sku).value).value;
      Rejected(Visits(web, read, sku), hrefs, |hrefs|) && LookupVisits(web, read, sku) == [SearchUrl(sku)] + hrefs
  {
    assert NO_RESULTS[1] != NO_MATCH[1];
    var hrefs := CandidateLinks(SearchAnchors(web, sku).value).value;
    CandidateVisitsOrder(Visits(web, read, sku), hrefs);
  }

  /** The entry a walk over the candidates ends with, read off the stopping
      point: the record of the candidate there, `Raised` if visiting it
      raised, and "no coincide" when every candidate was rejected. */
  function StopEntry(visit: Visitor, hrefs: seq<string>, sku: string): Try<Entry> {
    var k := StopIndex(visit, hrefs);
    if k == |hrefs| then Ok(Missing(sku, NO_MATCH))
    else if visit(hrefs[k]).Raised? then Raised
    else Ok(Found(visit(hrefs[k]).value))
  }

  /** The navigations of such a walk: every candidate up to and including
      the stopping point. */
  function StopVisits(visit: Visitor, hrefs: seq<string>): seq<string> {
    var k := StopIndex(visit, hrefs);
    if k == |hrefs| then hrefs else hrefs[..k + 1]
  }

  /** The outcome of one SKU from the facts of its pages: a raising search
      page raises; a page without anchors gives "Sin resultados"; a raising
      href read raises; otherwise the first candidate that raises or matches
      decides, and the candidates are visited up to it. */
  lemma LookupOutcome(web: Web, read: Reader, sku: string)
    ensures SearchAnchors(web, sku).Raised? ==> Lookup(web, read, sku) == Raised
    ensures SearchAnchors(web, sku) == Ok([]) ==>
      Lookup(web, read, sku) == Ok(Missing(sku, NO_RESULTS)) && LookupVisits(web, read, sku) == [SearchUrl(sku)]
    ensures SearchAnchors(web, sku).Ok? && SearchAnchors(web, sku).value != [] ==>
      var links := CandidateLinks(SearchAnchors(web, sku).value);
      && (links.Raised? ==> Lookup(web, read, sku) == Raised)
      && (links.Ok? ==>
        && Lookup(web, read, sku) == StopEntry(Visits(web, read, sku), links.value, sku)
        && LookupVisits(web, read, sku) == [SearchUrl(sku)] + StopVisits(Visits(web, read, sku), links.value))
  {
    LookupSteps(web, read, sku);
    if SearchAnchors(web, sku).Ok? && SearchAnchors(web, sku).value != [] {
      var links := CandidateLinks(SearchAnchors(web, sku).value);
      if links.Ok? {
        WalkOutcome(Visits(web, read, sku), links.value, sku);
      }
    }
  }

  /** The walk's result and navigations, read off its stopping point. */
  lemma WalkOutcome(visit: Visitor, hrefs: seq<string>, sku: string)
    ensures StopEntry(visit, hrefs, sku) ==
      match FirstMatch(visit, hrefs)
      case Raised => Raised
      case Ok(Some(d)) => Ok(Found(d))
      case Ok(None) => Ok(Missing(sku, NO_MATCH))
    ensures StopVisits(visit, hrefs) == CandidateVisits(visit, hrefs)
  {
    var k := StopIndex(visit, hrefs);
    if k == |hrefs| {
      NoneMatches(visit, hrefs);
    } else {
      StopAt(visit, hrefs, k);
    }
  }

  /** A search page whose anchors are all filtered out gives the "no
      coincide" message, not "Sin resultados", and no product page is
      visited. */
  lemma FilteredAnchorsNoMatch(web: Web, read: Reader, sku: string)
    requires SearchAnchors(web, sku).Ok? && SearchAnchors(web, sku).value != []
    requires CandidateLinks(SearchAnchors(web, sku).value) == Ok([])
    ensures Lookup(web, read, sku) == Ok(Missing(sku, NO_MATCH))
    ensures LookupVisits(web, read, sku) == [SearchUrl(sku)]
  {
    LookupOutcome(web, read, sku);
  }

  /** The lookups of a batch, as a function of the SKU. */
  type SkuLookup = string -> Try<Entry>

  function Lookups(web: Web, read: Reader): SkuLookup {
    sku => Lookup(web, read, sku)
  }

  function LookupTrails(web: Web, read: Reader): string -> seq<string> {
    sku => LookupVisits(web, read, sku)
  }

  /** The result list of a batch, built by appending one entry per SKU. */
  function SearchAll(lookup: SkuLookup, skus: seq<string>): (r: Try<seq<Entry>>)
    ensures r.Ok? ==> |r.value| == |skus|
  {
    if skus == [] then Ok([])
    else
      match SearchAll(lookup, skus[..|skus| - 1])
      case Raised => Raised
      case Ok(entries) =>
        match lookup(skus[|skus| - 1])
        case Raised => Raised
        case Ok(e) => Ok(entries + [e])
  }

  /** The navigations of every SKU, one after the other. */
  function Trails(trail: string -> seq<string>, skus: seq<string>): seq<string> {
    if skus == [] then [] else Trails(trail, skus[..|skus| - 1]) + trail(skus[|skus| - 1])
  }

  /** Every URL navigated to during a batch, in order; a batch that
      completes navigates through every SKU's trail in turn. */
  function SearchVisits(lookup: SkuLookup, trail: string -> seq<string>, skus: seq<string>): (r: seq<string>)
    ensures SearchAll(lookup, skus).Ok? ==> r == Trails(trail, skus)
  {
    if skus == [] then []
    else
      var init := skus[..|skus| - 1];
      if SearchAll(lookup, init).Raised? then SearchVisits(lookup, trail, init)
      else SearchVisits(lookup, trail, init) + trail(skus[|skus| - 1])
  }

  /** A batch succeeds exactly when every lookup does, and then it holds one
      entry per SKU, in input order, each the SKU's own outcome: the entry of
      one SKU does not depend on the others. */
  lemma {:induction false} SearchAllEntries(lookup: SkuLookup, skus: seq<string>)
    ensures SearchAll(lookup, skus).Ok? <==> forall i :: 0 <= i < |skus| ==> lookup(skus[i]).Ok?
    ensures SearchAll(lookup, skus).Ok? ==>
      |SearchAll(lookup, skus).value| == |skus|
      && forall i :: 0 <= i < |skus| ==> SearchAll(lookup, skus).value[i] == lookup(skus[i]).value
  {
    if skus != [] {
      var init := skus[..|skus| - 1];
      SearchAllEntries(lookup, init);
      assert forall i :: 0 <= i < |init| ==> init[i] == skus[i];
    }
  }

  /** Once a lookup raises, the batch is aborted: nothing after it changes
      the result or is navigated to. */
  lemma {:induction false} AbortIsFinal(lookup: SkuLookup, trail: string -> seq<string>, skus: seq<string>, k: nat)
    requires k <= |skus| && SearchAll(lookup, skus[..k]).Raised?
    ensures SearchAll(lookup, skus).Raised?
    ensures SearchVisits(lookup, trail, skus) == SearchVisits(lookup, trail, skus[..k])
    decreases |skus| - k
  {
    if k < |skus| {
      assert skus[..k + 1][..k] == skus[..k];
      AbortIsFinal(lookup, trail, skus, k + 1);
    } else {
      assert skus[..k] == skus;
    }
  }

  /** The browser session: the `web` it drives, counts of the pages opened
      and closed, the log of navigations, and whether it was shut down. */
  class Browser {
    const web: Web
    ghost var pagesOpened: nat
    ghost var pagesClosed: nat
    ghost var navigations: seq<string>
    var shut: bool

    /** `launch()`. */
    constructor Launch(web: Web)
      ensures this.web == web && pagesOpened == 0 && pagesClosed == 0 && navigations == [] && !shut
    {
      this.web := web;
      pagesOpened, pagesClosed, navigations, shut := 0, 0, [], false;
    }

    /** `browser.newPage()`. */
    method NewPage()
      requires !shut
      modifies this
      ensures pagesOpened == old(pagesOpened) + 1
      ensures pagesClosed == old(pagesClosed) && navigations == old(navigations) && !shut
    {
      pagesOpened := pagesOpened + 1;
    }

    /** `goto(url)` followed by `waitForSelector("body")` on an open page. */
    method Goto(url: string) returns (r: Try<Page>)
      requires !shut && pagesClosed < pagesOpened
      modifies this
      ensures r == web(url) && navigations == old(navigations) + [url]
      ensures pagesOpened == old(pagesOpened) && pagesClosed == old(pagesClosed) && !shut
    {
      r := web(url);
      navigations := navigations + [url];
    }

    /** `page.close()`. */
    method ClosePage()
      requires pagesClosed < pagesOpened
      modifies this
      ensures pagesClosed == old(pagesClosed) + 1
      ensures pagesOpened == old(pagesOpened) && navigations == old(navigations) && shut == old(shut)
    {
      pagesClosed := pagesClosed + 1;
    }

    /** `browser.close()`. */
    method Close()
      modifies this
      ensures shut
      ensures pagesOpened == old(pagesOpened) && pagesClosed == old(pagesClosed) && navigations == old(navigations)
    {
      shut := true;
    }
  }

  /** One candidate: open a page, navigate to it and read its record; the
      page is closed whatever happens, as the `finally` block does. */
  method VisitOne(browser: Browser, read: Reader, url: string, sku: string) returns (d: Try<Product>)
    requires !browser.shut && browser.pagesClosed <= browser.pagesOpened
    modifies browser
    ensures d == Visits(browser.web, read, sku)(url)
    ensures browser.navigations == old(browser.navigations) + [url]
    ensures browser.pagesOpened - browser.pagesClosed == old(browser.pagesOpened - browser.pagesClosed)
    ensures !browser.shut
  {
    browser.NewPage();
    var page := browser.Goto(url);
    if page.Raised? {
      d := Raised;
    } else {
      d := read(page.value, url, sku);
    }
    browser.ClosePage();
  }

  /** The candidate loop: visits the candidates in order and stops at the
      first whose record matches, or at the first visit that raises. */
  method VisitCandidates(browser: Browser, read: Reader, hrefs: seq<string>, sku: string) returns (r: Try<Option<Product>>)
    requires !browser.shut && browser.pagesClosed <= browser.pagesOpened
    modifies browser
    ensures r == FirstMatch(Visits(browser.web, read, sku), hrefs)
    ensures browser.navigations == old(browser.navigations) + CandidateVisits(Visits(browser.web, read, sku), hrefs)
    ensures browser.pagesOpened - browser.pagesClosed == old(browser.pagesOpened - browser.pagesClosed)
    ensures !browser.shut
  {
    ghost var visit := Visits(browser.web, read, sku);
    var encontrado := false;
    r := Ok(None);
    var k := 0;
    while k < |hrefs|
      invariant 0 <= k <= |hrefs| && !browser.shut && visit == Visits(browser.web, read, sku)
      invariant browser.pagesOpened - browser.pagesClosed == old(browser.pagesOpened - browser.pagesClosed)
      invariant Rejected(visit, hrefs, k) && r == Ok(None) && !encontrado
      invariant browser.navigations == old(browser.navigations) + hrefs[..k]
    {
      var url := hrefs[k];
      assert hrefs[..k + 1] == hrefs[..k] + [url];
      var detalles := VisitOne(browser, read, url, sku);
      if detalles.Raised? {
        StopAt(visit, hrefs, k);
        return Raised;
      }
      if detalles.value.matched {
        StopAt(visit, hrefs, k);
        r := Ok(Some(detalles.value));
        encontrado := true;
        break;
      }
      k := k + 1;
    }
    if !encontrado {
      assert hrefs[..k] == hrefs;
      NoneMatches(visit, hrefs);
    }
  }

  /** The search step: navigate to the SKU's search URL, wait for the body
      and list its anchors. */
  method SearchPage(browser: Browser, sku: string) returns (anchors: Try<seq<Attribute>>)
    requires !browser.shut && browser.pagesClosed < browser.pagesOpened
    modifies browser
    ensures anchors == SearchAnchors(browser.web, sku)
    ensures browser.navigations == old(browser.navigations) + [SearchUrl(sku)]
    ensures browser.pagesOpened == old(browser.pagesOpened) && browser.pagesClosed == old(browser.pagesClosed)
    ensures !browser.shut
  {
    var searchPage := browser.Goto(SearchUrl(sku));
    if searchPage.Raised? {
      return Raised;
    }
    anchors := searchPage.value.anchors;
  }

  /** The candidate step: no anchors at all gives "Sin resultados";
      otherwise the product links are collected and visited. */
  method Candidates(browser: Browser, read: Reader, sku: string, enlaces: seq<Attribute>) returns (r: Try<Entry>)
    requires !browser.shut && browser.pagesClosed <= browser.pagesOpened
    modifies browser
    ensures r == Outcome(browser.web, read, sku, enlaces)
    ensures browser.navigations == old(browser.navigations) + OutcomeVisits(browser.web, read, sku, enlaces)
    ensures browser.pagesOpened - browser.pagesClosed == old(browser.pagesOpened - browser.pagesClosed)
    ensures !browser.shut
  {
    if enlaces == [] {
      return Ok(Missing(sku, NO_RESULTS));
    }
    var hrefs := CollectHrefs(enlaces);
    if hrefs.Raised? {
      return Raised;
    }
    var found := VisitCandidates(browser, read, hrefs.value, sku);
    if found.Raised? {
      return Raised;
    }
    if found.value.Some? {
      r := Ok(Found(found.value.value));
    } else {
      r := Ok(Missing(sku, NO_MATCH));
    }
  }

  /** One pass of the batch loop: search the SKU, then visit its
      candidates. */
  method LookupOne(browser: Browser, read: Reader, sku: string) returns (r: Try<Entry>)
    requires !browser.shut && browser.pagesClosed < browser.pagesOpened
    modifies browser
    ensures r == Lookup(browser.web, read, sku)
    ensures browser.navigations == old(browser.navigations) + LookupVisits(browser.web, read, sku)
    ensures browser.pagesOpened - browser.pagesClosed == old(browser.pagesOpened - browser.pagesClosed)
    ensures !browser.shut
  {
    ghost var before := browser.navigations;
    var enlaces := SearchPage(browser, sku);
    if enlaces.Raised? {
      LookupSteps(browser.web, read, sku);
      return Raised;
    }
    r := Candidates(browser, read, sku, enlaces.value);
    LookupJoin(browser.web, read, sku, enlaces.value, before, browser.navigations);
  }

  /** The search step's anchors and the candidate step's visits make up the
      lookup. */
  lemma LookupJoin(web: Web, read: Reader, sku: string, anchors: seq<Attribute>, before: seq<string>, after: seq<string>)
    requires SearchAnchors(web, sku) == Ok(anchors)
    requires after == before + [SearchUrl(sku)] + OutcomeVisits(web, read, sku, anchors)
    ensures Lookup(web, read, sku) == Outcome(web, read, sku, anchors)
    ensures after == before + LookupVisits(web, read, sku)
  {
    LookupSteps(web, read, sku);
    AppendAssoc(before, [SearchUrl(sku)], OutcomeVisits(web, read, sku, anchors));
  }

  lemma AppendAssoc(a: seq<string>, b: seq<string>, c: seq<string>)
    ensures a + b + c == a + (b + c)
  {
  }

  /** A lookup is its search step followed by its candidate step. */
  lemma LookupSteps(web: Web, read: Reader, sku: string)
    ensures SearchAnchors(web, sku).Raised? ==>
      Lookup(web, read, sku) == Raised && LookupVisits(web, read, sku) == [SearchUrl(sku)]
    ensures SearchAnchors(web, sku).Ok? ==>
      Lookup(web, read, sku) == Outcome(web, read, sku, SearchAnchors(web, sku).value)
      && LookupVisits(web, read, sku) == [SearchUrl(sku)] + OutcomeVisits(web, read, sku, SearchAnchors(web, sku).value)
  {
    if SearchAnchors(web, sku).Raised? {
      assert LookupVisits(web, read, sku) == [SearchUrl(sku)] + [];
    }
  }

  /** The batch loop for any page reader: one entry per SKU in input order,
      or `Raised` when an uncaught exception aborts the batch.  Every product
      page opened is closed again, so only the search page stays open; the
      browser is closed only when the batch completes. */
  method SearchBySkusWith(skus: seq<string>, web: Web, read: Reader) returns (result: Try<seq<Entry>>, browser: Browser)
    ensures result == SearchAll(Lookups(web, read), skus)
    ensures browser.web == web && browser.navigations == SearchVisits(Lookups(web, read), LookupTrails(web, read), skus)
    ensures browser.pagesOpened == browser.pagesClosed + 1
    ensures browser.shut <==> result.Ok?
  {
    browser := new Browser.Launch(web);
    browser.NewPage();
    var resultados: seq<Entry> := [];
    for i := 0 to |skus|
      invariant browser.web == web && !browser.shut
      invariant browser.pagesOpened == browser.pagesClosed + 1
      invariant SearchAll(Lookups(web, read), skus[..i]) == Ok(resultados)
      invariant browser.navigations == SearchVisits(Lookups(web, read), LookupTrails(web, read), skus[..i])
    {
      var sku := skus[i];
      assert skus[..i + 1][..i] == skus[..i];
      assert skus[..i + 1][i] == sku;
      var entry := LookupOne(browser, read, sku);
      assert Lookups(web, read)(sku) == entry && LookupTrails(web, read)(sku) == LookupVisits(web, read, sku);
      if entry.Raised? {
        AbortIsFinal(Lookups(web, read), LookupTrails(web, read), skus, i + 1);
        return Raised, browser;
      }
      resultados := resultados + [entry.value];
    }
    assert skus[..|skus|] == skus;
    browser.Close();
    result := Ok(resultados);
  }

  /** The whole batch (`buscar_por_skus`), reading each candidate with
      `ExtractProductDetails`. */
  method SearchBySkus(skus: seq<string>, web: Web) returns (result: Try<seq<Entry>>, browser: Browser)
    ensures result == SearchAll(Lookups(web, ExtractProductDetails), skus)
    ensures browser.web == web
    ensures browser.navigations == SearchVisits(Lookups(web, ExtractProductDetails), LookupTrails(web, ExtractProductDetails), skus)
    ensures browser.pagesOpened == browser.pagesClosed + 1
    ensures browser.shut <==> result.Ok?
  {
    result, browser := SearchBySkusWith(skus, web, ExtractProductDetails);
  }

  /** With the batch's own reader a found entry is a real product record:
      it was read from one of the search page's product links, and the SKU
      shown on that page has the requested SKU's key. */
  lemma FoundRecord(web: Web, sku: string)
    requires Lookup(web, ExtractProductDetails, sku).Ok? && Lookup(web, ExtractProductDetails, sku).value.Found?
    ensures SearchAnchors(web, sku).Ok? && CandidateLinks(SearchAnchors(web, sku).value).Ok?
    ensures
      var d := Lookup(web, ExtractProductDetails, sku).value.product;
      d.found && d.url in CandidateLinks(SearchAnchors(web, sku).value).value
      && web(d.url).Ok? && NormalizeSku(Some(ExtractSku(web(d.url).value))) == NormalizeSku(Some(sku))
  {
    FoundParts(web, ExtractProductDetails, sku);
    var hrefs := CandidateLinks(SearchAnchors(web, sku).value).value;
    var visit := Visits(web, ExtractProductDetails, sku);
    var d := Lookup(web, ExtractProductDetails, sku).value.product;
    var k := StopIndex(visit, hrefs);
    StopAt(visit, hrefs, k);
    VisitedRecord(web, hrefs[k], sku, d);
  }

  /** A found entry is the first match among the candidate links of a
      search page that listed anchors. */
  lemma FoundParts(web: Web, read: Reader, sku: string)
    requires Lookup(web, read, sku).Ok? && Lookup(web, read, sku).value.Found?
    ensures SearchAnchors(web, sku).Ok? && CandidateLinks(SearchAnchors(web, sku).value).Ok?
    ensures FirstMatch(Visits(web, read, sku), CandidateLinks(SearchAnchors(web, sku).value).value)
      == Ok(Some(Lookup(web, read, sku).value.product))
  {
    LookupSteps(web, read, sku);
    var anchors := SearchAnchors(web, sku).value;
    assert Lookup(web, read, sku) == Outcome(web, read, sku, anchors);
    assert anchors != [];
  }

  /** A matching record read by `ExtractProductDetails` comes from the page
      at its own URL, and that page's SKU has the requested key. */
  lemma VisitedRecord(web: Web, url: string, sku: string, d: Product)
    requires Visit(web, ExtractProductDetails, url, sku) == Ok(d) && d.matched
    ensures d.found && d.url == url && web(url).Ok?
    ensures NormalizeSku(Some(ExtractSku(web(url).value))) == NormalizeSku(Some(sku))
  {
  }
}
