/**
 * Scrape::scrape and Scrape::run: the instance state `products` / `pages`, the
 * pagination pass over the links of a listing page, the merge of sub-page results
 * and the removal of nulls. Fetching a URL is a parameter `fetch` (None when the
 * request fails and the helper dies); strtotime is a parameter `parse`.
 */
module Scraping {
  import opened Wrappers
  import opened Extraction

  /** One child of the pagination control: its text, and whether it is (or holds) `.active`. */
  datatype Link = Link(text: string, active: bool)

  /** A listing page: its product cards and its pagination links, in document order. */
  datatype Page = Page(cards: seq<Card>, links: seq<Link>)

  /** The state the pagination pass works on; `ok` is false once an error ended the run. */
  datatype Progress = Progress(products: seq<Option<Product>>, pages: seq<string>, ok: bool)

  function Href(link: Link): string {
    BaseUrl + "?page=" + link.text
  }

  /** A sub-page scraped on a fresh instance with `deep` set: its cards, none of them
      dropped, without nulls; None when the fetch dies or a card raises. */
  function SubPageProducts(href: string, fetch: string -> Option<Page>, parse: string -> Option<int>): (r: Option<seq<Option<Product>>>)
    ensures r.Some? ==> NoNulls(r.value)
  {
    match fetch(href)
    case None => None
    case Some(doc) =>
      match PageSpec(doc.cards, {}, parse)
      case None => None
      case Some(found) => Some(Compact(found))
  }

  /** What fetching and deep-scraping each href gives. */
  type SubPages = string -> Option<seq<Option<Product>>>

  function SubPagesOf(fetch: string -> Option<Page>, parse: string -> Option<int>): SubPages {
    href => SubPageProducts(href, fetch, parse)
  }

  /** The pagination closure applied to one link. */
  function LinkStep(st: Progress, link: Link, subPages: SubPages): Progress
    requires st.ok
  {
    var href := Href(link);
    if link.active then st.(pages := st.pages + [href])
    else if href in st.pages then st
    else match subPages(href)
      case None => st.(ok := false)
      case Some(sub) => st.(products := st.products + sub)
  }

  /** `each` over the pagination links; an error ends the pass. */
  function Paginate(st: Progress, links: seq<Link>, subPages: SubPages): Progress
    decreases |links|
  {
    if !st.ok || links == [] then st
    else Paginate(LinkStep(st, links[0], subPages), links[1..], subPages)
  }

  /**
   * Reference definition of scrape($document, $deep) on an instance holding
   * `products` and `pages`: the new products and pages, and whether the call returned.
   */
  function ScrapeSpec(products: seq<Option<Product>>, pages: seq<string>, doc: Page, deep: bool,
                      fetch: string -> Option<Page>, parse: string -> Option<int>): (r: Progress)
    ensures r.ok ==> NoNulls(r.products)
  {
    match PageSpec(doc.cards, TitleSet(products), parse)
    case None => Progress(products, pages, false)
    case Some(found) =>
      if deep then Progress(Compact(found), pages, true)
      else
        var st := Paginate(Progress(found, pages, true), doc.links, SubPagesOf(fetch, parse));
        if st.ok then st.(products := Compact(st.products)) else st
  }

  // ---------------------------------------------------------------------------
  // Independent descriptions of the pagination pass
  // ---------------------------------------------------------------------------

  /** The hrefs of the active links, in link order. */
  function ActiveHrefs(links: seq<Link>): seq<string> {
    if links == [] then []
    else (if links[0].active then [Href(links[0])] else []) + ActiveHrefs(links[1..])
  }

  /** The hrefs fetched, in link order: a non-active link's href unless the active links
      before it (or the initial `pages`) already recorded it. */
  function FetchedHrefs(pages: seq<string>, links: seq<Link>): seq<string>
    decreases |links|
  {
    if links == [] then []
    else
      var href := Href(links[0]);
      if links[0].active then FetchedHrefs(pages + [href], links[1..])
      else if href in pages then FetchedHrefs(pages, links[1..])
      else [href] + FetchedHrefs(pages, links[1..])
  }

  /** The products of the given sub-pages, one after the other. */
  function Merged(hrefs: seq<string>, subPages: SubPages): seq<Option<Product>> {
    if hrefs == [] then []
    else subPages(hrefs[0]).GetOr([]) + Merged(hrefs[1..], subPages)
  }

  /** `pages` grows only through active links, without a duplicate check. */
  lemma {:induction false} PagesGrowOnlyByActiveLinks(st: Progress, links: seq<Link>, subPages: SubPages)
    requires st.ok
    ensures Paginate(st, links, subPages).ok ==>
              Paginate(st, links, subPages).pages == st.pages + ActiveHrefs(links)
    decreases |links|
  {
    if links != [] {
      var next := LinkStep(st, links[0], subPages);
      if next.ok {
        PagesGrowOnlyByActiveLinks(next, links[1..], subPages);
      }
    } else {
      assert st.pages + [] == st.pages;
    }
  }

  /**
   * The pass succeeds exactly when every fetched sub-page scrapes, and then the
   * sub-pages' products follow the existing ones, in link order.
   */
  lemma {:induction false} SubPagesAppendedInLinkOrder(st: Progress, links: seq<Link>, subPages: SubPages)
    requires st.ok
    ensures var r := Paginate(st, links, subPages);
      && (r.ok <==> forall h :: h in FetchedHrefs(st.pages, links) ==> subPages(h).Some?)
      && (r.ok ==> r.products == st.products + Merged(FetchedHrefs(st.pages, links), subPages))
    decreases |links|
  {
    if links == [] {
      assert st.products + [] == st.products;
    } else {
      var href := Href(links[0]);
      var next := LinkStep(st, links[0], subPages);
      var rest := FetchedHrefs(next.pages, links[1..]);
      if links[0].active || href in st.pages {
        SubPagesAppendedInLinkOrder(next, links[1..], subPages);
      } else if subPages(href).None? {
        assert href in FetchedHrefs(st.pages, links);
      } else {
        SubPagesAppendedInLinkOrder(next, links[1..], subPages);
        assert FetchedHrefs(st.pages, links) == [href] + rest;
        assert ([href] + rest)[1..] == rest;
        assert st.products + subPages(href).value + Merged(rest, subPages)
            == st.products + (subPages(href).value + Merged(rest, subPages));
      }
    }
  }

  /** A non-active href is not recorded, so the same link twice means two fetches. */
  lemma RepeatedLinkFetchedTwice(st: Progress, link: Link, subPages: SubPages)
    requires st.ok && !link.active && Href(link) !in st.pages
    requires subPages(Href(link)).Some?
    ensures var sub := subPages(Href(link)).value;
      Paginate(st, [link, link], subPages) == st.(products := st.products + sub + sub)
  {
    var sub := subPages(Href(link)).value;
    var once := LinkStep(st, link, subPages);
    assert once == st.(products := st.products + sub);
    assert LinkStep(once, link, subPages) == st.(products := st.products + sub + sub);
    assert [link, link][1..] == [link];
    assert [link][1..] == [];
    assert Paginate(once, [link], subPages) == Paginate(LinkStep(once, link, subPages), [], subPages);
  }

  lemma {:induction false} MergedHasNoNulls(hrefs: seq<string>, subPages: SubPages)
    requires forall h :: subPages(h).Some? ==> NoNulls(subPages(h).value)
    ensures NoNulls(Merged(hrefs, subPages))
  {
    if hrefs != [] {
      MergedHasNoNulls(hrefs[1..], subPages);
      var first := subPages(hrefs[0]).GetOr([]);
      assert NoNulls(first);
      assert forall i :: 0 <= i < |first| ==> (first + Merged(hrefs[1..], subPages))[i] == first[i];
    }
  }

  /**
   * The outcome of scrape: a card that raises leaves the instance unchanged; with
   * `deep` the page's own survivors replace the products and nothing is fetched;
   * otherwise the survivors are followed by the fetched sub-pages' products, in link
   * order, and the active links' hrefs are appended to `pages`.
   */
  lemma ScrapeOutcome(products: seq<Option<Product>>, pages: seq<string>, doc: Page, deep: bool,
                      fetch: string -> Option<Page>, parse: string -> Option<int>)
    ensures var r := ScrapeSpec(products, pages, doc, deep, fetch, parse);
      match PageSpec(doc.cards, TitleSet(products), parse)
      case None => r == Progress(products, pages, false)
      case Some(found) =>
        && Titles(Compact(found)) == KeptTitles(doc.cards, TitleSet(products))
        && (deep ==> r == Progress(Compact(found), pages, true))
        && (!deep ==>
             && (r.ok <==> forall h :: h in FetchedHrefs(pages, doc.links) ==> SubPageProducts(h, fetch, parse).Some?)
             && (r.ok ==> && r.products == Compact(found) + Merged(FetchedHrefs(pages, doc.links), SubPagesOf(fetch, parse))
                          && r.pages == pages + ActiveHrefs(doc.links)))
  {
    match PageSpec(doc.cards, TitleSet(products), parse)
    case None =>
    case Some(found) =>
      SurvivorsInDocumentOrder(doc.cards, TitleSet(products), parse);
      if !deep {
        var st := Progress(found, pages, true);
        SubPagesAppendedInLinkOrder(st, doc.links, SubPagesOf(fetch, parse));
        PagesGrowOnlyByActiveLinks(st, doc.links, SubPagesOf(fetch, parse));
        var merged := Merged(FetchedHrefs(pages, doc.links), SubPagesOf(fetch, parse));
        MergedHasNoNulls(FetchedHrefs(pages, doc.links), SubPagesOf(fetch, parse));
        CompactAppend(found, merged);
        CompactOfProducts(merged);
      }
  }

  /** With `deep` set, scrape fetches nothing: any two fetchers give the same outcome,
      and `pages` is left as it was. */
  lemma DeepScrapeFetchesNothing(products: seq<Option<Product>>, pages: seq<string>, doc: Page,
                                 fetch: string -> Option<Page>, other: string -> Option<Page>, parse: string -> Option<int>)
    ensures ScrapeSpec(products, pages, doc, true, fetch, parse) == ScrapeSpec(products, pages, doc, true, other, parse)
    ensures ScrapeSpec(products, pages, doc, true, fetch, parse).pages == pages
  {
  }

  /** On a fresh instance (as run() uses it) the title check never fires: every card of
      the page survives, duplicates included, ahead of any sub-page products. */
  lemma FreshInstanceKeepsEveryCard(doc: Page, deep: bool, fetch: string -> Option<Page>, parse: string -> Option<int>)
    requires PageSpec(doc.cards, {}, parse).Some?
    ensures var r := ScrapeSpec([], [], doc, deep, fetch, parse);
      r.ok ==> |doc.cards| <= |r.products| && Titles(r.products[..|doc.cards|]) == CardTitles(doc.cards)
  {
    var found := PageSpec(doc.cards, {}, parse).value;
    assert TitleSet([]) == {};
    NothingHeldNoNulls(doc.cards, parse);
    CompactOfProducts(found);
    SurvivorsInDocumentOrder(doc.cards, {}, parse);
    NothingHeldKeepsEveryTitle(doc.cards);
    ScrapeOutcome([], [], doc, deep, fetch, parse);
    var r := ScrapeSpec([], [], doc, deep, fetch, parse);
    if r.ok {
      assert r.products[..|doc.cards|] == found;
    }
  }

  // ---------------------------------------------------------------------------
  // The Scrape instance
  // ---------------------------------------------------------------------------

  class Scraper {
    /** The products: PHP's array of Product|null, free of nulls between calls. */
    var products: seq<Option<Product>>
    /** The hrefs of the active pagination links seen so far. */
    var pages: seq<string>

    ghost predicate Valid()
      reads this
    {
      NoNulls(products)
    }

    constructor ()
      ensures Valid() && products == [] && pages == []
    {
      products := [];
      pages := [];
    }

    /**
     * scrape($document, $deep): the cards are extracted against the titles held
     * before the call, the result replaces `products`, the pagination links are
     * followed unless `deep`, and the nulls are removed. `ok` is false when the
     * call ends in an error (a TypeError from a card, or a failed fetch).
     */
    method Scrape(doc: Page, deep: bool, fetch: string -> Option<Page>, parse: string -> Option<int>) returns (ok: bool)
      requires Valid()
      modifies this
      ensures var r := ScrapeSpec(old(products), old(pages), doc, deep, fetch, parse);
        ok == r.ok && products == r.products && pages == r.pages
      ensures ok ==> Valid()
      decreases if deep then 0 else 1
    {
      var found := ExtractPage(doc.cards, TitleSet(products), parse);
      if found.None? {
        return false;
      }
      products := found.value;

      if !deep {
        ghost var start := Progress(found.value, pages, true);
        var j := 0;
        while j < |doc.links|
          invariant 0 <= j <= |doc.links|
          invariant Paginate(Progress(products, pages, true), doc.links[j..], SubPagesOf(fetch, parse))
                 == Paginate(start, doc.links, SubPagesOf(fetch, parse))
        {
          var link := doc.links[j];
          var href := Href(link);
          assert doc.links[j..][1..] == doc.links[j + 1..];
          if link.active {
            pages := pages + [href];
          } else if href !in pages {
            var page := fetch(href);
            if page.None? {
              assert SubPagesOf(fetch, parse)(href).None?;
              return false;
            }
            var sub := new Scraper();
            var subOk := sub.Scrape(page.value, true, fetch, parse);
            assert TitleSet([]) == {};
            if !subOk {
              return false;
            }
            products := products + sub.products;
          }
          j := j + 1;
        }
      }
      products := Compact(products);
      ok := true;
    }

    /** run(): fetch the first listing page and scrape it. Writing output.json is not
        part of this model. */
    method Run(fetch: string -> Option<Page>, parse: string -> Option<int>) returns (ok: bool)
      requires Valid()
      modifies this
      ensures fetch(BaseUrl).None? ==> !ok && products == old(products) && pages == old(pages)
      ensures ok ==> Valid()
      ensures fetch(BaseUrl).Some? ==>
        var r := ScrapeSpec(old(products), old(pages), fetch(BaseUrl).value, false, fetch, parse);
        ok == r.ok && products == r.products && pages == r.pages
    {
      var doc := fetch(BaseUrl);
      if doc.None? {
        return false;
      }
      ok := Scrape(doc.value, false, fetch, parse);
    }
  }
}
