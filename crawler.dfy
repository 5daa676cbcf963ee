/**
  main.py: titles linked to pages of gov.il collections. `extract_titles_and_links`
  pairs every href-bearing anchor that wraps a heading with its (absolutised)
  href; `process_pages` visits `&skip=0`, `&skip=10`, `&skip=20` and stops
  early at the first page without pairs. The parsed page is given as its
  href-bearing anchors in document order, each with the text of the first
  h1..h6 element inside it, if there is one.
 */
module Crawler {
  import opened Wrappers
  import opened Text
  import opened Links
  import opened Seqs

  /** An anchor with an href, and the text of the first heading inside it. */
  datatype TitleAnchor = TitleAnchor(href: string, heading: Option<string>)

  /** A `(title_text, link_href)` pair. */
  datatype TitleLink = TitleLink(title: string, link: string)

  const PageSize: nat := 10
  const MaxPages: nat := 3

  /** The pair an anchor gives: none without a heading. */
  function PairOf(a: TitleAnchor): seq<TitleLink>
  {
    match a.heading
    case None => []
    case Some(t) => [TitleLink(t, Absolutise(a.href))]
  }

  /** The pairs of a page: one per anchor with a heading, in anchor order. */
  function TitleLinks(anchors: seq<TitleAnchor>): seq<TitleLink>
  {
    if |anchors| == 0 then [] else PairOf(anchors[0]) + TitleLinks(anchors[1..])
  }

  /** The number of anchors with a heading, counted from the last one back. */
  function CountHeadings(anchors: seq<TitleAnchor>): nat
  {
    if |anchors| == 0 then 0
    else CountHeadings(anchors[..|anchors| - 1]) + (if anchors[|anchors| - 1].heading.Some? then 1 else 0)
  }

  /** The pairs of consecutive runs of anchors come out in anchor order. */
  lemma {:induction false} TitleLinksAppend(a: seq<TitleAnchor>, b: seq<TitleAnchor>)
    ensures TitleLinks(a + b) == TitleLinks(a) + TitleLinks(b)
  {
    if |a| == 0 {
      assert a + b == b;
    } else {
      assert (a + b)[0] == a[0];
      assert (a + b)[1..] == a[1..] + b;
      TitleLinksAppend(a[1..], b);
      AppendAssoc(PairOf(a[0]), TitleLinks(a[1..]), TitleLinks(b));
    }
  }

  /** One pair per anchor with a heading, so never more pairs than anchors. */
  lemma {:induction false} TitleLinksLength(anchors: seq<TitleAnchor>)
    ensures |TitleLinks(anchors)| == CountHeadings(anchors)
    ensures CountHeadings(anchors) <= |anchors|
  {
    if |anchors| > 0 {
      var init := anchors[..|anchors| - 1];
      var last := anchors[|anchors| - 1];
      TitleLinksLength(init);
      assert anchors == init + [last];
      TitleLinksAppend(init, [last]);
      assert TitleLinks([last]) == PairOf(last) + TitleLinks([]);
    }
  }

  /** Anchor `a` gives pair `p`: its heading text and its absolutised href. */
  predicate Gives(a: TitleAnchor, p: TitleLink)
  {
    a.heading.Some? && p == TitleLink(a.heading.value, Absolutise(a.href))
  }

  /**
    A pair is on the page exactly when some anchor with a heading gives it;
    anchors without a heading give nothing.
   */
  lemma {:induction false} TitleLinksMember(anchors: seq<TitleAnchor>, p: TitleLink)
    ensures p in TitleLinks(anchors) <==> exists j :: 0 <= j < |anchors| && Gives(anchors[j], p)
  {
    if |anchors| > 0 {
      var tail := anchors[1..];
      TitleLinksMember(tail, p);
      assert TitleLinks(anchors) == PairOf(anchors[0]) + TitleLinks(tail);
      assert p in PairOf(anchors[0]) <==> Gives(anchors[0], p);
      if p in TitleLinks(tail) {
        var j :| 0 <= j < |tail| && Gives(tail[j], p);
        assert anchors[j + 1] == tail[j];
      }
      if exists j :: 0 <= j < |anchors| && Gives(anchors[j], p) {
        var j :| 0 <= j < |anchors| && Gives(anchors[j], p);
        if j > 0 {
          assert tail[j - 1] == anchors[j];
        }
      }
    }
  }

  /** `extract_titles_and_links(soup)` over the page's anchors. */
  method ExtractTitlesAndLinks(anchors: seq<TitleAnchor>) returns (titleLinkPairs: seq<TitleLink>)
    ensures titleLinkPairs == TitleLinks(anchors)
  {
    titleLinkPairs := [];
    for i := 0 to |anchors|
      invariant titleLinkPairs == TitleLinks(anchors[..i])
    {
      var link := anchors[i];
      if link.heading.Some? {
        var titleText := link.heading.value;
        var linkHref := link.href;
        if StartsWith(linkHref, "/") {
          linkHref := GovSite + linkHref;
        }
        titleLinkPairs := titleLinkPairs + [TitleLink(titleText, linkHref)];
      }
      assert anchors[..i + 1] == anchors[..i] + [link];
      TitleLinksAppend(anchors[..i], [link]);
    }
    assert anchors[..|anchors|] == anchors;
  }

  /** The k-th page visited: `f"{base_url}&skip={10 * k}"`. */
  function CrawlUrl(baseUrl: string, k: nat): string
  {
    SkipUrl(baseUrl, "&", PageSize * k)
  }

  /** `urls` lists the URLs of the first pages, in order. */
  ghost predicate UrlTrace(baseUrl: string, urls: seq<string>)
  {
    forall k :: 0 <= k < |urls| ==> urls[k] == CrawlUrl(baseUrl, k)
  }

  /** `found[k]` holds the nonempty pairs of the page at `urls[k]`. */
  ghost predicate PairsTrace(fetch: string -> seq<TitleAnchor>, urls: seq<string>, found: seq<seq<TitleLink>>)
  {
    && |found| <= |urls|
    && forall k :: 0 <= k < |found| ==> found[k] == TitleLinks(fetch(urls[k])) && found[k] != []
  }

  /** The URL trace grows by the next page's URL, and the pairs trace stays as it was. */
  lemma UrlTraceSnoc(baseUrl: string, fetch: string -> seq<TitleAnchor>, urls: seq<string>, found: seq<seq<TitleLink>>, url: string)
    requires UrlTrace(baseUrl, urls) && url == CrawlUrl(baseUrl, |urls|)
    requires PairsTrace(fetch, urls, found)
    ensures UrlTrace(baseUrl, urls + [url])
    ensures PairsTrace(fetch, urls + [url], found)
  {
    forall k | 0 <= k < |urls|
      ensures (urls + [url])[k] == urls[k]
    {
    }
  }

  /** The pairs trace grows by the pairs of the next visited page. */
  lemma PairsTraceSnoc(fetch: string -> seq<TitleAnchor>, urls: seq<string>, found: seq<seq<TitleLink>>, pairs: seq<TitleLink>)
    requires PairsTrace(fetch, urls, found) && |found| < |urls|
    requires pairs == TitleLinks(fetch(urls[|found|])) && pairs != []
    ensures PairsTrace(fetch, urls, found + [pairs])
  {
    forall k | 0 <= k < |found|
      ensures (found + [pairs])[k] == found[k]
    {
    }
  }

  /**
    `process_pages(base_url)`: `fetch` stands for loading and parsing a URL.
    Returns the URLs it reports as processed and the pairs it reports for
    each page it counts. It counts at most three pages, visits them at
    `&skip=0`, `&skip=10`, `&skip=20`, and when it visits a page without
    pairs it stops there without counting it.
   */
  method ProcessPages(baseUrl: string, fetch: string -> seq<TitleAnchor>) returns (urls: seq<string>, found: seq<seq<TitleLink>>)
    ensures |found| <= MaxPages && |urls| <= MaxPages
    ensures |urls| == |found| || |urls| == |found| + 1
    ensures forall k :: 0 <= k < |urls| ==> urls[k] == CrawlUrl(baseUrl, k)
    ensures forall k :: 0 <= k < |found| ==> found[k] == TitleLinks(fetch(urls[k])) && found[k] != []
    ensures |urls| == |found| + 1 ==> TitleLinks(fetch(urls[|found|])) == []
    ensures |urls| == |found| ==> |found| == MaxPages
  {
    var skip := 0;
    var pageCount := 0;
    urls, found := [], [];
    while pageCount < MaxPages
      invariant skip == PageSize * pageCount
      invariant pageCount <= MaxPages
      invariant |urls| == pageCount && |found| == pageCount
      invariant UrlTrace(baseUrl, urls)
      invariant PairsTrace(fetch, urls, found)
    {
      var currentUrl := SkipUrl(baseUrl, "&", skip);
      assert currentUrl == CrawlUrl(baseUrl, |urls|);
      UrlTraceSnoc(baseUrl, fetch, urls, found, currentUrl);
      urls := urls + [currentUrl];
      var titleLinkPairs := ExtractTitlesAndLinks(fetch(currentUrl));
      if |titleLinkPairs| == 0 {
        break;
      }
      PairsTraceSnoc(fetch, urls, found, titleLinkPairs);
      found := found + [titleLinkPairs];
      skip := skip + PageSize;
      pageCount := pageCount + 1;
    }
  }
}
