/**
  type2.py: file links of a gov.il listing. `parse_titles_and_links` turns the
  rows of one page into (title, page link, file title, file link, source page)
  tuples; `scrape_all_pages` walks `?skip=0`, `?skip=20`, ... until a page
  yields no tuple. The parsed page is given as abstract rows: for each
  `div.row.row-gov`, the text of its h3 title (if it has one) and the
  href-bearing anchors inside it, in document order.
 */
module Type2 {
  import opened Wrappers
  import opened Text
  import opened Links
  import opened Seqs

  /** An anchor with an href, and the text of its file-title span if it has one. */
  datatype FileAnchor = FileAnchor(href: string, span: Option<string>)

  /** A listing row: its h3 title text, if any, and its anchors. */
  datatype Row = Row(title: Option<string>, anchors: seq<FileAnchor>)

  /** An entry of `file_links`: the absolute file link and its title. */
  datatype FileLink = FileLink(link: string, fileTitle: string)

  /** One CSV row: Title, Page Link, File Title, File Link, Source Page. */
  datatype Record = Record(title: string, pageLink: string, fileTitle: string, fileLink: string, sourcePage: string)

  const BlobFolder: string := "BlobFolder"
  const NoFileTitle: string := "N/A"
  const PageSize: nat := 20

  /** `href == "#"`, compared character by character. */
  predicate IsHash(href: string)
  {
    |href| == 1 && href[0] == '#'
  }

  /** The filter on the absolutised href. */
  predicate IsFileHref(href: string)
  {
    !IsHash(href) && Contains(href, BlobFolder)
  }

  /** The file title: the span text, or "N/A" when there is no span. */
  function FileTitle(a: FileAnchor): (t: string)
    ensures a.span.Some? ==> t == a.span.value
    ensures a.span.None? ==> t == NoFileTitle
  {
    a.span.GetOr(NoFileTitle)
  }

  predicate Kept(a: FileAnchor)
  {
    IsFileHref(Absolutise(a.href))
  }

  function LinkOf(a: FileAnchor): FileLink
  {
    FileLink(Absolutise(a.href), FileTitle(a))
  }

  /** What one anchor adds to `file_links`: its link when the filter keeps it. */
  function KeepOne(a: FileAnchor): seq<FileLink>
  {
    if Kept(a) then [LinkOf(a)] else []
  }

  /** The `file_links` of a row, in anchor order. */
  function KeptLinks(anchors: seq<FileAnchor>): seq<FileLink>
  {
    if |anchors| == 0 then [] else KeepOne(anchors[0]) + KeptLinks(anchors[1..])
  }

  /** The tuples of one titled row. */
  function RowRecords(title: string, links: seq<FileLink>, pageUrl: string): seq<Record>
  {
    if |links| == 0 then []
    else [Record(title, pageUrl, links[0].fileTitle, links[0].link, pageUrl)] + RowRecords(title, links[1..], pageUrl)
  }

  /** The tuples one row contributes: none without an h3 title. */
  function RowOutput(row: Row, pageUrl: string): seq<Record>
  {
    match row.title
    case None => []
    case Some(t) => RowRecords(t, KeptLinks(row.anchors), pageUrl)
  }

  /** The `parsed_data` of a page: the rows' tuples, row after row. */
  function Parsed(rows: seq<Row>, pageUrl: string): seq<Record>
  {
    if |rows| == 0 then [] else RowOutput(rows[0], pageUrl) + Parsed(rows[1..], pageUrl)
  }

  lemma {:induction false} KeptLinksAppend(a: seq<FileAnchor>, b: seq<FileAnchor>)
    ensures KeptLinks(a + b) == KeptLinks(a) + KeptLinks(b)
  {
    if |a| == 0 {
      assert a + b == b;
    } else {
      var c := a + b;
      assert c[0] == a[0];
      assert c[1..] == a[1..] + b;
      KeptLinksAppend(a[1..], b);
      AppendAssoc(KeepOne(a[0]), KeptLinks(a[1..]), KeptLinks(b));
    }
  }

  lemma {:induction false} RowRecordsAppend(title: string, a: seq<FileLink>, b: seq<FileLink>, pageUrl: string)
    ensures RowRecords(title, a + b, pageUrl) == RowRecords(title, a, pageUrl) + RowRecords(title, b, pageUrl)
  {
    if |a| == 0 {
      assert a + b == b;
    } else {
      assert (a + b)[0] == a[0];
      assert (a + b)[1..] == a[1..] + b;
      RowRecordsAppend(title, a[1..], b, pageUrl);
      AppendAssoc([Record(title, pageUrl, a[0].fileTitle, a[0].link, pageUrl)],
        RowRecords(title, a[1..], pageUrl), RowRecords(title, b, pageUrl));
    }
  }

  /** A single anchor contributes what the filter keeps of it. Unfolding step: it restates one case of the definition so proofs can cite it by name. */
  lemma KeptLinksSingle(a: FileAnchor)
    ensures KeptLinks([a]) == KeepOne(a)
  {
    assert [a][1..] == [];
  }

  /** One more anchor adds what the filter keeps of it. */
  lemma KeptLinksStep(anchors: seq<FileAnchor>, j: nat)
    requires j < |anchors|
    ensures KeptLinks(anchors[..j + 1]) == KeptLinks(anchors[..j]) + KeepOne(anchors[j])
  {
    assert anchors[..j + 1] == anchors[..j] + [anchors[j]];
    KeptLinksAppend(anchors[..j], [anchors[j]]);
    KeptLinksSingle(anchors[j]);
  }

  /** The tuples of consecutive runs of rows come out in row order. */
  lemma {:induction false} ParsedAppend(a: seq<Row>, b: seq<Row>, pageUrl: string)
    ensures Parsed(a + b, pageUrl) == Parsed(a, pageUrl) + Parsed(b, pageUrl)
  {
    if |a| == 0 {
      assert a + b == b;
    } else {
      assert (a + b)[0] == a[0];
      assert (a + b)[1..] == a[1..] + b;
      ParsedAppend(a[1..], b, pageUrl);
      AppendAssoc(RowOutput(a[0], pageUrl), Parsed(a[1..], pageUrl), Parsed(b, pageUrl));
    }
  }

  /** A row without an h3 title adds nothing, wherever it stands. */
  lemma UntitledRowIgnored(a: seq<Row>, anchors: seq<FileAnchor>, b: seq<Row>, pageUrl: string)
    ensures Parsed(a + [Row(None, anchors)] + b, pageUrl) == Parsed(a + b, pageUrl)
  {
    var r := Row(None, anchors);
    assert Parsed([r], pageUrl) == [] by {
      assert [r][1..] == [];
    }
    ParsedAppend(a + [r], b, pageUrl);
    ParsedAppend(a, [r], pageUrl);
    ParsedAppend(a, b, pageUrl);
    assert Parsed(a, pageUrl) + [] == Parsed(a, pageUrl);
  }

  /** The number of anchors the filter keeps, counted from the last one back. */
  function CountKept(anchors: seq<FileAnchor>): nat
  {
    if |anchors| == 0 then 0
    else CountKept(anchors[..|anchors| - 1]) + (if Kept(anchors[|anchors| - 1]) then 1 else 0)
  }

  /** The number of tuples a page should yield: kept anchors summed over titled rows. */
  function TotalKept(rows: seq<Row>): nat
  {
    if |rows| == 0 then 0
    else (if rows[0].title.Some? then CountKept(rows[0].anchors) else 0) + TotalKept(rows[1..])
  }

  lemma {:induction false} KeptLinksLength(anchors: seq<FileAnchor>)
    ensures |KeptLinks(anchors)| == CountKept(anchors)
  {
    if |anchors| > 0 {
      var init := anchors[..|anchors| - 1];
      var last := anchors[|anchors| - 1];
      KeptLinksLength(init);
      assert anchors == init + [last];
      KeptLinksAppend(init, [last]);
      KeptLinksSingle(last);
    }
  }

  lemma {:induction false} RowRecordsLength(title: string, links: seq<FileLink>, pageUrl: string)
    ensures |RowRecords(title, links, pageUrl)| == |links|
  {
    if |links| > 0 {
      RowRecordsLength(title, links[1..], pageUrl);
    }
  }

  /** A page yields one tuple per kept anchor of each titled row, and no more. */
  lemma {:induction false} ParsedLength(rows: seq<Row>, pageUrl: string)
    ensures |Parsed(rows, pageUrl)| == TotalKept(rows)
  {
    if |rows| > 0 {
      ParsedLength(rows[1..], pageUrl);
      match rows[0].title
      case None =>
      case Some(t) =>
        KeptLinksLength(rows[0].anchors);
        RowRecordsLength(t, KeptLinks(rows[0].anchors), pageUrl);
    }
  }

  lemma {:induction false} KeptLinksMember(anchors: seq<FileAnchor>, fl: FileLink)
    ensures fl in KeptLinks(anchors) <==> exists j :: 0 <= j < |anchors| && Kept(anchors[j]) && fl == LinkOf(anchors[j])
  {
    if |anchors| > 0 {
      KeptLinksMember(anchors[1..], fl);
      if fl in KeptLinks(anchors[1..]) {
        var j :| 0 <= j < |anchors| - 1 && Kept(anchors[1..][j]) && fl == LinkOf(anchors[1..][j]);
        assert anchors[j + 1] == anchors[1..][j];
      }
      if exists j :: 0 <= j < |anchors| && Kept(anchors[j]) && fl == LinkOf(anchors[j]) {
        var j :| 0 <= j < |anchors| && Kept(anchors[j]) && fl == LinkOf(anchors[j]);
        if j > 0 {
          assert anchors[1..][j - 1] == anchors[j];
        }
      }
    }
  }

  lemma {:induction false} RowRecordsMember(title: string, links: seq<FileLink>, pageUrl: string, rec: Record)
    ensures rec in RowRecords(title, links, pageUrl) <==>
      exists fl :: fl in links && rec == Record(title, pageUrl, fl.fileTitle, fl.link, pageUrl)
  {
    if |links| > 0 {
      RowRecordsMember(title, links[1..], pageUrl, rec);
      assert forall fl :: fl in links <==> fl == links[0] || fl in links[1..];
    }
  }

  /** `rec` is the tuple that anchor `j` of `row` gives. */
  predicate RowGives(row: Row, pageUrl: string, j: nat, rec: Record)
  {
    && row.title.Some? && j < |row.anchors|
    && Kept(row.anchors[j])
    && rec == Record(row.title.value, pageUrl, FileTitle(row.anchors[j]), Absolutise(row.anchors[j].href), pageUrl)
  }

  /** `rec` is the tuple that anchor `j` of row `i` gives. */
  predicate Gives(rows: seq<Row>, pageUrl: string, i: nat, j: nat, rec: Record)
  {
    i < |rows| && RowGives(rows[i], pageUrl, j, rec)
  }

  /** A row's tuples are those of its kept anchors, under its title. */
  lemma RowOutputMember(row: Row, pageUrl: string, rec: Record)
    ensures rec in RowOutput(row, pageUrl) <==> exists j: nat :: RowGives(row, pageUrl, j, rec)
  {
    match row.title
    case None =>
    case Some(t) =>
      var links := KeptLinks(row.anchors);
      RowRecordsMember(t, links, pageUrl, rec);
      if rec in RowOutput(row, pageUrl) {
        var fl :| fl in links && rec == Record(t, pageUrl, fl.fileTitle, fl.link, pageUrl);
        KeptLinksMember(row.anchors, fl);
        var j :| 0 <= j < |row.anchors| && Kept(row.anchors[j]) && fl == LinkOf(row.anchors[j]);
        assert RowGives(row, pageUrl, j, rec);
      }
      if exists j: nat :: RowGives(row, pageUrl, j, rec) {
        var j: nat :| RowGives(row, pageUrl, j, rec);
        var fl := LinkOf(row.anchors[j]);
        KeptLinksMember(row.anchors, fl);
        assert fl in links;
      }
  }

  /**
    A tuple is on the page exactly when some titled row has a kept anchor
    giving it: the row's title, the page URL as page link and source page,
    the anchor's file title and its absolutised href.
   */
  lemma {:induction false} ParsedMember(rows: seq<Row>, pageUrl: string, rec: Record)
    ensures rec in Parsed(rows, pageUrl) <==> exists i: nat, j: nat :: Gives(rows, pageUrl, i, j, rec)
  {
    if |rows| > 0 {
      var tail := rows[1..];
      ParsedMember(tail, pageUrl, rec);
      RowOutputMember(rows[0], pageUrl, rec);
      assert Parsed(rows, pageUrl) == RowOutput(rows[0], pageUrl) + Parsed(tail, pageUrl);
      if rec in Parsed(tail, pageUrl) {
        var i: nat, j: nat :| Gives(tail, pageUrl, i, j, rec);
        assert rows[i + 1] == tail[i];
        assert Gives(rows, pageUrl, i + 1, j, rec);
      }
      if rec in RowOutput(rows[0], pageUrl) {
        var j: nat :| RowGives(rows[0], pageUrl, j, rec);
        assert Gives(rows, pageUrl, 0, j, rec);
      }
      if exists i: nat, j: nat :: Gives(rows, pageUrl, i, j, rec) {
        var i: nat, j: nat :| Gives(rows, pageUrl, i, j, rec);
        if i > 0 {
          assert tail[i - 1] == rows[i];
          assert Gives(tail, pageUrl, i - 1, j, rec);
        } else {
          assert RowGives(rows[0], pageUrl, j, rec);
        }
      }
    }
  }

  /** The inner loop of `parse_titles_and_links`: the `file_links` of one row. */
  method CollectFileLinks(anchors: seq<FileAnchor>) returns (fileLinks: seq<FileLink>)
    ensures fileLinks == KeptLinks(anchors)
  {
    fileLinks := [];
    for j := 0 to |anchors|
      invariant fileLinks == KeptLinks(anchors[..j])
    {
      var a := anchors[j];
      ghost var before := fileLinks;
      var fileHref := a.href;
      if StartsWith(fileHref, "/") {
        fileHref := GovSite + fileHref;
      }
      assert fileHref == Absolutise(a.href);
      assert (fileHref != "#") == !IsHash(fileHref);
      if fileHref != "#" && Contains(fileHref, BlobFolder) {
        var fileTitleText := if a.span.Some? then a.span.value else NoFileTitle;
        fileLinks := fileLinks + [FileLink(fileHref, fileTitleText)];
      }
      assert fileLinks == before + KeepOne(a);
      KeptLinksStep(anchors, j);
    }
    assert anchors[..|anchors|] == anchors;
  }

  /** The last loop of `parse_titles_and_links`: one tuple per file link, appended in order. */
  method AppendRowRecords(parsedData: seq<Record>, title: string, fileLinks: seq<FileLink>, pageUrl: string)
    returns (extended: seq<Record>)
    ensures extended == parsedData + RowRecords(title, fileLinks, pageUrl)
  {
    extended := parsedData;
    for k := 0 to |fileLinks|
      invariant extended == parsedData + RowRecords(title, fileLinks[..k], pageUrl)
    {
      var fl := fileLinks[k];
      assert fileLinks[..k + 1] == fileLinks[..k] + [fl];
      RowRecordsAppend(title, fileLinks[..k], [fl], pageUrl);
      extended := extended + [Record(title, pageUrl, fl.fileTitle, fl.link, pageUrl)];
    }
    assert fileLinks[..|fileLinks|] == fileLinks;
  }

  /** `parse_titles_and_links(page_source, page_url)` over the parsed rows. */
  method ParseTitlesAndLinks(rows: seq<Row>, pageUrl: string) returns (parsedData: seq<Record>)
    ensures parsedData == Parsed(rows, pageUrl)
  {
    parsedData := [];
    for i := 0 to |rows|
      invariant parsedData == Parsed(rows[..i], pageUrl)
    {
      var row := rows[i];
      assert rows[..i + 1] == rows[..i] + [row];
      ParsedAppend(rows[..i], [row], pageUrl);
      assert Parsed([row], pageUrl) == RowOutput(row, pageUrl);
      if row.title.Some? {
        var titleText := row.title.value;
        var fileLinks := CollectFileLinks(row.anchors);
        if |fileLinks| > 0 {
          parsedData := AppendRowRecords(parsedData, titleText, fileLinks, pageUrl);
        }
      }
    }
    assert rows[..|rows|] == rows;
  }

  /** The k-th page visited: `f"{base_url}?skip={20 * k}"`. */
  function PageUrl(baseUrl: string, k: nat): string
  {
    SkipUrl(baseUrl, "?", PageSize * k)
  }

  /** The tuples of the k-th page. */
  function PageData(fetch: string -> seq<Row>, baseUrl: string, k: nat): seq<Record>
  {
    var url := PageUrl(baseUrl, k);
    Parsed(fetch(url), url)
  }

  /** The tuples of the first n pages, page after page. */
  function Collected(fetch: string -> seq<Row>, baseUrl: string, n: nat): seq<Record>
  {
    if n == 0 then [] else Collected(fetch, baseUrl, n - 1) + PageData(fetch, baseUrl, n - 1)
  }

  /** Some page of the listing yields no tuple, so `scrape_all_pages` stops. */
  ghost predicate EventuallyEmpty(fetch: string -> seq<Row>, baseUrl: string)
  {
    exists k: nat :: PageData(fetch, baseUrl, k) == []
  }

  /** `pages` holds the tuples of the first pages, each of them nonempty. */
  ghost predicate NonEmptyTrace(fetch: string -> seq<Row>, baseUrl: string, pages: seq<seq<Record>>)
  {
    forall j :: 0 <= j < |pages| ==> pages[j] == PageData(fetch, baseUrl, j) && pages[j] != []
  }

  /** The trace grows by the next page when that page yields tuples. */
  lemma TraceSnoc(fetch: string -> seq<Row>, baseUrl: string, pages: seq<seq<Record>>, next: seq<Record>)
    requires NonEmptyTrace(fetch, baseUrl, pages)
    requires next == PageData(fetch, baseUrl, |pages|) && next != []
    ensures NonEmptyTrace(fetch, baseUrl, pages + [next])
  {
    forall j | 0 <= j < |pages| + 1
      ensures (pages + [next])[j] == PageData(fetch, baseUrl, j)
    {
      if j < |pages| {
        assert (pages + [next])[j] == pages[j];
      }
    }
  }

  /** A trace of parsed pages is the first pages' tuples, collected in order. */
  lemma {:induction false} CollectedTrace(fetch: string -> seq<Row>, baseUrl: string, pages: seq<seq<Record>>)
    requires forall j :: 0 <= j < |pages| ==> pages[j] == PageData(fetch, baseUrl, j)
    ensures Concat(pages) == Collected(fetch, baseUrl, |pages|)
    decreases |pages|
  {
    if |pages| > 0 {
      var init := pages[..|pages| - 1];
      CollectedTrace(fetch, baseUrl, init);
    }
  }

  /** `visited` lists the URLs of the first pages, in order. */
  ghost predicate UrlTrace(baseUrl: string, visited: seq<string>)
  {
    forall j :: 0 <= j < |visited| ==> visited[j] == PageUrl(baseUrl, j)
  }

  /** The URL trace grows by the next page's URL. */
  lemma UrlTraceSnoc(baseUrl: string, visited: seq<string>, url: string)
    requires UrlTrace(baseUrl, visited) && url == PageUrl(baseUrl, |visited|)
    ensures UrlTrace(baseUrl, visited + [url])
  {
    forall j | 0 <= j < |visited| + 1
      ensures (visited + [url])[j] == PageUrl(baseUrl, j)
    {
      if j < |visited| {
        assert (visited + [url])[j] == visited[j];
      }
    }
  }

  /** What `scrape_all_pages` has done after visiting the first `|pages|` pages. */
  ghost predicate ScrapeState(fetch: string -> seq<Row>, baseUrl: string, skip: nat,
                              pages: seq<seq<Record>>, visited: seq<string>, allData: seq<Record>)
  {
    && skip == PageSize * |pages| && |visited| == |pages|
    && UrlTrace(baseUrl, visited)
    && NonEmptyTrace(fetch, baseUrl, pages)
    && allData == Concat(pages)
  }

  /** A page that yields tuples extends the state, and is not the page `stop` that yields none. */
  lemma ScrapeStep(fetch: string -> seq<Row>, baseUrl: string, skip: nat, pages: seq<seq<Record>>,
                   visited: seq<string>, allData: seq<Record>, pageUrl: string, parsedData: seq<Record>, stop: nat)
    requires ScrapeState(fetch, baseUrl, skip, pages, visited, allData)
    requires pageUrl == SkipUrl(baseUrl, "?", skip)
    requires parsedData == Parsed(fetch(pageUrl), pageUrl) && parsedData != []
    requires PageData(fetch, baseUrl, stop) == [] && |pages| <= stop
    ensures ScrapeState(fetch, baseUrl, skip + PageSize, pages + [parsedData], visited + [pageUrl], allData + parsedData)
    ensures |pages| + 1 <= stop
  {
    assert pageUrl == PageUrl(baseUrl, |pages|);
    UrlTraceSnoc(baseUrl, visited, pageUrl);
    TraceSnoc(fetch, baseUrl, pages, parsedData);
    ConcatSnoc(pages, parsedData);
  }

  /** A page that yields nothing ends the walk with everything the contract promises. */
  lemma ScrapeDone(fetch: string -> seq<Row>, baseUrl: string, skip: nat, pages: seq<seq<Record>>,
                   visited: seq<string>, allData: seq<Record>, pageUrl: string, parsedData: seq<Record>)
    requires ScrapeState(fetch, baseUrl, skip, pages, visited, allData)
    requires pageUrl == SkipUrl(baseUrl, "?", skip)
    requires parsedData == Parsed(fetch(pageUrl), pageUrl) && parsedData == []
    ensures var v := visited + [pageUrl];
      && (forall k :: 0 <= k < |v| ==> v[k] == PageUrl(baseUrl, k))
      && (forall k :: 0 <= k < |v| - 1 ==> PageData(fetch, baseUrl, k) != [])
      && PageData(fetch, baseUrl, |v| - 1) == []
      && allData == Collected(fetch, baseUrl, |v| - 1)
  {
    assert pageUrl == PageUrl(baseUrl, |pages|);
    UrlTraceSnoc(baseUrl, visited, pageUrl);
    CollectedTrace(fetch, baseUrl, pages);
  }

  /**
    `scrape_all_pages(base_url)`: `fetch` stands for loading and parsing a URL.
    The pages visited are `?skip=0`, `?skip=20`, ...; the last one visited is
    the first that yields nothing, and the result is every earlier page's
    tuples in order.
   */
  method ScrapeAllPages(baseUrl: string, fetch: string -> seq<Row>) returns (allData: seq<Record>, ghost visited: seq<string>)
    requires EventuallyEmpty(fetch, baseUrl)
    ensures |visited| > 0
    ensures forall k :: 0 <= k < |visited| ==> visited[k] == PageUrl(baseUrl, k)
    ensures forall k :: 0 <= k < |visited| - 1 ==> PageData(fetch, baseUrl, k) != []
    ensures PageData(fetch, baseUrl, |visited| - 1) == []
    ensures allData == Collected(fetch, baseUrl, |visited| - 1)
  {
    ghost var stop: nat :| PageData(fetch, baseUrl, stop) == [];
    allData := [];
    var skip: nat := 0;
    ghost var pages: seq<seq<Record>> := [];
    visited := [];
    while true
      invariant ScrapeState(fetch, baseUrl, skip, pages, visited, allData)
      invariant |pages| <= stop
      decreases stop - |pages|
    {
      var pageUrl := SkipUrl(baseUrl, "?", skip);
      var pageSource := fetch(pageUrl);
      var parsedData := ParseTitlesAndLinks(pageSource, pageUrl);
      if |parsedData| == 0 {
        ScrapeDone(fetch, baseUrl, skip, pages, visited, allData, pageUrl, parsedData);
        visited := visited + [pageUrl];
        break;
      }
      ScrapeStep(fetch, baseUrl, skip, pages, visited, allData, pageUrl, parsedData, stop);
      visited := visited + [pageUrl];
      allData := allData + parsedData;
      pages := pages + [parsedData];
      skip := skip + PageSize;
    }
  }

  /** The stopping page is unique: it is the first page that yields nothing. */
  lemma FirstEmptyPageUnique(fetch: string -> seq<Row>, baseUrl: string, m: nat, n: nat)
    requires forall k :: 0 <= k < m ==> PageData(fetch, baseUrl, k) != []
    requires forall k :: 0 <= k < n ==> PageData(fetch, baseUrl, k) != []
    requires PageData(fetch, baseUrl, m) == [] && PageData(fetch, baseUrl, n) == []
    ensures m == n
  {
  }

  /** The collected data has as many tuples as the visited pages yielded together. */
  lemma {:induction false} CollectedLength(fetch: string -> seq<Row>, baseUrl: string, n: nat)
    ensures |Collected(fetch, baseUrl, n)| == PagesTotal(fetch, baseUrl, n)
  {
    if n > 0 {
      CollectedLength(fetch, baseUrl, n - 1);
      var url := PageUrl(baseUrl, n - 1);
      ParsedLength(fetch(url), url);
    }
  }

  function PagesTotal(fetch: string -> seq<Row>, baseUrl: string, n: nat): nat
  {
    if n == 0 then 0 else PagesTotal(fetch, baseUrl, n - 1) + TotalKept(fetch(PageUrl(baseUrl, n - 1)))
  }
}
