# gov.il scraper rules in Dafny

This project models the deterministic string and list rules of three Selenium
scrapers for www.gov.il. Each script drives a live browser, which this model
leaves out.

- `master.py` reads the rendered page after the `<!-- Items -->` marker. It
  reports the item count phrase `פריט מספר N מתוך T תוצאות` and logs the
  next-page URL, in which every `skip=<digits>` is rewritten to the first
  value plus ten.
- `type2.py` walks the `row row-gov` rows of a page. Each row with an `h3`
  title gives one 5-tuple per kept file link. A link is kept when its
  absolutised href is not `#` and contains `BlobFolder`. The script pages
  through `?skip=0, 20, 40, …` until a page yields no tuples.
- `main.py` pairs every href-bearing anchor that holds a heading with its
  absolutised href. It pages through `&skip=0, 10, 20` and stops at the first
  empty page or after three pages.

Modules:

- `Wrappers` (`wrappers.dfy`): `Option`.
- `Seqs` (`seqs.dfy`): associativity of `+` and the flattening of a list of lists, shared by the list-building proofs.
- `Text` (`text.dfy`): Python's string operations as used by the scripts:
  - `startswith` and `in`
  - `str.split`
  - `int()` on an ASCII digit string and `str()` on a natural
- `Links` (`links.dfy`): the `/` → `https://www.gov.il` prefixing and the
  `skip=` page URLs, both shared by `type2.py` and `main.py`.
- `Master` (`master.dfy`): `master.py`.
- `Type2` (`type2.dfy`): `type2.py`.
- `Crawler` (`crawler.dfy`): `main.py`.

How the parts are modelled:

- The parsed HTML is abstract, since BeautifulSoup is a foreign library:
  - In `type2.py`, rows and anchors become `Row(title, anchors)` and
    `FileAnchor(href, span)`.
  - In `main.py`, heading-bearing anchors become `TitleAnchor(href, heading)`.
- The browser becomes a parameter `fetch`, a function from a page URL to the
  parsed page.
- The loops of `parse_titles_and_links`, `extract_titles_and_links`,
  `scrape_all_pages` and `process_pages` are methods with loop invariants.
  The first three are proved equal to recursive specification functions
  (`Parsed`, `TitleLinks`, `Collected`), and the properties of the scripts
  are lemmas about those functions. `process_pages` has no such function:
  its postconditions state the visited URLs and the counted pages directly.

## Model

| member | source | states |
|---|---|---|
| Text.StartsWith | type2.py:54 | `s.startswith(p)`: `s` begins with the characters of `p`, as also used at main.py:32; `AbsolutiseSpec` relies on it |
| Text.IndexOf | master.py:60 | the result is the leftmost occurrence of the pattern at or after the start position; `None` exactly when there is none |
| Text.Contains | type2.py:58 | `p in s`: `p` starts `s` or one of its suffixes; `ContainsIff` shows this is an occurrence at some index |
| Text.ContainsIff | type2.py:58 | Python's `p in s` holds exactly when `p` occurs at some index of `s` |
| Text.Split | master.py:60 | `str.split(sep)`: at least one piece, and joining the pieces with `sep` gives back the input |
| Text.SplitPieces | master.py:60 | no piece contains the separator, and there is more than one piece exactly when the separator occurs |
| Text.SplitSecondPiece | master.py:60 | with the first separator at `i`, the second piece starts the text after it and runs to the end of the text or up to the next separator |
| Text.DigitPrefix | master.py:86 | the greedy `\d+` run: a digit prefix of the text that is followed by a non-digit or the end |
| Text.DigitPrefixOf | master.py:86 | a digit string followed by a non-digit, or by nothing, is exactly what the greedy run takes |
| Text.DigitRunOccurs | master.py:63 | the greedy run read at a position is a digit string occurring at that position |
| Text.DigitRunAt | master.py:63 | a digit string at a position that is followed by a non-digit, or by the end, is the greedy run there |
| Text.ParseDigits | master.py:88 | `int()` on a decimal digit string, read most significant digit first; `ParseNatToString` shows it inverts `NatToString` |
| Text.NatToString | master.py:90 | `str(n)` is a nonempty digit string with no leading zero |
| Text.ParseNatToString | master.py:88-90 | `int(str(n)) == n` |
| Text.NatToStringInjective | type2.py:77 | different skip values give different decimal strings |
| Master.ItemRegion | master.py:60 | the item region contains no `<!-- Items -->` marker |
| Master.ItemRegionExists | master.py:60 | a region exists exactly when the marker occurs; otherwise `split(...)[1]` fails |
| Master.ItemRegionBetweenMarkers | master.py:60 | the region starts right after the first marker and runs to the second marker, or to the end when there is none |
| Master.IsCountPhrase | master.py:63 | the pattern `פריט מספר (\d+) מתוך (\d+) תוצאות` matches at `p` with groups `n` and `t`: the fixed texts and two nonempty digit strings in a row; `CountPhraseOccurs` shows it is an occurrence of the pattern's literal text |
| Master.CountPhraseOccurs | master.py:63 | a count phrase at `p` is exactly an occurrence of `פריט מספר N מתוך T תוצאות` at `p` with `N` and `T` nonempty digit strings |
| Master.CountPhraseForced | master.py:63 | in a count phrase, each number is the greedy digit run at its place, because a space follows it |
| Master.CountPhraseFromPieces | master.py:63 | the lead text, a nonempty greedy run, ` מתוך `, a nonempty greedy run and ` תוצאות` in a row make a count phrase |
| Master.NoPhraseWithoutNumber | master.py:63 | when the first greedy run after the lead is empty or not followed by ` מתוך `, no count phrase starts there |
| Master.NoPhraseWithoutTotal | master.py:63 | when the second greedy run is empty or not followed by ` תוצאות`, no count phrase starts there |
| Master.CountAt | master.py:63 | a result at a position is a count phrase starting there; `None` means that no count phrase starts there |
| Master.CountPhraseUnique | master.py:63-66 | at most one count phrase starts at a position, so both groups are determined |
| Master.CountAtFinds | master.py:63-66 | every count phrase at a position is exactly the one the matcher returns there |
| Master.FindCountFrom | master.py:63 | the search from a position returns a count phrase at or after it with none between the position and it; `None` means no phrase starts at or after the position |
| Master.FindCount | master.py:63-69 | the first count phrase `(N, T)` of the region, with no earlier phrase; "not found" exactly when no phrase occurs |
| Master.ExtractContent | master.py:57-76 | the write fails exactly when the marker is missing; otherwise the written text is the item region, and the reported count is the first count phrase in it |
| Master.SkipAt | master.py:86 | `skip=\d+` matches at index `q`: the five characters `skip=` followed by at least one digit; `FindSkipSpec` shows `FindSkip` returns the leftmost such index |
| Master.SkipAtTail | master.py:86 | a `skip=\d` match position moves by one when the first character is dropped |
| Master.FindSkip | master.py:86-88 | the captured group of a match is a nonempty digit string, so `int()` of it succeeds |
| Master.FindSkipSpec | master.py:86 | `re.search(r"skip=(\d+)")`: the leftmost match and its greedy digits; `None` exactly when no match exists |
| Master.FindSkipLeftmost | master.py:86 | a reported match is a match with none before it |
| Master.FindSkipAt | master.py:86 | a match with none before it is the one reported, with the greedy digits there |
| Master.Rewrite | master.py:90 | `re.sub(r"skip=\d+", f"skip={v}", s)`: scanning left to right, each match becomes `skip=v` and scanning resumes after its greedy digits; `RewriteWithoutMatch`, `RewriteCopiesPrefix` and `RewriteAtLeftmost` characterise it |
| Master.RewriteWithoutMatch | master.py:90 | `re.sub` leaves a URL with no `skip=<digits>` unchanged |
| Master.RewriteCopiesPrefix | master.py:90 | `re.sub` copies a prefix in which no match starts unchanged, and goes on rewriting the text after it |
| Master.RewriteAtLeftmost | master.py:90 | everything before the leftmost match is kept, the match becomes `skip=<v>`, and rewriting continues after the matched digits |
| Master.NextSkip | master.py:86-89 | the value of the leftmost `skip=` match plus 10, or none without a match; `NextPageUrlAt` and `NextPageAdvances` characterise it |
| Master.NextPageUrl | master.py:86-93 | the logged next URL: every match rewritten to `skip=` and the next skip, or none when the URL has no match; `NextPageUrlMissing` and `NextPageUrlAt` characterise it |
| Master.NextPageUrlMissing | master.py:86-93 | no next URL, and no next skip, exactly when the URL has no `skip=<digits>` |
| Master.NextPageUrlAt | master.py:86-91 | the next skip is the first value plus 10, so it is strictly greater; the next URL keeps the prefix, replaces the first match and rewrites the rest the same way |
| Master.NextPageUrlSingle | master.py:90 | with a single match, only that match's digits change |
| Master.SkipAtAgrees | master.py:86 | whether a match starts before position n depends only on the first n+5 characters |
| Master.RewriteStartsWithNonDigit | master.py:90 | rewriting keeps a non-digit first character non-digit, so a rewritten value is never extended by the text after it |
| Master.AfterMatchNonDigit | master.py:86 | the text after a greedy `skip=\d+` match does not start with a digit |
| Master.MatchAtSplice | master.py:86-90 | `skip=` and a nonempty digit string followed by a non-digit form a match whose digits are exactly that string |
| Master.NoEarlierSplice | master.py:86-90 | changing the text after `skip=` at the leftmost match adds no match before it |
| Master.FindSkipReplaced | master.py:86-90 | after the rewrite, the leftmost match is at the same place and its digits are exactly the new value |
| Master.NextPageHit | master.py:86-90 | the next URL has its leftmost match at the same position, and its digits are the decimal form of the new value |
| Master.NextPageAdvances | master.py:86-90 | the next skip of the next URL is the next skip plus 10 again |
| Links.Absolutise | type2.py:54-55 | `https://www.gov.il` prepended to a href that starts with `/`, the same rule as main.py:32-33; `AbsolutiseSpec` characterises it |
| Links.AbsolutiseSpec | type2.py:54-55 | a href starting with `/` gets the `https://www.gov.il` prefix; any other href is unchanged; the result never starts with `/`, so absolutising twice changes nothing |
| Links.SkipUrl | type2.py:77 | the page URL `f"{base}{sep}skip={skip}"`, with `sep` being `?` here and `&` at main.py:43; `SkipUrlInjective` shows different offsets give different URLs |
| Links.SkipUrlInjective | main.py:43 | page URLs built from one base with different skip values differ |
| Type2.Kept | type2.py:58 | the filter on an anchor: its absolutised href is not `#` and contains `BlobFolder`; `KeptLinksMember` shows it decides which links are collected |
| Type2.FileTitle | type2.py:59-60 | the span text when the span exists, otherwise `N/A` |
| Type2.LinkOf | type2.py:53-61 | the pair an anchor appends to `file_links`: its absolutised href and its file title |
| Type2.KeepOne | type2.py:53-61 | what one anchor adds to `file_links`: its pair when the filter keeps it, nothing otherwise; `KeptLinksStep` and `KeptLinksMember` build on it |
| Type2.KeptLinks | type2.py:52-61 | a row's `file_links`: the kept anchors' (absolutised href, file title), in anchor order; `KeptLinksMember`, `KeptLinksLength` and `KeptLinksAppend` characterise it |
| Type2.KeptLinksAppend | type2.py:52-61 | filtering anchors distributes over concatenation, keeping order |
| Type2.KeptLinksStep | type2.py:52-61 | one more anchor adds what the filter keeps of it, so the links grow in anchor order |
| Type2.KeptLinksLength | type2.py:52-61 | the number of file links equals the number of kept anchors |
| Type2.KeptLinksMember | type2.py:52-61 | a file link is collected exactly when some anchor is kept and gives that `(absolutised href, file title)` |
| Type2.RowRecords | type2.py:64-66 | the tuples `(title, page_url, file_title, link, page_url)` of a titled row, one per file link in order; `RowRecordsMember`, `RowRecordsLength` and `RowRecordsAppend` characterise it |
| Type2.RowOutput | type2.py:46-66 | what one row adds to `parsed_data`: nothing without an `h3` title, otherwise its tuples; `RowOutputMember` characterises it |
| Type2.RowRecordsAppend | type2.py:65-66 | a row's tuples for concatenated links are the concatenation of the tuples |
| Type2.RowRecordsLength | type2.py:64-66 | exactly one tuple per file link |
| Type2.RowRecordsMember | type2.py:65-66 | a tuple of a row is exactly `(title, page_url, file_title, link, page_url)` for one of its file links |
| Type2.Parsed | type2.py:43-68 | a page's `parsed_data`: the tuples of the titled rows, row after row; `ParsedMember`, `ParsedLength` and `ParsedAppend` characterise it |
| Type2.ParsedAppend | type2.py:43-68 | the page's tuples for concatenated rows are the concatenation, in row order |
| Type2.UntitledRowIgnored | type2.py:46-47 | a row without an `h3` title contributes nothing, wherever it stands |
| Type2.ParsedLength | type2.py:43-68 | the number of tuples is the sum over titled rows of their kept-link counts |
| Type2.RowOutputMember | type2.py:46-66 | a tuple comes from a row exactly when the row is titled and one of its anchors is kept and gives it |
| Type2.ParsedMember | type2.py:43-68 | a tuple is in the output exactly when some titled row i has a kept anchor j giving it |
| Type2.CollectFileLinks | type2.py:51-61 | the inner loop collects exactly the kept links, in anchor order |
| Type2.AppendRowRecords | type2.py:64-66 | the loop appends exactly one tuple per file link to what was parsed before |
| Type2.ParseTitlesAndLinks | type2.py:30-68 | the nested loops compute exactly the specified tuple sequence |
| Type2.PageUrl | type2.py:77 | the k-th page visited, `f"{base_url}?skip={20 * k}"`; `SkipUrlInjective` makes different pages different URLs |
| Type2.Collected | type2.py:73-84 | `all_data` after n pages: their tuples, page after page; `CollectedTrace` and `CollectedLength` characterise it |
| Type2.TraceSnoc | type2.py:76-85 | when the next page yields tuples, the record of nonempty pages grows by that page |
| Type2.CollectedTrace | type2.py:84 | the pages' tuples, concatenated in order, are the data collected from those pages |
| Type2.UrlTraceSnoc | type2.py:77-85 | the list of visited URLs grows by the URL of the next page |
| Type2.ScrapeStep | type2.py:76-85 | a page that yields tuples extends the walk: `skip` grows by 20, its URL and tuples are appended, and the empty page has not been reached yet |
| Type2.ScrapeDone | type2.py:76-87 | a page that yields nothing ends the walk: the URLs were visited in order, every earlier page was nonempty, and the result is their tuples in order |
| Type2.ScrapeAllPages | type2.py:72-87 | the k-th fetched URL is `base?skip=<20k>`; every page before the last is nonempty; the last is empty; the result is the in-order concatenation of the pages before it |
| Type2.FirstEmptyPageUnique | type2.py:81-82 | the page on which the loop stops is determined by the fetch results |
| Type2.CollectedLength | type2.py:84 | the collected length is the sum of the per-page tuple counts |
| Crawler.PairOf | main.py:28-34 | the pair an anchor gives: (heading text, absolutised href) when it holds a heading, none otherwise; `TitleLinksMember` builds on it |
| Crawler.TitleLinks | main.py:25-34 | a page's `title_link_pairs`: one (heading text, absolutised href) per heading-bearing anchor, in anchor order; `TitleLinksMember`, `TitleLinksLength` and `TitleLinksAppend` characterise it |
| Crawler.TitleLinksAppend | main.py:25-34 | pairing distributes over concatenation, keeping anchor order |
| Crawler.TitleLinksLength | main.py:25-34 | one pair per heading-bearing anchor, so at most one per href-bearing anchor |
| Crawler.TitleLinksMember | main.py:25-34 | a pair is emitted exactly when some anchor holds a heading and gives (heading text, absolutised href) |
| Crawler.ExtractTitlesAndLinks | main.py:21-36 | the loop computes exactly the specified pairs |
| Crawler.CrawlUrl | main.py:43 | the k-th page visited, `f"{base_url}&skip={10 * k}"`; `ProcessPages` states its URLs through it |
| Crawler.UrlTraceSnoc | main.py:43-66 | the list of processed URLs grows by the URL of the next page, and the pages counted so far stay as they were |
| Crawler.PairsTraceSnoc | main.py:54-67 | a page that yields pairs is appended to the counted pages |
| Crawler.ProcessPages | main.py:39-67 | the k-th URL is `base&skip=<10k>`, with `skip == 10 * page_count` kept as an invariant; at most 3 URLs are fetched and at most 3 pages are counted; each processed page has a nonempty pair list; the loop stops at the first empty page or after 3 pages |

## Left out

- Browser I/O is not modelled: Selenium setup, `driver.get`, `time.sleep`, `WebDriverWait`, `driver.quit`, the JavaScript that removes the header and footer, and reading `outerHTML` or `current_url`. The rendered page and the current URL are inputs, and each page fetch is the `fetch` parameter.
- The global `driver` in `process_pages` is not modelled. The page source comes from `fetch`.
- `expand_content` (master.py:28-45) is not modelled, because its behaviour depends only on live DOM state. Its loop ends when an XPath query finds no buttons, or when an exception from `driver.find_elements` leaves the loop for the outer `try`; nothing bounds the number of passes. A failed click is printed and swallowed.
- BeautifulSoup parsing is not modelled: `find`, `find_all`, `decompose` and `get_text(strip=True)`. Rows, anchors, headings and spans arrive already parsed and stripped, as abstract datatypes.
- File writing, CSV writing and `print` logging are not modelled. `ExtractContent` returns what would be written and the count that would be logged. `ProcessPages` returns the logged URLs and pair lists, and `NextPageUrl` returns the logged URL.
- General regular expressions are not modelled. The two patterns used are explicit scanners.
- Text.DigitPrefix: treats only ASCII `0-9` as digits. Python's `\d` and `int()` also accept other Unicode decimal digits.
- Type2.ScrapeAllPages: requires that some page eventually comes back empty, because the `while True` loop has no bound. Without that, the source does not terminate.
- Other exceptions are not modelled: Selenium errors and the `try/except` blocks that print them. A missing marker is the only failure modelled, as `WriteFailed`.
- Master.NextPageUrl: does not model Python's limit on integer-string conversion (4300 digits from Python 3.11 on). Past it, `int(match.group(1))` or the `skip={next_skip}` f-string raises `ValueError`, which master.py:94-95 catches and prints; the model returns a next URL for a value of any length, because integers here are unbounded.
- Master.NextSkip: does not model the same limit. Past 4300 digits, `int(match.group(1))` at master.py:88 raises `ValueError`, while the model returns the value plus 10.
- The `__main__` blocks are not modelled: the hard-coded URL lists and the CSV header row.
