/**
  The string rules under master.py: the item region that `extract_content_to_txt`
  cuts out of the rendered page, the "item N of TOTAL results" count it looks
  for there, and the next-page URL that `log_next_button_link` derives from the
  `skip=<digits>` query parameter.
 */
module Master {
  import opened Wrappers
  import opened Text

  // ---------------------------------------------------------------------------
  // The item region: `content.split("<!-- Items -->")[1]`
  // ---------------------------------------------------------------------------

  const ItemsMarker: string := "<!-- Items -->"

  /**
    Index 1 of the split on the items marker. `None` is the IndexError raised
    when the marker does not occur and the split has a single piece.
   */
  function ItemRegion(content: string): (r: Option<string>)
    ensures r.Some? ==> !Contains(r.value, ItemsMarker)
  {
    var parts := Split(content, ItemsMarker);
    SplitPieces(content, ItemsMarker);
    if |parts| > 1 then Some(parts[1]) else None
  }

  /** There is an item region exactly when the page holds the marker. */
  lemma ItemRegionExists(content: string)
    ensures ItemRegion(content).Some? <==> Contains(content, ItemsMarker)
  {
    SplitPieces(content, ItemsMarker);
  }

  /**
    With the first marker at `i`, the item region is the text that follows it,
    up to the next marker or to the end of the page.
   */
  lemma ItemRegionBetweenMarkers(content: string, i: nat)
    requires OccursAt(content, ItemsMarker, i)
    requires forall q :: 0 <= q < i ==> !OccursAt(content, ItemsMarker, q)
    ensures ItemRegion(content).Some?
    ensures var r := ItemRegion(content).value;
            var rest := content[i + |ItemsMarker|..];
            && StartsWith(rest, r)
            && (|r| == |rest| || StartsWith(rest[|r|..], ItemsMarker))
  {
    SplitSecondPiece(content, ItemsMarker, i);
  }

  // ---------------------------------------------------------------------------
  // The item count: `re.search(r"פריט מספר (\d+) מתוך (\d+) תוצאות", ...)`
  // ---------------------------------------------------------------------------

  const CountLead: string := "פריט מספר "
  const CountMid: string := " מתוך "
  const CountTail: string := " תוצאות"

  /** A match of the count pattern: where it starts and its two groups. */
  datatype ItemCount = ItemCount(at: nat, current: string, total: string)

  /** Where the pieces of a count phrase at `p` start. */
  function NumberStart(p: nat): nat { p + |CountLead| }

  function TotalStart(p: nat, n: string): nat { NumberStart(p) + |n| + |CountMid| }

  /**
    The count phrase with item number `n` and total `t` starts at `p` in `s`,
    written piece by piece; `CountPhraseOccurs` shows it is the whole phrase.
   */
  predicate IsCountPhrase(s: string, p: nat, n: string, t: string)
  {
    && |n| > 0 && IsDigits(n)
    && |t| > 0 && IsDigits(t)
    && OccursAt(s, CountLead, p)
    && OccursAt(s, n, NumberStart(p))
    && OccursAt(s, CountMid, NumberStart(p) + |n|)
    && OccursAt(s, t, TotalStart(p, n))
    && OccursAt(s, CountTail, TotalStart(p, n) + |t|)
  }

  /** A five-piece text occurs at `i` exactly when its pieces occur one after another. */
  lemma OccursAtFive(s: string, i: nat, a: string, n: string, b: string, t: string, c: string)
    ensures OccursAt(s, a + n + b + t + c, i) <==>
      && OccursAt(s, a, i)
      && OccursAt(s, n, i + |a|)
      && OccursAt(s, b, i + |a| + |n|)
      && OccursAt(s, t, i + |a| + |n| + |b|)
      && OccursAt(s, c, i + |a| + |n| + |b| + |t|)
  {
    OccursAtConcat(s, a + n + b + t, c, i);
    OccursAtConcat(s, a + n + b, t, i);
    OccursAtConcat(s, a + n, b, i);
    OccursAtConcat(s, a, n, i);
  }

  /** A count phrase is an occurrence of the pattern's text with two nonempty digit groups. */
  lemma CountPhraseOccurs(s: string, p: nat, n: string, t: string)
    ensures IsCountPhrase(s, p, n, t) <==>
      && |n| > 0 && IsDigits(n)
      && |t| > 0 && IsDigits(t)
      && OccursAt(s, CountLead + n + CountMid + t + CountTail, p)
  {
    OccursAtFive(s, p, CountLead, n, CountMid, t, CountTail);
  }

  /**
    In a count phrase the two numbers are followed by a space, so each is the
    greedy digit run at its place.
   */
  lemma CountPhraseForced(s: string, p: nat, n: string, t: string)
    requires IsCountPhrase(s, p, n, t)
    ensures OccursAt(s, CountLead, p)
    ensures DigitPrefix(s[NumberStart(p)..]) == n
    ensures OccursAt(s, CountMid, NumberStart(p) + |n|)
    ensures DigitPrefix(s[TotalStart(p, n)..]) == t
    ensures OccursAt(s, CountTail, TotalStart(p, n) + |t|)
  {
    var i2 := NumberStart(p) + |n|;
    assert s[i2] == s[i2..i2 + |CountMid|][0];
    DigitRunAt(s, n, NumberStart(p));
    var i4 := TotalStart(p, n) + |t|;
    assert s[i4] == s[i4..i4 + |CountTail|][0];
    DigitRunAt(s, t, TotalStart(p, n));
  }

  /** The pieces `CountAt` finds make up a count phrase. */
  lemma CountPhraseFromPieces(s: string, p: nat, n: string, t: string)
    requires OccursAt(s, CountLead, p)
    requires NumberStart(p) <= |s| && n == DigitPrefix(s[NumberStart(p)..]) && |n| > 0
    requires OccursAt(s, CountMid, NumberStart(p) + |n|)
    requires TotalStart(p, n) <= |s| && t == DigitPrefix(s[TotalStart(p, n)..]) && |t| > 0
    requires OccursAt(s, CountTail, TotalStart(p, n) + |t|)
    ensures IsCountPhrase(s, p, n, t)
  {
    DigitRunOccurs(s, NumberStart(p), n);
    DigitRunOccurs(s, TotalStart(p, n), t);
  }

  /** Where the digit run read after the lead is not followed by ` מתוך `, no phrase starts. */
  lemma NoPhraseWithoutNumber(s: string, p: nat, n: string)
    requires OccursAt(s, CountLead, p)
    requires n == DigitPrefix(s[NumberStart(p)..])
    requires |n| == 0 || !OccursAt(s, CountMid, NumberStart(p) + |n|)
    ensures forall n', t :: !IsCountPhrase(s, p, n', t)
  {
    forall n', t
      ensures !IsCountPhrase(s, p, n', t)
    {
      if IsCountPhrase(s, p, n', t) {
        CountPhraseForced(s, p, n', t);
      }
    }
  }

  /** Where the second digit run is not followed by ` תוצאות`, no phrase starts. */
  lemma NoPhraseWithoutTotal(s: string, p: nat, n: string, t: string)
    requires OccursAt(s, CountLead, p)
    requires n == DigitPrefix(s[NumberStart(p)..])
    requires OccursAt(s, CountMid, NumberStart(p) + |n|)
    requires t == DigitPrefix(s[TotalStart(p, n)..])
    requires |t| == 0 || !OccursAt(s, CountTail, TotalStart(p, n) + |t|)
    ensures forall n', t' :: !IsCountPhrase(s, p, n', t')
  {
    forall n', t'
      ensures !IsCountPhrase(s, p, n', t')
    {
      if IsCountPhrase(s, p, n', t') {
        CountPhraseForced(s, p, n', t');
      }
    }
  }

  /** The pattern matched at `p` alone (greedy `\d+`, each followed by a space). */
  function CountAt(s: string, p: nat): (r: Option<ItemCount>)
    requires p <= |s|
    ensures r.Some? ==> r.value.at == p && IsCountPhrase(s, p, r.value.current, r.value.total)
    ensures r.None? ==> forall n, t :: !IsCountPhrase(s, p, n, t)
  {
    if !OccursAt(s, CountLead, p) then None
    else
      var n := DigitPrefix(s[NumberStart(p)..]);
      if |n| == 0 || !OccursAt(s, CountMid, NumberStart(p) + |n|) then
        NoPhraseWithoutNumber(s, p, n);
        None
      else
        var t := DigitPrefix(s[TotalStart(p, n)..]);
        if |t| == 0 || !OccursAt(s, CountTail, TotalStart(p, n) + |t|) then
          NoPhraseWithoutTotal(s, p, n, t);
          None
        else
          CountPhraseFromPieces(s, p, n, t);
          Some(ItemCount(p, n, t))
  }

  /** At most one count phrase starts at a position: the greedy groups fix both numbers. */
  lemma CountPhraseUnique(s: string, p: nat, n: string, t: string, n': string, t': string)
    requires IsCountPhrase(s, p, n, t) && IsCountPhrase(s, p, n', t')
    ensures n == n' && t == t'
  {
    CountPhraseForced(s, p, n, t);
    CountPhraseForced(s, p, n', t');
  }

  /** Every count phrase at `p` is the one `CountAt` returns. */
  lemma CountAtFinds(s: string, p: nat, n: string, t: string)
    requires IsCountPhrase(s, p, n, t)
    ensures p <= |s| && CountAt(s, p) == Some(ItemCount(p, n, t))
  {
    var r := CountAt(s, p);
    CountPhraseUnique(s, p, n, t, r.value.current, r.value.total);
  }

  /** No count phrase starts at a position in `lo..hi`. */
  ghost predicate NoCountIn(s: string, lo: nat, hi: nat)
  {
    forall q: nat, n, t :: lo <= q < hi ==> !IsCountPhrase(s, q, n, t)
  }

  /** `re.search` from position `from`: the leftmost match of the count pattern. */
  function FindCountFrom(s: string, from: nat): (r: Option<ItemCount>)
    requires from <= |s|
    ensures r.Some? ==> from <= r.value.at <= |s|
    ensures r.Some? ==> IsCountPhrase(s, r.value.at, r.value.current, r.value.total)
    ensures r.Some? ==> NoCountIn(s, from, r.value.at)
    ensures r.None? ==> NoCountIn(s, from, |s| + 1)
    decreases |s| - from
  {
    var here := CountAt(s, from);
    if here.Some? then here
    else if from == |s| then
      NoCountExtend(s, from, from + 1);
      None
    else
      var r := FindCountFrom(s, from + 1);
      NoCountExtend(s, from, if r.Some? then r.value.at else |s| + 1);
      r
  }

  /** A position without a phrase extends a phrase-free range that starts right after it. */
  lemma NoCountExtend(s: string, lo: nat, hi: nat)
    requires forall n, t :: !IsCountPhrase(s, lo, n, t)
    requires NoCountIn(s, lo + 1, hi)
    ensures NoCountIn(s, lo, hi)
  {
  }

  /** The count the page announces, or `None` for "No item count found." */
  function FindCount(s: string): (r: Option<ItemCount>)
    ensures r.Some? ==> IsCountPhrase(s, r.value.at, r.value.current, r.value.total)
    ensures r.Some? ==> forall q, n, t :: 0 <= q < r.value.at ==> !IsCountPhrase(s, q, n, t)
    ensures r.None? <==> forall q, n, t :: !IsCountPhrase(s, q, n, t)
  {
    FindCountFrom(s, 0)
  }

  /** What `extract_content_to_txt` produces: nothing, or the text it writes and the count it logs. */
  datatype Extraction = WriteFailed | Written(text: string, count: Option<ItemCount>)

  /**
    The pure part of `extract_content_to_txt`, given the page's markup once the
    header and footer are removed.
   */
  function ExtractContent(content: string): (r: Extraction)
    ensures r.WriteFailed? <==> !Contains(content, ItemsMarker)
    ensures r.Written? ==> ItemRegion(content) == Some(r.text) && !Contains(r.text, ItemsMarker)
    ensures r.Written? ==> r.count == FindCount(r.text)
  {
    ItemRegionExists(content);
    match ItemRegion(content)
    case None => WriteFailed
    case Some(region) => Written(region, FindCount(region))
  }

  // ---------------------------------------------------------------------------
  // The next page: `re.search(r"skip=(\d+)", url)` and `re.sub(r"skip=\d+", ...)`
  // ---------------------------------------------------------------------------

  const SkipKey: string := "skip="
  const SkipStep: nat := 10

  /**
    `skip=\d+` matches at index `q` of `s`. The five characters of `skip=` are
    compared one index at a time rather than through `OccursAt`, so the proofs
    that shift or splice positions (`SkipAtTail`, `SkipAtAgrees`) reason about
    single characters instead of slices.
   */
  predicate SkipAt(s: string, q: nat)
  {
    && q + |SkipKey| < |s|
    && s[q] == 's' && s[q + 1] == 'k' && s[q + 2] == 'i' && s[q + 3] == 'p' && s[q + 4] == '='
    && IsDigit(s[q + |SkipKey|])
  }

  /** `skip=\d+` matches at the start of `s`. */
  predicate StartsWithSkip(s: string)
  {
    SkipAt(s, 0)
  }

  /** The leftmost match of `s` is at `p`. */
  predicate LeftmostSkip(s: string, p: nat)
  {
    SkipAt(s, p) && forall q :: 0 <= q < p ==> !SkipAt(s, q)
  }

  /** Dropping the first character shifts every match one place to the left. */
  lemma SkipAtTail(s: string)
    requires |s| > 0
    ensures forall q :: 1 <= q <= |s| ==> (SkipAt(s, q) <==> SkipAt(s[1..], q - 1))
    ensures forall q :: 0 <= q < |s| ==> (SkipAt(s[1..], q) <==> SkipAt(s, q + 1))
  {
    forall q | 1 <= q <= |s|
      ensures SkipAt(s, q) <==> SkipAt(s[1..], q - 1)
    {
      assert s[1..][q - 1..] == s[q..];
    }
    forall q | 0 <= q < |s|
      ensures SkipAt(s[1..], q) <==> SkipAt(s, q + 1)
    {
      assert s[1..][q..] == s[q + 1..];
    }
  }

  /** Where a `skip=` match starts and the digits its group captures. */
  datatype SkipHit = SkipHit(pos: nat, digits: string)

  /** `re.search(r"skip=(\d+)", s)`: the leftmost match. */
  function FindSkip(s: string): (r: Option<SkipHit>)
    ensures r.Some? ==> IsDigits(r.value.digits) && |r.value.digits| > 0
  {
    if |s| == 0 then None
    else if StartsWithSkip(s) then Some(SkipHit(0, DigitPrefix(s[|SkipKey|..])))
    else
      match FindSkip(s[1..])
      case None => None
      case Some(h) => Some(SkipHit(h.pos + 1, h.digits))
  }

  /**
    `FindSkip` reports the leftmost match and the digits the greedy group
    captures there, and reports none exactly when no match exists.
   */
  lemma {:induction false} FindSkipSpec(s: string)
    ensures FindSkip(s).Some? ==> SkipAt(s, FindSkip(s).value.pos)
    ensures FindSkip(s).Some? ==> FindSkip(s).value.digits == DigitPrefix(s[FindSkip(s).value.pos + |SkipKey|..])
    ensures FindSkip(s).Some? ==> forall q :: 0 <= q < FindSkip(s).value.pos ==> !SkipAt(s, q)
    ensures FindSkip(s).None? <==> forall q :: 0 <= q <= |s| ==> !SkipAt(s, q)
    decreases |s|
  {
    assert s[0..] == s;
    if |s| > 0 && !StartsWithSkip(s) {
      SkipAtTail(s);
      FindSkipSpec(s[1..]);
      match FindSkip(s[1..])
      case None =>
      case Some(h) =>
        assert s[1..][h.pos..] == s[h.pos + 1..];
    } else if |s| > 0 {
      assert SkipAt(s, 0);
    }
  }

  /** A reported match is a match, and none starts before it. */
  lemma FindSkipLeftmost(s: string)
    requires FindSkip(s).Some?
    ensures LeftmostSkip(s, FindSkip(s).value.pos)
  {
    FindSkipSpec(s);
  }

  /** A match at `p` with none before it is the one `FindSkip` reports. */
  lemma FindSkipAt(s: string, p: nat)
    requires LeftmostSkip(s, p)
    ensures FindSkip(s) == Some(SkipHit(p, DigitPrefix(s[p + |SkipKey|..])))
  {
    FindSkipSpec(s);
    var g := FindSkip(s).value;
    assert !(g.pos < p);
    assert !(p < g.pos);
  }

  /** The text a match of `skip=\d+` at the start of `s` covers. */
  function SkipMatchLength(s: string): nat
    requires StartsWithSkip(s)
  {
    |SkipKey| + |DigitPrefix(s[|SkipKey|..])|
  }

  /** `re.sub(r"skip=\d+", "skip=" + v, s)`: every leftmost, non-overlapping match replaced. */
  function Rewrite(s: string, v: string): string
    decreases |s|
  {
    if |s| == 0 then ""
    else if StartsWithSkip(s) then SkipKey + v + Rewrite(s[SkipMatchLength(s)..], v)
    else [s[0]] + Rewrite(s[1..], v)
  }

  /** A URL without a match is left exactly as it was. */
  lemma {:induction false} RewriteWithoutMatch(s: string, v: string)
    requires forall q :: 0 <= q <= |s| ==> !SkipAt(s, q)
    ensures Rewrite(s, v) == s
    decreases |s|
  {
    if |s| > 0 {
      assert !SkipAt(s, 0);
      assert s[0..] == s;
      SkipAtTail(s);
      forall q | 0 <= q <= |s| - 1
        ensures !SkipAt(s[1..], q)
      {
        assert !SkipAt(s, q + 1);
      }
      RewriteWithoutMatch(s[1..], v);
    }
  }

  /** One step of `Rewrite` at a match. Unfolding step: it restates one case of the definition so proofs can cite it by name. */
  lemma RewriteMatchStep(s: string, v: string)
    requires StartsWithSkip(s)
    ensures Rewrite(s, v) == SkipKey + v + Rewrite(s[SkipMatchLength(s)..], v)
  {
  }

  /** One step of `Rewrite` where no match starts. Unfolding step: it restates one case of the definition so proofs can cite it by name. */
  lemma RewriteCopyStep(s: string, v: string)
    requires |s| > 0 && !StartsWithSkip(s)
    ensures Rewrite(s, v) == [s[0]] + Rewrite(s[1..], v)
  {
  }

  /** A prefix in which no match starts is copied by `Rewrite` unchanged. */
  lemma {:induction false} RewriteCopiesPrefix(a: string, b: string, v: string)
    requires forall q :: 0 <= q < |a| ==> !SkipAt(a + b, q)
    ensures Rewrite(a + b, v) == a + Rewrite(b, v)
    decreases |a|
  {
    if |a| == 0 {
      assert a + b == b;
    } else {
      var s := a + b;
      assert s[0..] == s;
      assert !SkipAt(s, 0);
      RewriteCopyStep(s, v);
      var a' := a[1..];
      assert s[1..] == a' + b;
      forall q | 0 <= q < |a'|
        ensures !SkipAt(a' + b, q)
      {
        assert (a' + b)[q..] == s[q + 1..];
        assert !SkipAt(s, q + 1);
      }
      RewriteCopiesPrefix(a', b, v);
      assert [a[0]] + (a' + Rewrite(b, v)) == a + Rewrite(b, v);
    }
  }

  /**
    The characters before the leftmost match are kept, the match becomes
    `skip=` + `v`, and rewriting goes on after the matched digits.
   */
  lemma RewriteAtLeftmost(s: string, p: nat, v: string)
    requires LeftmostSkip(s, p)
    ensures Rewrite(s, v) == s[..p] + SkipKey + v + Rewrite(s[MatchEnd(s, p)..], v)
  {
    var a := s[..p];
    var b := s[p..];
    LeftmostParts(s, p, a, b);
    RewriteCopiesPrefix(a, b, v);
    RewriteMatchStep(b, v);
  }

  /** Cutting a URL at its leftmost match: no match before the cut, one right after it. */
  lemma LeftmostParts(s: string, p: nat, a: string, b: string)
    requires LeftmostSkip(s, p)
    requires a == s[..p] && b == s[p..]
    ensures s == a + b
    ensures forall q :: 0 <= q < |a| ==> !SkipAt(a + b, q)
    ensures StartsWithSkip(b)
    ensures s[MatchEnd(s, p)..] == b[SkipMatchLength(b)..]
  {
    assert s == a + b;
  }

  /** The skip value of the next page: the first `skip=` value plus ten. */
  function NextSkip(url: string): Option<nat>
  {
    match FindSkip(url)
    case None => None
    case Some(h) => Some(ParseDigits(h.digits) + SkipStep)
  }

  /** The URL `log_next_button_link` reports, or `None` when it cannot determine one. */
  function NextPageUrl(url: string): Option<string>
  {
    match FindSkip(url)
    case None => None
    case Some(h) => Some(Rewrite(url, NatToString(ParseDigits(h.digits) + SkipStep)))
  }

  /** No next URL exactly when the URL has no `skip=<digits>`. */
  lemma NextPageUrlMissing(url: string)
    ensures NextPageUrl(url).None? <==> forall q :: 0 <= q <= |url| ==> !SkipAt(url, q)
    ensures NextSkip(url).None? <==> NextPageUrl(url).None?
  {
    FindSkipSpec(url);
  }

  /** The value of the match at `p`. */
  function SkipValue(url: string, p: nat): nat
    requires SkipAt(url, p)
  {
    ParseDigits(DigitPrefix(url[p + |SkipKey|..]))
  }

  /** Where the match at `p` ends. */
  function MatchEnd(url: string, p: nat): (e: nat)
    requires SkipAt(url, p)
    ensures p < e <= |url|
  {
    assert url[p..][|SkipKey|..] == url[p + |SkipKey|..];
    p + SkipMatchLength(url[p..])
  }

  /** The next skip is read off the leftmost match. Unfolding step: it restates one case of the definition so proofs can cite it by name. */
  lemma NextSkipOfHit(u: string, h: SkipHit)
    requires FindSkip(u) == Some(h)
    ensures NextSkip(u) == Some(ParseDigits(h.digits) + SkipStep)
  {
  }

  /** The next URL rewrites every match with the value of the leftmost one plus ten. Unfolding step: it restates one case of the definition so proofs can cite it by name. */
  lemma NextPageUrlOfHit(u: string, h: SkipHit)
    requires FindSkip(u) == Some(h)
    ensures NextPageUrl(u) == Some(Rewrite(u, NatToString(ParseDigits(h.digits) + SkipStep)))
  {
  }

  /**
    With the leftmost `skip=` at `p` carrying value `cur`, the next skip is
    `cur + 10` and the next URL replaces that match, keeps everything before
    it, and rewrites the rest in the same way.
   */
  lemma NextPageUrlAt(url: string, p: nat)
    requires LeftmostSkip(url, p)
    ensures NextSkip(url) == Some(SkipValue(url, p) + SkipStep)
    ensures SkipValue(url, p) < SkipValue(url, p) + SkipStep
    ensures var next := NatToString(SkipValue(url, p) + SkipStep);
            NextPageUrl(url) == Some(url[..p] + SkipKey + next + Rewrite(url[MatchEnd(url, p)..], next))
  {
    FindSkipAt(url, p);
    var h := SkipHit(p, DigitPrefix(url[p + |SkipKey|..]));
    NextSkipOfHit(url, h);
    NextPageUrlOfHit(url, h);
    RewriteAtLeftmost(url, p, NatToString(SkipValue(url, p) + SkipStep));
  }

  /** A URL with a single `skip=` match changes in that match only. */
  lemma NextPageUrlSingle(url: string, p: nat)
    requires SkipAt(url, p)
    requires forall q :: 0 <= q <= |url| && q != p ==> !SkipAt(url, q)
    ensures NextPageUrl(url) == Some(url[..p] + SkipKey + NatToString(SkipValue(url, p) + SkipStep) + url[MatchEnd(url, p)..])
  {
    NextPageUrlAt(url, p);
    var e := MatchEnd(url, p);
    NoMatchFrom(url, e);
    RewriteWithoutMatch(url[e..], NatToString(SkipValue(url, p) + SkipStep));
  }

  /** A suffix of `s` from `e` on has a match only where `s` has one. */
  lemma NoMatchFrom(s: string, e: nat)
    requires e <= |s|
    requires forall q :: e <= q <= |s| ==> !SkipAt(s, q)
    ensures forall q :: 0 <= q <= |s| - e ==> !SkipAt(s[e..], q)
  {
    forall q | 0 <= q <= |s| - e
      ensures !SkipAt(s[e..], q)
    {
      assert s[e..][q..] == s[e + q..];
      assert !SkipAt(s, e + q);
    }
  }

  /** Whether `skip=\d+` starts at `q < n` depends only on the first `n + 5` characters. */
  lemma SkipAtAgrees(s: string, t: string, n: nat, q: nat)
    requires n + |SkipKey| < |s| && n + |SkipKey| < |t|
    requires s[..n + |SkipKey|] == t[..n + |SkipKey|]
    requires q < n
    ensures SkipAt(s, q) <==> SkipAt(t, q)
  {
    var m := n + |SkipKey|;
    assert s[q..][..|SkipKey|] == s[..m][q..q + |SkipKey|];
    assert t[q..][..|SkipKey|] == t[..m][q..q + |SkipKey|];
    assert s[q..][|SkipKey|] == s[..m][q + |SkipKey|];
    assert t[q..][|SkipKey|] == t[..m][q + |SkipKey|];
  }

  /** Rewriting a text that does not start with a digit gives one that does not either. */
  lemma RewriteStartsWithNonDigit(s: string, v: string)
    requires |s| == 0 || !IsDigit(s[0])
    ensures |Rewrite(s, v)| == 0 || !IsDigit(Rewrite(s, v)[0])
  {
    if |s| > 0 && StartsWithSkip(s) {
      assert Rewrite(s, v)[0] == SkipKey[0];
    }
  }

  /** What follows a `skip=\d+` match does not start with a digit. */
  lemma AfterMatchNonDigit(url: string, p: nat)
    requires SkipAt(url, p)
    ensures MatchEnd(url, p) == |url| || !IsDigit(url[MatchEnd(url, p)])
  {
    assert url[p..][|SkipKey|..] == url[p + |SkipKey|..];
    var d := DigitPrefix(url[p + |SkipKey|..]);
    var e := p + SkipMatchLength(url[p..]);
    assert e == p + |SkipKey| + |d|;
    if e < |url| {
      assert url[e] == url[p + |SkipKey|..][|d|];
    }
  }

  /** `skip=` + digits, followed by a non-digit, is a match whose digits are exactly those. */
  lemma MatchAtSplice(pre: string, next: string, r: string)
    requires IsDigits(next) && |next| > 0
    requires |r| == 0 || !IsDigit(r[0])
    ensures var u := pre + SkipKey + next + r;
            SkipAt(u, |pre|) && DigitPrefix(u[|pre| + |SkipKey|..]) == next
  {
    var u := pre + SkipKey + next + r;
    var p := |pre|;
    assert u[p..] == SkipKey + next + r;
    assert u[p..][..|SkipKey|] == SkipKey;
    assert u[p..][|SkipKey|] == next[0];
    assert u[p + |SkipKey|..] == next + r;
    DigitPrefixOf(next, r);
  }

  /** Replacing what follows `skip=` at the leftmost match adds no earlier match. */
  lemma NoEarlierSplice(url: string, p: nat, rest: string)
    requires LeftmostSkip(url, p)
    requires |rest| > 0
    ensures forall q :: 0 <= q < p ==> !SkipAt(url[..p] + SkipKey + rest, q)
  {
    var u := url[..p] + SkipKey + rest;
    assert u[..p + |SkipKey|] == url[..p + |SkipKey|] by {
      assert u[..p + |SkipKey|] == url[..p] + SkipKey;
      assert url[..p + |SkipKey|] == url[..p] + url[p..][..|SkipKey|];
    }
    forall q | 0 <= q < p
      ensures !SkipAt(u, q)
    {
      SkipAtAgrees(u, url, p, q);
    }
  }

  /**
    A URL that agrees with `url` before its leftmost match at `p` and carries
    `skip=` + `next` there, followed by a non-digit, has its leftmost match at
    `p` with the digits `next`.
   */
  lemma FindSkipReplaced(url: string, p: nat, next: string, r: string, u: string)
    requires LeftmostSkip(url, p)
    requires IsDigits(next) && |next| > 0
    requires |r| == 0 || !IsDigit(r[0])
    requires u == url[..p] + SkipKey + next + r
    ensures FindSkip(u) == Some(SkipHit(p, next))
  {
    MatchAtSplice(url[..p], next, r);
    assert u == url[..p] + SkipKey + (next + r);
    NoEarlierSplice(url, p, next + r);
    FindSkipAt(u, p);
  }

  /** The next URL has its leftmost match where the old one was, carrying the new value. */
  lemma NextPageHit(url: string, p: nat)
    requires LeftmostSkip(url, p)
    ensures NextPageUrl(url).Some?
    ensures FindSkip(NextPageUrl(url).value) == Some(SkipHit(p, NatToString(SkipValue(url, p) + SkipStep)))
  {
    var next := NatToString(SkipValue(url, p) + SkipStep);
    var e := MatchEnd(url, p);
    NextPageUrlAt(url, p);
    AfterMatchNonDigit(url, p);
    RewriteStartsWithNonDigit(url[e..], next);
    FindSkipReplaced(url, p, next, Rewrite(url[e..], next), NextPageUrl(url).value);
  }

  /** Following the next-page URL moves the `skip` value on by ten again. */
  lemma NextPageAdvances(url: string)
    requires NextPageUrl(url).Some?
    ensures NextSkip(NextPageUrl(url).value) == Some(NextSkip(url).value + SkipStep)
  {
    var p := FindSkip(url).value.pos;
    FindSkipLeftmost(url);
    NextPageUrlAt(url, p);
    NextPageHit(url, p);
    var v := SkipValue(url, p) + SkipStep;
    NextSkipOfHit(NextPageUrl(url).value, SkipHit(p, NatToString(v)));
    ParseNatToString(v);
  }
}
