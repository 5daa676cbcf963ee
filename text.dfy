/**
  String primitives the scraper takes from Python: prefix and substring tests,
  `str.find`, `str.split`, the ASCII digits that `\d` matches, `int()` on a
  digit string and `str()` on a natural number.
 */
module Text {
  import opened Wrappers

  /** `s.startswith(p)` */
  predicate StartsWith(s: string, p: string)
  {
    |p| <= |s| && s[..|p|] == p
  }

  /** `p` occurs in `s` starting at index `i`. */
  predicate OccursAt(s: string, p: string, i: nat)
  {
    i + |p| <= |s| && s[i..i + |p|] == p
  }

  /** `s[i..]` starts with `p` exactly when `p` occurs at `i`. */
  lemma StartsWithSuffix(s: string, p: string, i: nat)
    requires i <= |s|
    ensures StartsWith(s[i..], p) <==> OccursAt(s, p, i)
  {
    if i + |p| <= |s| {
      assert s[i..][..|p|] == s[i..i + |p|];
    }
  }

  /** `a + b` occurs at `i` exactly when `a` does and `b` follows it. */
  lemma OccursAtConcat(s: string, a: string, b: string, i: nat)
    ensures OccursAt(s, a + b, i) <==> OccursAt(s, a, i) && OccursAt(s, b, i + |a|)
  {
    if i + |a| + |b| <= |s| {
      var w := s[i..i + |a| + |b|];
      assert s[i..i + |a|] == w[..|a|];
      assert s[i + |a|..i + |a| + |b|] == w[|a|..];
      assert w == w[..|a|] + w[|a|..];
    }
  }

  /** `s.find(p, from)`: the leftmost occurrence of `p` at or after `from`. */
  function IndexOf(s: string, p: string, from: nat): (r: Option<nat>)
    requires from <= |s|
    ensures r.Some? ==> from <= r.value && OccursAt(s, p, r.value)
    ensures r.Some? ==> forall i :: from <= i < r.value ==> !OccursAt(s, p, i)
    ensures r.None? ==> forall i :: from <= i <= |s| ==> !OccursAt(s, p, i)
    decreases |s| - from
  {
    if OccursAt(s, p, from) then Some(from)
    else if from == |s| then None
    else IndexOf(s, p, from + 1)
  }

  /** `p in s` for strings: `p` starts `s` or one of its suffixes. */
  predicate Contains(s: string, p: string)
    decreases |s|
  {
    StartsWith(s, p) || (|s| > 0 && Contains(s[1..], p))
  }

  /** `p in s` holds exactly when `p` occurs at some index of `s`. */
  lemma {:induction false} ContainsIff(s: string, p: string)
    ensures Contains(s, p) <==> exists i :: 0 <= i <= |s| && OccursAt(s, p, i)
    decreases |s|
  {
    assert StartsWith(s, p) <==> OccursAt(s, p, 0);
    if |s| > 0 {
      ContainsIff(s[1..], p);
      forall i | 1 <= i <= |s|
        ensures OccursAt(s, p, i) <==> OccursAt(s[1..], p, i - 1)
      {
        if i + |p| <= |s| {
          assert s[1..][i - 1..i - 1 + |p|] == s[i..i + |p|];
        }
      }
      if Contains(s[1..], p) {
        var i :| 0 <= i <= |s| - 1 && OccursAt(s[1..], p, i);
        assert OccursAt(s, p, i + 1);
      }
    }
  }

  /** `s.find(p) != -1` is `p in s`. */
  lemma IndexOfFinds(s: string, p: string)
    ensures IndexOf(s, p, 0).Some? <==> Contains(s, p)
  {
    ContainsIff(s, p);
  }

  /** An occurrence inside a prefix of `s` is an occurrence in `s`. */
  lemma OccursInPrefix(s: string, j: nat, p: string, i: nat)
    requires j <= |s| && OccursAt(s[..j], p, i)
    ensures OccursAt(s, p, i) && i + |p| <= j
  {
    assert s[..j][i..i + |p|] == s[i..i + |p|];
  }

  /** An occurrence inside a suffix of `s` is an occurrence in `s`, shifted. */
  lemma OccursInSuffix(s: string, j: nat, p: string, i: nat)
    requires j <= |s|
    ensures OccursAt(s[j..], p, i) <==> OccursAt(s, p, j + i)
  {
    if i + |p| <= |s| - j {
      assert s[j..][i..i + |p|] == s[j + i..j + i + |p|];
    }
  }

  /** `sep.join(parts)` */
  function Join(parts: seq<string>, sep: string): string
  {
    if |parts| == 0 then ""
    else if |parts| == 1 then parts[0]
    else parts[0] + sep + Join(parts[1..], sep)
  }

  /**
    `s.split(sep)` for a non-empty separator (Python raises ValueError on an
    empty one): the text between successive leftmost, non-overlapping
    occurrences of `sep`.
   */
  function Split(s: string, sep: string): (parts: seq<string>)
    requires |sep| > 0
    ensures |parts| >= 1
    ensures Join(parts, sep) == s
    decreases |s|
  {
    match IndexOf(s, sep, 0)
    case None => [s]
    case Some(j) =>
      assert s == s[..j] + sep + s[j + |sep|..];
      [s[..j]] + Split(s[j + |sep|..], sep)
  }

  /** No piece of a split holds the separator, and there is one piece exactly when there is no separator. */
  lemma {:induction false} SplitPieces(s: string, sep: string)
    requires |sep| > 0
    ensures forall k :: 0 <= k < |Split(s, sep)| ==> !Contains(Split(s, sep)[k], sep)
    ensures |Split(s, sep)| == 1 <==> !Contains(s, sep)
    decreases |s|
  {
    match IndexOf(s, sep, 0)
    case None =>
      IndexOfFinds(s, sep);
    case Some(j) =>
      var head := s[..j];
      var rest := s[j + |sep|..];
      assert Split(s, sep) == [head] + Split(rest, sep);
      assert !Contains(head, sep) by {
        ContainsIff(head, sep);
        forall i | 0 <= i <= |head| && OccursAt(head, sep, i)
          ensures false
        {
          OccursInPrefix(s, j, sep, i);
        }
      }
      SplitPieces(rest, sep);
      IndexOfFinds(s, sep);
      assert |Split(rest, sep)| >= 1;
  }

  /** The first piece of a split runs up to the first separator, or is all of `s`. Unfolding step: it restates one case of the definition so proofs can cite it by name. */
  lemma SplitHead(s: string, sep: string)
    requires |sep| > 0
    ensures IndexOf(s, sep, 0).None? ==> Split(s, sep)[0] == s
    ensures IndexOf(s, sep, 0).Some? ==> Split(s, sep)[0] == s[..IndexOf(s, sep, 0).value]
  {
  }

  /** After the first separator, splitting continues on the rest of the text. Unfolding step: it restates one case of the definition so proofs can cite it by name. */
  lemma SplitTail(s: string, sep: string, j: nat)
    requires |sep| > 0 && j <= |s|
    requires IndexOf(s, sep, 0) == Some(j)
    ensures |Split(s, sep)| > 1
    ensures j + |sep| <= |s|
    ensures Split(s, sep)[1] == Split(s[j + |sep|..], sep)[0]
  {
  }

  /**
    With the first separator at `i`, the second piece of a split is the text
    after it, up to the next separator or to the end.
   */
  lemma SplitSecondPiece(s: string, sep: string, i: nat)
    requires |sep| > 0
    requires OccursAt(s, sep, i)
    requires forall q :: 0 <= q < i ==> !OccursAt(s, sep, q)
    ensures |Split(s, sep)| > 1
    ensures var r := Split(s, sep)[1];
            var rest := s[i + |sep|..];
            && StartsWith(rest, r)
            && (|r| == |rest| || StartsWith(rest[|r|..], sep))
  {
    assert IndexOf(s, sep, 0) == Some(i);
    SplitTail(s, sep, i);
    var rest := s[i + |sep|..];
    SplitHead(rest, sep);
    match IndexOf(rest, sep, 0)
    case None =>
    case Some(j) =>
      StartsWithSuffix(rest, sep, j);
  }

  /** The ASCII digits, the characters `\d` stands for in this model. */
  predicate IsDigit(c: char)
  {
    '0' <= c <= '9'
  }

  predicate IsDigits(s: string)
  {
    forall i :: 0 <= i < |s| ==> IsDigit(s[i])
  }

  /** The longest run of digits at the start of `s` (what greedy `\d+` takes). */
  function DigitPrefix(s: string): (d: string)
    ensures IsDigits(d) && StartsWith(s, d)
    ensures |d| == |s| || !IsDigit(s[|d|])
  {
    if |s| > 0 && IsDigit(s[0]) then [s[0]] + DigitPrefix(s[1..]) else ""
  }

  /** A digit run followed by a non-digit (or nothing) is exactly the greedy run. */
  lemma {:induction false} DigitPrefixOf(d: string, rest: string)
    requires IsDigits(d)
    requires |rest| == 0 || !IsDigit(rest[0])
    ensures DigitPrefix(d + rest) == d
  {
    if |d| > 0 {
      assert (d + rest)[1..] == d[1..] + rest;
      DigitPrefixOf(d[1..], rest);
    } else {
      assert d + rest == rest;
    }
  }

  /** The digit run read at `i` is a digit string occurring at `i`. */
  lemma DigitRunOccurs(s: string, i: nat, d: string)
    requires i <= |s| && d == DigitPrefix(s[i..])
    ensures IsDigits(d) && OccursAt(s, d, i)
  {
    StartsWithSuffix(s, d, i);
  }

  /** A digit run at `i` followed by a non-digit (or the end) is the greedy run there. */
  lemma DigitRunAt(s: string, d: string, i: nat)
    requires OccursAt(s, d, i) && IsDigits(d)
    requires i + |d| == |s| || !IsDigit(s[i + |d|])
    ensures DigitPrefix(s[i..]) == d
  {
    var rest := s[i + |d|..];
    assert s[i..] == d + rest;
    DigitPrefixOf(d, rest);
  }

  function DigitValue(c: char): (v: nat)
    requires IsDigit(c)
    ensures v < 10
  {
    (c as int) - ('0' as int)
  }

  function DigitChar(v: nat): (c: char)
    requires v < 10
    ensures IsDigit(c) && DigitValue(c) == v
  {
    (('0' as int) + v) as char
  }

  /** `int(s)` for a string of decimal digits. */
  function ParseDigits(s: string): nat
    requires IsDigits(s)
  {
    if |s| == 0 then 0
    else ParseDigits(s[..|s| - 1]) * 10 + DigitValue(s[|s| - 1])
  }

  /** `str(n)`: the decimal digits of `n`, without leading zeros. */
  function NatToString(n: nat): (s: string)
    ensures |s| > 0 && IsDigits(s)
    ensures |s| > 1 ==> s[0] != '0'
  {
    if n < 10 then [DigitChar(n)]
    else NatToString(n / 10) + [DigitChar(n % 10)]
  }

  /** `int(str(n)) == n` */
  lemma {:induction false} ParseNatToString(n: nat)
    ensures ParseDigits(NatToString(n)) == n
  {
    var s := NatToString(n);
    if n >= 10 {
      ParseNatToString(n / 10);
      assert s[..|s| - 1] == NatToString(n / 10);
    }
  }

  /** `str` never maps two numbers to the same text. */
  lemma NatToStringInjective(m: nat, n: nat)
    requires NatToString(m) == NatToString(n)
    ensures m == n
  {
    ParseNatToString(m);
    ParseNatToString(n);
  }
}
