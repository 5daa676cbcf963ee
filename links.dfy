/**
  The two URL rules that type2.py and main.py share: relative links are made
  absolute against the site root, and listing pages are addressed by a
  `skip=<n>` offset appended to a base URL.
 */
module Links {
  import opened Text

  const GovSite: string := "https://www.gov.il"

  /** A href that starts with `/` is prefixed by the site root; any other is kept. */
  function Absolutise(href: string): string
  {
    if StartsWith(href, "/") then GovSite + href else href
  }

  /**
    Exactly the hrefs that start with `/` change, and they gain the site root;
    no result starts with `/`, so absolutising twice changes nothing.
   */
  lemma AbsolutiseSpec(href: string)
    ensures StartsWith(href, "/") ==> Absolutise(href) == GovSite + href
    ensures !StartsWith(href, "/") ==> Absolutise(href) == href
    ensures !StartsWith(Absolutise(href), "/")
    ensures Absolutise(Absolutise(href)) == Absolutise(href)
  {
    assert (GovSite + href)[..1] == "h";
  }

  /** `f"{base}{sep}skip={skip}"` */
  function SkipUrl(base: string, sep: string, skip: nat): string
  {
    base + sep + "skip=" + NatToString(skip)
  }

  /** Different offsets address different pages: no page URL is built twice. */
  lemma SkipUrlInjective(base: string, sep: string, a: nat, b: nat)
    requires SkipUrl(base, sep, a) == SkipUrl(base, sep, b)
    ensures a == b
  {
    var k := |base + sep + "skip="|;
    assert SkipUrl(base, sep, a)[k..] == NatToString(a);
    assert SkipUrl(base, sep, b)[k..] == NatToString(b);
    NatToStringInjective(a, b);
  }
}
