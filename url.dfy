/** `format_url`: give a URL the `https:` scheme when it has neither `http://` nor `https://`. */
module Urls {

  const Http: string := "http://"
  const Https: string := "https://"

  predicate HasWebScheme(url: string)
  {
    Http <= url || Https <= url
  }

  /**
   * A URL with a web scheme is returned as it is; any other gets "https:" in front, so the
   * result has a web scheme exactly when the input had one or began with "//" (a
   * protocol-relative URL). The input always survives as the result's suffix.
   */
  function FormatUrl(url: string): (r: string)
    ensures HasWebScheme(url) ==> r == url
    ensures !HasWebScheme(url) ==> r == "https:" + url
    ensures HasWebScheme(r) <==> HasWebScheme(url) || "//" <= url
    ensures "//" <= url ==> Https <= r
    ensures |url| <= |r| && r[|r| - |url|..] == url
  {
    if !HasWebScheme(url) then
      PrefixedScheme(url);
      "https:" + url
    else
      assert url[0] == 'h';
      url
  }

  /** Prefixing "https:" gives a web scheme exactly when the text began with "//". */
  lemma PrefixedScheme(url: string)
    ensures HasWebScheme("https:" + url) <==> "//" <= url
    ensures "//" <= url ==> Https <= "https:" + url
  {
    var r := "https:" + url;
    assert r[4] == 's' && Http[4] == ':';
    assert !(Http <= r);
    if "//" <= url {
      assert url[..2] == "//";
      assert r[..8] == "https:" + url[..2] == Https;
    }
    if Https <= r {
      assert |url| >= 2 && url[..2] == r[6..8] == Https[6..8];
    }
  }

  /** Formatting twice gives the same as formatting once exactly for the inputs whose result has a web scheme. */
  lemma FormatUrlIdempotentIff(url: string)
    ensures FormatUrl(FormatUrl(url)) == FormatUrl(url) <==> HasWebScheme(url) || "//" <= url
  {
    var r := FormatUrl(url);
    if !HasWebScheme(r) {
      assert |FormatUrl(r)| == |r| + 6;
    }
  }

  /** A bare host name gets "https:" without the slashes, so the result still lacks a web scheme and a second pass changes it again. */
  lemma FormatUrlBareHost()
    ensures FormatUrl("example.com") == "https:example.com"
    ensures !HasWebScheme(FormatUrl("example.com"))
    ensures FormatUrl(FormatUrl("example.com")) != FormatUrl("example.com")
  {
    var url := "example.com";
    assert url[0] == 'e';
    assert !HasWebScheme(url) && !("//" <= url);
    FormatUrlIdempotentIff(url);
  }
}
