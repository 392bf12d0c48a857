/** The URL record of saba_core/src/url.rs. The constructor does no parsing. */
module Url {

  datatype Url = Url(url: string, host: string, port: string, path: string, searchPart: string)

  /** `Url::new`: the input kept verbatim, every other part empty. */
  function NewUrl(url: string): (u: Url)
  {
    Url(url, "", "", "", "")
  }

  /**
   * Whatever the input, `new` succeeds, keeps the input verbatim and fills
   * in no host, no (default) port, no path and no query.
   */
  lemma NewUrlKeepsInput(url: string)
    ensures NewUrl(url).url == url
    ensures NewUrl(url).host == [] && NewUrl(url).port == []
    ensures NewUrl(url).path == [] && NewUrl(url).searchPart == []
  {
  }

  /** Distinct inputs give distinct records: nothing of the input is dropped. */
  lemma NewUrlInjective(a: string, b: string)
    ensures NewUrl(a) == NewUrl(b) <==> a == b
  {
  }

  /** A full URL with a scheme, an explicit port, a path and a query is not split up. */
  lemma NewUrlDoesNotParse(url: string)
    requires url == "http://example.com:8080/index.html?a=b"
    ensures NewUrl(url).host != "example.com" && NewUrl(url).port != "8080"
    ensures NewUrl(url).path != "index.html" && NewUrl(url).searchPart != "a=b"
  {
  }
}
