/** The request headers of `get_headers`: a browser profile for landing pages and
    an API profile for the catalog API. */
module Headers {
  import Urls

  const HtmlAccept := "text/html,application/xhtml+xml,application/xml;q=0.9,image/avif,image/webp,image/apng,*/*;q=0.8"
  const AcceptLanguage := "en-US,en;q=0.9"
  const UserAgent := "Mozilla/5.0 (X11; Linux x86_64) AppleWebKit/537.36 (KHTML, like Gecko) Chrome/132.0.0.0 Safari/537.36"
  const ApiCallerId := "nike:dotcom:browse:wall.client:2.0"
  /** The storefront origin the API profile claims, and the referring page. */
  const StoreOrigin := "https://" + Urls.StoreHost
  const StoreReferer := StoreOrigin + "/"

  /** `get_headers(type)`: the browser profile for `"html"`, the API profile for
      every other request type. */
  function GetHeaders(kind: string): (r: map<string, string>)
    ensures kind == "html" ==> r.Keys == {"accept", "accept-language", "user-agent"}
    ensures kind == "html" ==> r["accept"] == HtmlAccept
    ensures kind != "html" ==>
      r.Keys == {"accept", "accept-language", "nike-api-caller-id", "origin", "referer", "user-agent"}
    ensures "accept-language" in r && r["accept-language"] == AcceptLanguage
    ensures "user-agent" in r && r["user-agent"] == UserAgent
    ensures kind != "html" ==> r["accept"] == "*/*" && r["nike-api-caller-id"] == ApiCallerId
    ensures kind != "html" ==> r["origin"] == "https://" + Urls.StoreHost && r["referer"] == r["origin"] + "/"
  {
    if kind == "html" then
      map["accept" := HtmlAccept, "accept-language" := AcceptLanguage, "user-agent" := UserAgent]
    else
      map["accept" := "*/*", "accept-language" := AcceptLanguage,
          "nike-api-caller-id" := ApiCallerId, "origin" := StoreOrigin,
          "referer" := StoreReferer, "user-agent" := UserAgent]
  }

  /** Landing-page and API requests present the same browser identity, and the
      API profile adds its caller id on top of it. */
  lemma SameIdentity(kind1: string, kind2: string)
    ensures GetHeaders(kind1)["user-agent"] == GetHeaders(kind2)["user-agent"]
    ensures GetHeaders(kind1)["accept-language"] == GetHeaders(kind2)["accept-language"]
    ensures GetHeaders("html").Keys < GetHeaders("api").Keys
  {
    assert "nike-api-caller-id" !in GetHeaders("html");
  }
}
