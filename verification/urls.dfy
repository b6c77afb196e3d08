/** The URL helpers of the crawler: the category name of a configured URL, the
    path that `extract_path_from_url` takes out of it, the catalog API URL that
    `construct_api_url` builds, and the query-string reading that discovery
    applies to the landing page's deep link. `urlparse` and `parse_qs` are
    modelled for the URL shapes the crawler handles (see README). */
module Urls {
  import opened Wrappers
  import opened Text

  // ---------------------------------------------------------------- categories

  /** `url.split("/")[-1]`: the slug after the last '/'. */
  function LastSegment(url: string): (r: string)
    ensures '/' !in r
  {
    var parts := Split(url, '/');
    parts[|parts| - 1]
  }

  /** `" ".join(url.split("/")[-1].split("-")[:-1])`: the slug's hyphen-separated
      words without the trailing identifier token, joined by spaces. */
  function CategoryName(url: string): (r: string)
    ensures '-' !in r
  {
    var tokens := Split(LastSegment(url), '-');
    var words := tokens[..|tokens| - 1];
    assert forall i :: 0 <= i < |words| ==> words[i] == tokens[i];
    JoinAvoids(words, ' ', '-');
    Join(words, ' ')
  }

  /** A category URL `<prefix>/<word>-...-<word>-<id>` is named by its words. */
  lemma {:induction false} CategoryFromSlug(prefix: string, words: seq<string>, id: string)
    requires forall i :: 0 <= i < |words| ==> '-' !in words[i] && '/' !in words[i]
    requires '-' !in id && '/' !in id
    ensures CategoryName(prefix + "/" + Join(words + [id], '-')) == Join(words, ' ')
  {
    var tokens := words + [id];
    var slug := Join(tokens, '-');
    assert forall i :: 0 <= i < |tokens| ==> '-' !in tokens[i] && '/' !in tokens[i] by {
      forall i | 0 <= i < |tokens| ensures '-' !in tokens[i] && '/' !in tokens[i] {
        if i < |words| { assert tokens[i] == words[i]; } else { assert tokens[i] == id; }
      }
    }
    JoinAvoids(tokens, '-', '/');
    SplitAppend(prefix, slug, '/');
    SplitNoSep(slug, '/');
    assert prefix + "/" + slug == prefix + ['/'] + slug;
    assert LastSegment(prefix + "/" + slug) == slug;
    JoinSplit(tokens, '-');
    assert tokens[..|tokens| - 1] == words;
  }

  /** The storefront host, and the wall directory under which every configured
      category URL sits: a category URL is `Wall + "/" + slug`. */
  const StoreHost := "www.nike.com"
  const CatalogDir := "in/w"
  const Wall := "https://" + StoreHost + "/" + CatalogDir

  lemma MensShoesSlug()
    ensures "mens-shoes-nik1zy7ok" == "mens" + "-" + ("shoes" + "-" + "nik1zy7ok")
  {
  }

  /** The name of the first configured category. */
  lemma MensShoesCategory()
    ensures CategoryName(Wall + "/" + "mens-shoes-nik1zy7ok") == "mens shoes"
  {
    var words := ["mens", "shoes"];
    var t := words + ["nik1zy7ok"];
    CategoryFromSlug(Wall, words, "nik1zy7ok");
    assert t[1..][1..] == ["nik1zy7ok"];
    assert Join(t[1..], '-') == "shoes" + "-" + "nik1zy7ok";
    MensShoesSlug();
    assert Join(t, '-') == "mens-shoes-nik1zy7ok";
    assert words[1..] == ["shoes"];
    assert Join(words, ' ') == "mens" + " " + "shoes";
  }

  lemma AccessoriesSlugHalves()
    ensures "mens-accessories-equipment-awwpwznik1" == "mens-accessories-" + "equipment-awwpwznik1"
  {
  }

  lemma AccessoriesSlug()
    ensures Join(["mens", "accessories", "equipment", "awwpwznik1"], '-')
            == "mens-accessories-equipment-awwpwznik1"
  {
    var t := ["mens", "accessories", "equipment", "awwpwznik1"];
    assert t[1..][1..][1..] == ["awwpwznik1"];
    assert Join(t[1..][1..], '-') == "equipment" + "-" + "awwpwznik1";
    assert Join(t[1..], '-') == "accessories" + "-" + ("equipment" + "-" + "awwpwznik1");
    AccessoriesSlugHalves();
    assert "mens-accessories-" == "mens" + "-" + ("accessories" + "-");
    assert "equipment-awwpwznik1" == "equipment" + "-" + "awwpwznik1";
  }

  lemma AccessoriesWords()
    ensures Join(["mens", "accessories", "equipment"], ' ') == "mens accessories equipment"
  {
    var words := ["mens", "accessories", "equipment"];
    assert words[1..][1..] == ["equipment"];
    assert Join(words[1..], ' ') == "accessories" + " " + "equipment";
  }

  /** The name of the third configured category. */
  lemma MensAccessoriesCategory()
    ensures CategoryName(Wall + "/" + "mens-accessories-equipment-awwpwznik1")
            == "mens accessories equipment"
  {
    var words := ["mens", "accessories", "equipment"];
    CategoryFromSlug(Wall, words, "awwpwznik1");
    assert words + ["awwpwznik1"] == ["mens", "accessories", "equipment", "awwpwznik1"];
    AccessoriesSlug();
    AccessoriesWords();
  }

  // ---------------------------------------------------------------- paths

  predicate IsAsciiLetter(c: char) { 'a' <= c <= 'z' || 'A' <= c <= 'Z' }

  /** The characters `urlsplit` accepts in a scheme. */
  predicate IsSchemeChar(c: char)
  {
    IsAsciiLetter(c) || '0' <= c <= '9' || c == '+' || c == '-' || c == '.'
  }

  /** What `urlsplit` leaves after removing a `scheme:` prefix: the first ':'
      ends a scheme when it is not the first character, the URL starts with a
      letter and everything before the ':' is a scheme character. */
  function AfterScheme(url: string): (r: string)
    ensures |r| <= |url| && r == url[|url| - |r|..]
  {
    var i := IndexOf(url, ':');
    if 0 < i < |url| && IsAsciiLetter(url[0]) && forall k :: 0 <= k < i ==> IsSchemeChar(url[k])
    then url[i + 1..]
    else url
  }

  function Min(a: nat, b: nat): nat { if a <= b then a else b }

  /** What `urlsplit` leaves after removing a `//netloc` authority: the netloc
      runs to the first '/', '?' or '#'. */
  function AfterNetloc(rest: string): string
  {
    if |rest| >= 2 && rest[..2] == "//" then
      var tail := rest[2..];
      tail[Min(IndexOf(tail, '/'), Min(IndexOf(tail, '?'), IndexOf(tail, '#')))..]
    else rest
  }

  /** `urlparse(url).path`: the text after scheme and netloc, up to the query or fragment. */
  function UrlPath(url: string): (r: string)
    ensures '?' !in r && '#' !in r
  {
    CutAt(CutAt(AfterNetloc(AfterScheme(url)), '#'), '?')
  }

  /** `extract_path_from_url`: the URL path without its leading slashes. */
  function ExtractPath(url: string): (r: string)
    ensures r == [] || r[0] != '/'
    ensures '?' !in r && '#' !in r
  {
    LStrip(UrlPath(url), '/')
  }

  lemma AfterHttpsScheme(rest: string)
    ensures AfterScheme("https:" + rest) == rest
  {
    var url := "https:" + rest;
    assert url == "https" + (":" + rest) && (":" + rest)[0] == ':';
    IndexOfAppend("https", ":" + rest, ':');
    assert forall k :: 0 <= k < 5 ==> url[k] == "https"[k];
    assert url[6..] == rest;
  }

  /** The netloc of `host/rest` ends where `host` does. */
  lemma NetlocEnd(host: string, rest: string)
    requires '/' !in host && '?' !in host && '#' !in host
    requires rest != [] && rest[0] == '/'
    ensures Min(IndexOf(host + rest, '/'), Min(IndexOf(host + rest, '?'), IndexOf(host + rest, '#'))) == |host|
  {
    IndexOfAppend(host, rest, '/');
    IndexOfAppend(host, rest, '?');
    IndexOfAppend(host, rest, '#');
  }

  lemma AfterHostNetloc(host: string, path: string)
    requires '/' !in host && '?' !in host && '#' !in host
    ensures AfterNetloc("//" + host + "/" + path) == "/" + path
  {
    var rest := "/" + path;
    var tail := host + rest;
    var url := "//" + tail;
    assert "//" + host + "/" + path == url;
    assert url[..2] == "//" && url[2..] == tail;
    NetlocEnd(host, rest);
    assert tail[|host|..] == rest;
  }

  /** For an `https://host/path` URL the extracted path is the path itself. */
  lemma {:induction false} ExtractPathOfPage(host: string, path: string)
    requires '/' !in host && '?' !in host && '#' !in host
    requires '?' !in path && '#' !in path
    requires path == [] || path[0] != '/'
    ensures ExtractPath("https://" + host + "/" + path) == path
  {
    var rest := "//" + host + "/" + path;
    assert "https://" + host + "/" + path == "https:" + rest;
    AfterHttpsScheme(rest);
    AfterHostNetloc(host, path);
    assert UrlPath("https:" + rest) == "/" + path by {
      assert '?' !in "/" + path && '#' !in "/" + path;
    }
    assert ("/" + path)[1..] == path;
  }

  lemma SlashAssoc(prefix: string, dir: string, slug: string)
    ensures prefix + dir + "/" + slug == prefix + (dir + "/" + slug)
  {
  }

  /** For a category URL `https://host/dir/slug` the extracted path is `dir/slug`. */
  lemma ExtractPathOfCategory(host: string, dir: string, slug: string)
    requires '/' !in host && '?' !in host && '#' !in host
    requires '?' !in dir && '#' !in dir && dir != [] && dir[0] != '/'
    requires '?' !in slug && '#' !in slug
    ensures ExtractPath("https://" + host + "/" + dir + "/" + slug) == dir + "/" + slug
  {
    var path := dir + "/" + slug;
    assert path[0] == dir[0];
    ExtractPathOfPage(host, path);
    SlashAssoc("https://" + host + "/", dir, slug);
  }

  lemma StoreHostPlain() ensures '/' !in StoreHost && '?' !in StoreHost && '#' !in StoreHost {}

  /** The path of the first configured category URL. */
  lemma MensShoesPath()
    ensures ExtractPath(Wall + "/" + "mens-shoes-nik1zy7ok") == CatalogDir + "/" + "mens-shoes-nik1zy7ok"
  {
    StoreHostPlain();
    assert CatalogDir[0] == 'i' && '?' !in CatalogDir && '#' !in CatalogDir;
    assert '?' !in "mens-shoes-nik1zy7ok" && '#' !in "mens-shoes-nik1zy7ok";
    ExtractPathOfCategory(StoreHost, CatalogDir, "mens-shoes-nik1zy7ok");
  }

  // ---------------------------------------------------------------- queries

  /** `urlparse(url).query`: the text after the first '?' that precedes any '#'. */
  function QueryOf(url: string): (r: string)
    ensures '#' !in r
  {
    var u := CutAt(url, '#');
    var i := IndexOf(u, '?');
    if i < |u| then u[i + 1..] else ""
  }

  /** `parse_qsl` without percent-decoding: `&`-separated fields, each split at
      its first '='; a field without '=' or with an empty value is dropped. */
  function ParsePairs(fields: seq<string>): (r: seq<(string, string)>)
    ensures forall i :: 0 <= i < |r| ==> r[i].1 != ""
    ensures |r| <= |fields|
  {
    if fields == [] then []
    else
      var f := fields[0];
      var k := IndexOf(f, '=');
      (if k + 1 < |f| then [(f[..k], f[k + 1..])] else []) + ParsePairs(fields[1..])
  }

  function QueryPairs(query: string): seq<(string, string)>
  {
    ParsePairs(Split(query, '&'))
  }

  /** The position of the first pair named `key`, or `|pairs|`. */
  function FindKey(pairs: seq<(string, string)>, key: string): (r: nat)
    ensures r <= |pairs|
    ensures forall j :: 0 <= j < r ==> pairs[j].0 != key
    ensures r < |pairs| ==> pairs[r].0 == key
  {
    if pairs == [] then 0
    else if pairs[0].0 == key then 0
    else 1 + FindKey(pairs[1..], key)
  }

  /** `parse_qs(query)[key][0]`, or None when `key` is not in the dictionary. */
  function Lookup(pairs: seq<(string, string)>, key: string): (r: Option<string>)
    ensures r.None? <==> forall i :: 0 <= i < |pairs| ==> pairs[i].0 != key
    ensures r.Some? ==> exists i :: 0 <= i < |pairs| && pairs[i] == (key, r.value)
                                    && forall j :: 0 <= j < i ==> pairs[j].0 != key
  {
    var i := FindKey(pairs, key);
    if i < |pairs| then
      assert pairs[i] == (key, pairs[i].1);
      Some(pairs[i].1)
    else None
  }

  lemma {:induction false} ParsePairsAppend(a: seq<string>, b: seq<string>)
    ensures ParsePairs(a + b) == ParsePairs(a) + ParsePairs(b)
  {
    if a != [] {
      assert (a + b)[0] == a[0] && (a + b)[1..] == a[1..] + b;
      ParsePairsAppend(a[1..], b);
    } else {
      assert a + b == b;
    }
  }

  /** A field `key=value` with no '=' in the key parses to that pair. */
  lemma ParseField(key: string, value: string)
    requires '=' !in key && value != ""
    ensures ParsePairs([Param(key, value)]) == [(key, value)]
  {
    var f := Param(key, value);
    assert f[|key|] == '=';
    assert forall i :: 0 <= i < |key| ==> f[i] == key[i];
    assert IndexOf(f, '=') == |key|;
    assert f[..|key|] == key && f[|key| + 1..] == value;
  }

  /** A leading field `key=value` is the first pair read. */
  lemma LeadingParam(key: string, value: string, rest: seq<string>)
    requires '=' !in key && value != ""
    ensures ParsePairs([Param(key, value)] + rest) != []
    ensures ParsePairs([Param(key, value)] + rest)[0] == (key, value)
  {
    var fields := [Param(key, value)] + rest;
    assert fields[0] == Param(key, value) && fields[1..] == rest;
    ParsePairsCons(fields);
    ParseField(key, value);
  }

  /** Keys and values without '&' or '#' give a field without them. */
  lemma ParamAvoids(key: string, value: string, x: char)
    requires x != '=' && x !in key && x !in value
    ensures x !in Param(key, value)
  {
  }

  // ---------------------------------------------------------------- API URL

  /** The catalog API host; `pages.next` cursors are paths relative to it. */
  const ApiHost := "https://api.nike.com"
  const ApiBase := ApiHost + "/discover/product_wall/v1"
  const Marketplace := "IN"
  const Language := "en-GB"
  const ConsumerChannelId := "d9a5bc42-4b9c-4976-858a-f159cf99c647"
  /** The `anchor` and `count` query parameters, already formatted. */
  const Anchor := "0"
  const Count := "100"

  /** The catalog API address for one category, before the '?'. */
  const ApiEndpoint := ApiBase + "/marketplace/" + Marketplace + "/language/" + Language
                       + "/consumerChannelId/" + ConsumerChannelId

  /** A `key=value` query field. */
  function Param(key: string, value: string): string { key + "=" + value }

  /** The five fields of the API query, in the order `construct_api_url` writes them. */
  function ApiFields(conceptIds: string, path: string): seq<string>
  {
    [Param("path", path), Param("attributeIds", conceptIds), Param("queryType", "PRODUCTS"),
     Param("anchor", Anchor), Param("count", Count)]
  }

  /** The query string `construct_api_url` writes after the endpoint's '?'. */
  function ApiQuery(conceptIds: string, path: string): string
  {
    Join(ApiFields(conceptIds, path), '&')
  }

  /** `construct_api_url(concept_ids, path)`. */
  function ConstructApiUrl(conceptIds: string, path: string): (r: string)
    ensures ApiEndpoint <= r
  {
    ApiEndpoint + "?" + ApiQuery(conceptIds, path)
  }

  lemma EndpointPlain()
    ensures '#' !in ApiEndpoint && '?' !in ApiEndpoint
  {
    HostPlain();
    BasePathPlain();
    ChannelPlain();
    SegmentsPlain();
  }

  lemma HostPlain() ensures '#' !in ApiHost && '?' !in ApiHost {}

  lemma BasePathPlain()
    ensures '#' !in "/discover/product_wall/v1" && '?' !in "/discover/product_wall/v1"
  {
  }

  lemma ChannelPlain() ensures '#' !in ConsumerChannelId && '?' !in ConsumerChannelId {}

  lemma SegmentsPlain()
    ensures '#' !in "/marketplace/" + Marketplace + "/language/" + Language + "/consumerChannelId/"
    ensures '?' !in "/marketplace/" + Marketplace + "/language/" + Language + "/consumerChannelId/"
  {
    assert '#' !in "/marketplace/" && '?' !in "/marketplace/";
    assert '#' !in "/consumerChannelId/" && '?' !in "/consumerChannelId/";
  }

  /** The query of `base?q` is `q` when `base` has no '?' or '#' and `q` no '#'. */
  lemma QueryAfterMark(base: string, q: string)
    requires '?' !in base && '#' !in base && '#' !in q
    ensures QueryOf(base + "?" + q) == q
  {
    var url := base + ("?" + q);
    assert base + "?" + q == url;
    assert '#' !in url;
    IndexOfAppend(base, "?" + q, '?');
    assert ("?" + q)[0] == '?';
    assert url[|base| + 1..] == q;
  }

  /** The pairs read from `base?f1&...&fn` are the parsed fields, when `base`
      has no '?' or '#' and no field holds '&' or '#'. */
  lemma QueryPairsOf(base: string, fields: seq<string>)
    requires '?' !in base && '#' !in base
    requires fields != []
    requires forall i :: 0 <= i < |fields| ==> '&' !in fields[i] && '#' !in fields[i]
    ensures QueryPairs(QueryOf(base + "?" + Join(fields, '&'))) == ParsePairs(fields)
  {
    JoinAvoids(fields, '&', '#');
    QueryAfterMark(base, Join(fields, '&'));
    JoinSplit(fields, '&');
  }

  /** Reading the query back out of a constructed API URL gives the path, the
      concept ids and the three fixed parameters, in that order. */
  lemma {:induction false} ApiUrlQuery(conceptIds: string, path: string)
    requires conceptIds != "" && path != ""
    requires '&' !in conceptIds && '#' !in conceptIds
    requires '&' !in path && '#' !in path
    ensures QueryPairs(QueryOf(ConstructApiUrl(conceptIds, path)))
            == [("path", path), ("attributeIds", conceptIds),
                ("queryType", "PRODUCTS"), ("anchor", Anchor), ("count", Count)]
  {
    var fields := ApiFields(conceptIds, path);
    ApiFieldsAvoid(conceptIds, path, '&');
    ApiFieldsAvoid(conceptIds, path, '#');
    EndpointPlain();
    QueryPairsOf(ApiEndpoint, fields);
    ParseFields(fields, conceptIds, path);
  }

  /** The concept ids a constructed API URL carries can be read back from it. */
  lemma ApiUrlCarriesConceptIds(conceptIds: string, path: string)
    requires conceptIds != "" && path != ""
    requires '&' !in conceptIds && '#' !in conceptIds
    requires '&' !in path && '#' !in path
    ensures Lookup(QueryPairs(QueryOf(ConstructApiUrl(conceptIds, path))), "attributeIds")
            == Some(conceptIds)
    ensures Lookup(QueryPairs(QueryOf(ConstructApiUrl(conceptIds, path))), "path") == Some(path)
  {
    ApiUrlQuery(conceptIds, path);
    var pairs := QueryPairs(QueryOf(ConstructApiUrl(conceptIds, path)));
    assert pairs[0].0 == "path";
    assert pairs[0].0 != "attributeIds" && pairs[1].0 == "attributeIds";
    assert FindKey(pairs, "attributeIds") == 1;
  }

  /** The fixed parts of the API fields contain no separator or fragment mark. */
  lemma ApiFieldsAvoid(conceptIds: string, path: string, x: char)
    requires x == '&' || x == '#'
    requires x !in conceptIds && x !in path
    ensures forall i :: 0 <= i < |ApiFields(conceptIds, path)| ==> x !in ApiFields(conceptIds, path)[i]
  {
    var fields := ApiFields(conceptIds, path);
    assert x !in fields[0] && x !in fields[1] && x !in fields[2] && x !in fields[3] && x !in fields[4];
  }

  lemma ParseFields(fields: seq<string>, conceptIds: string, path: string)
    requires conceptIds != "" && path != ""
    requires fields == ApiFields(conceptIds, path)
    ensures ParsePairs(fields) == [("path", path), ("attributeIds", conceptIds),
                                   ("queryType", "PRODUCTS"), ("anchor", Anchor), ("count", Count)]
  {
    ParseField("path", path);
    ParseField("attributeIds", conceptIds);
    ParseFixed();
    ParseFive(fields[0], fields[1], fields[2], fields[3], fields[4],
              ("path", path), ("attributeIds", conceptIds),
              ("queryType", "PRODUCTS"), ("anchor", Anchor), ("count", Count));
    assert fields == [fields[0], fields[1], fields[2], fields[3], fields[4]];
  }

  lemma ParseFixed()
    ensures ParsePairs([Param("queryType", "PRODUCTS")]) == [("queryType", "PRODUCTS")]
    ensures ParsePairs([Param("anchor", Anchor)]) == [("anchor", Anchor)]
    ensures ParsePairs([Param("count", Count)]) == [("count", Count)]
  {
    ParseField("queryType", "PRODUCTS");
    ParseField("anchor", Anchor);
    ParseField("count", Count);
  }

  /** Five fields that each parse to one pair parse to the five pairs. */
  lemma ParseFive(a: string, b: string, c: string, d: string, e: string,
                  pa: (string, string), pb: (string, string), pc: (string, string),
                  pd: (string, string), pe: (string, string))
    requires ParsePairs([a]) == [pa] && ParsePairs([b]) == [pb] && ParsePairs([c]) == [pc]
    requires ParsePairs([d]) == [pd] && ParsePairs([e]) == [pe]
    ensures ParsePairs([a, b, c, d, e]) == [pa, pb, pc, pd, pe]
  {
    ParsePairsCons([a, b, c, d, e]);
    assert [a, b, c, d, e][1..] == [b, c, d, e];
    ParsePairsCons([b, c, d, e]);
    assert [b, c, d, e][1..] == [c, d, e];
    ParsePairsCons([c, d, e]);
    assert [c, d, e][1..] == [d, e];
    ParsePairsCons([d, e]);
    assert [d, e][1..] == [e];
    assert [pa] + ([pb] + ([pc] + ([pd] + [pe]))) == [pa, pb, pc, pd, pe];
  }

  lemma ParsePairsCons(fields: seq<string>)
    requires fields != []
    ensures ParsePairs(fields) == ParsePairs([fields[0]]) + ParsePairs(fields[1..])
  {
    assert [fields[0]][1..] == [];
  }
}
