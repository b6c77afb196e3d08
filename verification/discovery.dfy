/** `extract_concept_ids`: the category identifier read from the deep link that
    a category landing page carries in its `branch:deeplink:$deeplink_path` meta tag. */
module Discovery {
  import opened Wrappers
  import opened Text
  import opened Urls

  /** What fetching and parsing a landing page yields. `Unreachable` stands for
      any exception on the way (transport error, unreadable body); otherwise
      `deeplink` is the tag's `content` attribute, `None` when the tag or the
      attribute is missing. */
  datatype Landing = Unreachable | Landing(deeplink: Option<string>)

  /** The query parameter that names the category. */
  const ConceptKey := "conceptid"

  /** The query pairs of a deep link. */
  function DeeplinkPairs(deeplink: string): seq<(string, string)>
  {
    QueryPairs(QueryOf(deeplink))
  }

  /** `extract_concept_ids(session, url)` for the landing page `landing`. */
  function ExtractConceptIds(landing: Landing): (r: Option<string>)
    ensures landing.Unreachable? ==> r == None
    ensures landing.Landing? && (landing.deeplink == None || landing.deeplink == Some("")) ==> r == None
    ensures r.Some? ==> r.value != ""
  {
    match landing
    case Unreachable => None
    case Landing(deeplink) =>
      if deeplink.None? || deeplink.value == "" then None
      else Lookup(DeeplinkPairs(deeplink.value), ConceptKey)
  }

  /** A non-empty deep link yields `v` exactly when its first `conceptid`
      parameter has the value `v`; later repetitions are ignored. */
  lemma ConceptIdIsFirst(deeplink: string, v: string)
    requires deeplink != ""
    ensures ExtractConceptIds(Landing(Some(deeplink))) == Some(v) <==>
            exists i :: 0 <= i < |DeeplinkPairs(deeplink)| && DeeplinkPairs(deeplink)[i] == (ConceptKey, v)
                        && forall j :: 0 <= j < i ==> DeeplinkPairs(deeplink)[j].0 != ConceptKey
  {
    var pairs := DeeplinkPairs(deeplink);
    var k := FindKey(pairs, ConceptKey);
    if ExtractConceptIds(Landing(Some(deeplink))) == Some(v) {
      assert k < |pairs| && pairs[k] == (ConceptKey, v);
    }
    if i :| 0 <= i < |pairs| && pairs[i] == (ConceptKey, v) && forall j :: 0 <= j < i ==> pairs[j].0 != ConceptKey {
      assert k == i;
    }
  }

  /** A deep link without a `conceptid` parameter yields no identifier. */
  lemma NoConceptId(deeplink: string)
    requires forall i :: 0 <= i < |DeeplinkPairs(deeplink)| ==> DeeplinkPairs(deeplink)[i].0 != ConceptKey
    ensures ExtractConceptIds(Landing(Some(deeplink))) == None
  {
    var pairs := DeeplinkPairs(deeplink);
    if deeplink != "" {
      assert FindKey(pairs, ConceptKey) == |pairs|;
    }
  }

  /** A deep link `base?f1&...&fn` is read field by field. */
  lemma DeeplinkFields(base: string, fields: seq<string>)
    requires '?' !in base && '#' !in base
    requires fields != []
    requires forall i :: 0 <= i < |fields| ==> '&' !in fields[i] && '#' !in fields[i]
    ensures DeeplinkPairs(base + "?" + Join(fields, '&')) == ParsePairs(fields)
  {
    QueryPairsOf(base, fields);
  }

  lemma ConceptKeyPlain() ensures '&' !in ConceptKey && '#' !in ConceptKey && '=' !in ConceptKey {}

  /** The deep link `base?conceptid=v&rest` names the category `v`. */
  lemma ConceptIdLeading(base: string, v: string, rest: seq<string>)
    requires '?' !in base && '#' !in base
    requires v != "" && '&' !in v && '#' !in v
    requires forall i :: 0 <= i < |rest| ==> '&' !in rest[i] && '#' !in rest[i]
    ensures ExtractConceptIds(Landing(Some(base + "?" + Join([Param(ConceptKey, v)] + rest, '&'))))
            == Some(v)
  {
    var fields := [Param(ConceptKey, v)] + rest;
    var deeplink := base + "?" + Join(fields, '&');
    assert deeplink[|base|] == '?';
    LeadingFieldsAvoid(v, rest);
    DeeplinkFields(base, fields);
    ConceptKeyPlain();
    LeadingParam(ConceptKey, v, rest);
    LookupLeading(DeeplinkPairs(deeplink), ConceptKey, v);
  }

  /** The fields of `conceptid=v&rest` contain neither '&' nor '#'. */
  lemma LeadingFieldsAvoid(v: string, rest: seq<string>)
    requires '&' !in v && '#' !in v
    requires forall i :: 0 <= i < |rest| ==> '&' !in rest[i] && '#' !in rest[i]
    ensures forall i :: 0 <= i < |[Param(ConceptKey, v)] + rest| ==>
              '&' !in ([Param(ConceptKey, v)] + rest)[i] && '#' !in ([Param(ConceptKey, v)] + rest)[i]
  {
    var fields := [Param(ConceptKey, v)] + rest;
    ConceptKeyPlain();
    ParamAvoids(ConceptKey, v, '&');
    ParamAvoids(ConceptKey, v, '#');
    forall i | 0 <= i < |fields| ensures '&' !in fields[i] && '#' !in fields[i] {
      if i > 0 { assert fields[i] == rest[i - 1]; }
    }
  }

  /** A key that leads the pairs is looked up to its own value. */
  lemma LookupLeading(pairs: seq<(string, string)>, key: string, v: string)
    requires pairs != [] && pairs[0] == (key, v)
    ensures Lookup(pairs, key) == Some(v)
  {
  }
}
