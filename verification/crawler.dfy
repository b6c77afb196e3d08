/** The crawl itself: `process_single_url` for one configured category, the
    collection of the per-category frames as the worker tasks complete, and
    the final write of the aggregated snapshot. */
module Crawler {
  import opened Wrappers
  import opened Catalog
  import opened Urls
  import opened Discovery
  import opened Fetcher
  import opened Store

  /** The slugs of the configured category URLs `Wall + "/" + slug`. */
  const Slugs := [
    "mens-shoes-nik1zy7ok", "mens-clothing-6ymx6znik1", "mens-accessories-equipment-awwpwznik1",
    "womens-shoes-5e1x6zy7ok", "womens-clothing-5e1x6z6ymx6", "womens-accessories-equipment-5e1x6zawwpw",
    "kids-shoes-v4dhzy7ok", "kids-clothing-6ymx6zv4dh", "kids-accessories-equipment-awwpwzv4dh"]

  /** The configured category URLs. */
  function CategoryUrls(): (r: seq<string>)
    ensures |r| == |Slugs|
    ensures forall i :: 0 <= i < |r| ==> Wall <= r[i]
  {
    seq(|Slugs|, i requires 0 <= i < |Slugs| => Wall + "/" + Slugs[i])
  }

  /** The first and the third configured categories are named "mens shoes" and
      "mens accessories equipment"; the first one's path lies under the wall
      directory. */
  lemma ConfiguredCategoryNames()
    ensures CategoryName(CategoryUrls()[0]) == "mens shoes"
    ensures CategoryName(CategoryUrls()[2]) == "mens accessories equipment"
    ensures ExtractPath(CategoryUrls()[0]) == CatalogDir + "/" + "mens-shoes-nik1zy7ok"
  {
    assert CategoryUrls()[0] == Wall + "/" + "mens-shoes-nik1zy7ok" by {
      assert Slugs[0] == "mens-shoes-nik1zy7ok";
    }
    assert CategoryUrls()[2] == Wall + "/" + "mens-accessories-equipment-awwpwznik1" by {
      assert Slugs[2] == "mens-accessories-equipment-awwpwznik1";
    }
    MensShoesCategory();
    MensAccessoriesCategory();
    MensShoesPath();
  }

  /** The catalog API URL of a category whose landing page named `conceptIds`. */
  function ApiUrlFor(url: string, conceptIds: string): string
  {
    ConstructApiUrl(conceptIds, ExtractPath(url))
  }

  /** The category's walk stops within `fuel` requests, if there is one. */
  predicate CanFinish(url: string, landing: Landing, server: Server, fuel: nat)
  {
    ExtractConceptIds(landing).Some? ==> Terminates(server, ApiUrlFor(url, ExtractConceptIds(landing).value), fuel)
  }

  /** The frame `process_single_url(url)` returns, given what the landing page
      and the catalog API answer. */
  function SingleUrlRows(url: string, landing: Landing, server: Server, fuel: nat): (r: seq<Record>)
    ensures ExtractConceptIds(landing).None? ==> r == []
    ensures forall i :: 0 <= i < |r| ==> r[i].category == CategoryName(url)
  {
    match ExtractConceptIds(landing)
    case None => []
    case Some(conceptIds) => Fetched(server, ApiUrlFor(url, conceptIds), CategoryName(url), fuel)
  }

  /** `process_single_url(url)`. */
  method ProcessSingleUrl(url: string, landing: Landing, server: Server, ghost fuel: nat)
    returns (records: seq<Record>)
    requires CanFinish(url, landing, server, fuel)
    ensures records == SingleUrlRows(url, landing, server, fuel)
    ensures forall i :: 0 <= i < |records| ==> records[i].category == CategoryName(url)
  {
    var category := CategoryName(url);
    var conceptIds := ExtractConceptIds(landing);
    if conceptIds.None? || conceptIds.value == "" {
      return [];
    }
    var path := ExtractPath(url);
    var apiUrl := ConstructApiUrl(conceptIds.value, path);
    records := FetchProducts(server, apiUrl, category, fuel);
    CategoryTagged(url, landing, server, fuel);
  }

  /** Every row of a category carries that category's name. */
  lemma CategoryTagged(url: string, landing: Landing, server: Server, fuel: nat)
    ensures forall i :: 0 <= i < |SingleUrlRows(url, landing, server, fuel)| ==>
              SingleUrlRows(url, landing, server, fuel)[i].category == CategoryName(url)
  {
    var cid := ExtractConceptIds(landing);
    if cid.Some? {
      var w := Visit(server, ApiUrlFor(url, cid.value), true, fuel);
      if w.Finished? {
        var rows := Concat(Frames(w.pages));
        assert SingleUrlRows(url, landing, server, fuel) == Tag(rows, CategoryName(url));
      }
    }
  }

  /** A category whose landing page names no identifier contributes nothing. */
  lemma NoIdentifierNoRows(url: string, landing: Landing, server: Server, fuel: nat)
    requires ExtractConceptIds(landing) == None
    ensures SingleUrlRows(url, landing, server, fuel) == []
  {
  }

  // ---------------------------------------------------------------- aggregation

  /** How a worker task ended: `future.result()` raised, or returned a frame. */
  datatype Outcome = Failed | Returned(frame: seq<Record>)

  /** Whether the aggregation keeps an outcome: a frame that is not empty. */
  predicate Keeps(o: Outcome)
  {
    o.Returned? && o.frame != []
  }

  /** `all_data` after the outcomes, in completion order. */
  function Kept(outcomes: seq<Outcome>): (r: seq<seq<Record>>)
    ensures |r| <= |outcomes|
    ensures forall i :: 0 <= i < |r| ==> r[i] != []
    ensures forall j :: 0 <= j < |r| ==> exists i :: 0 <= i < |outcomes| && outcomes[i] == Returned(r[j])
  {
    if outcomes == [] then []
    else
      var last := outcomes[|outcomes| - 1];
      Kept(outcomes[..|outcomes| - 1]) + (if Keeps(last) then [last.frame] else [])
  }

  /** The loop over `as_completed(future_to_url)`. */
  method Collect(outcomes: seq<Outcome>) returns (allData: seq<seq<Record>>)
    ensures allData == Kept(outcomes)
  {
    allData := [];
    var k := 0;
    while k < |outcomes|
      invariant 0 <= k <= |outcomes|
      invariant allData == Kept(outcomes[..k])
    {
      assert outcomes[..k + 1][..k] == outcomes[..k];
      var outcome := outcomes[k];
      match outcome {
        case Failed =>
        case Returned(df) =>
          if df != [] {
            allData := allData + [df];
          }
      }
      k := k + 1;
    }
    assert outcomes[..k] == outcomes;
  }

  /** `final_df`: the kept frames, concatenated. */
  function Snapshot(outcomes: seq<Outcome>): (r: seq<Record>)
    ensures forall x :: x in r ==> exists i :: 0 <= i < |outcomes| && outcomes[i].Returned? && x in outcomes[i].frame
  {
    ConcatMember(Kept(outcomes));
    Concat(Kept(outcomes))
  }

  /** The end of the script: write the snapshot when there is one. The result
      says whether the database committed a run. */
  method Run(db: Database, outcomes: seq<Outcome>, timestamp: string, createdAt: string, failAt: Option<nat>)
    returns (written: bool)
    modifies db
    ensures written <==> Snapshot(outcomes) != [] && !Fails(failAt, 2 * |Snapshot(outcomes)| + 1)
    ensures written ==> db.products == Upserted(old(db.products), Snapshot(outcomes), createdAt)
    ensures written ==> db.unkeyed == old(db.unkeyed) + Unkeyed(Snapshot(outcomes), createdAt)
    ensures written ==> db.history == old(db.history) + PriceRows(Snapshot(outcomes), timestamp)
    ensures !written ==> db.products == old(db.products) && db.unkeyed == old(db.unkeyed)
                         && db.history == old(db.history)
    ensures old(db.Valid()) ==> db.Valid()
  {
    var allData := Collect(outcomes);
    if allData == [] {
      return false;
    }
    var finalDf := Concat(allData);
    written := db.UpdateDatabase(finalDf, timestamp, createdAt, failAt);
  }

  // ---------------------------------------------------------------- properties of the aggregation

  lemma {:induction false} KeptAppend(a: seq<Outcome>, b: seq<Outcome>)
    ensures Kept(a + b) == Kept(a) + Kept(b)
  {
    if b == [] {
      assert a + b == a;
    } else {
      var n := |b| - 1;
      var ab := a + b;
      assert ab[..|ab| - 1] == a + b[..n];
      assert ab[|ab| - 1] == b[n];
      KeptAppend(a, b[..n]);
    }
  }

  /** The kept frames are exactly the non-empty returned frames. */
  lemma {:induction false} KeptFrames(outcomes: seq<Outcome>, df: seq<Record>)
    ensures df in Kept(outcomes) <==> df != [] && Returned(df) in outcomes
  {
    if outcomes != [] {
      var n := |outcomes| - 1;
      KeptFrames(outcomes[..n], df);
      assert outcomes == outcomes[..n] + [outcomes[n]];
    }
  }

  /** A task that raised or returned an empty frame changes nothing for the
      others: the snapshot is what the other tasks contribute. */
  lemma FailureIsolated(a: seq<Outcome>, o: Outcome, b: seq<Outcome>)
    requires !Keeps(o)
    ensures Snapshot(a + [o] + b) == Snapshot(a) + Snapshot(b)
  {
    KeptAppend(a + [o], b);
    KeptAppend(a, [o]);
    assert Kept([o]) == [] by {
      assert [o][..0] == [];
    }
    assert Kept(a) + [] == Kept(a);
    ConcatAppend(Kept(a), Kept(b));
  }

  /** The snapshot is empty, and nothing is written, exactly when no task
      returned a non-empty frame. */
  lemma SnapshotEmpty(outcomes: seq<Outcome>)
    ensures Snapshot(outcomes) == [] <==> forall i :: 0 <= i < |outcomes| ==> !Keeps(outcomes[i])
  {
    ConcatEmpty(Kept(outcomes));
    if Snapshot(outcomes) == [] {
      forall i | 0 <= i < |outcomes| ensures !Keeps(outcomes[i]) {
        if Keeps(outcomes[i]) {
          KeptFrames(outcomes, outcomes[i].frame);
        }
      }
    } else {
      var j :| 0 <= j < |Kept(outcomes)| && Kept(outcomes)[j] != [];
      KeptFrames(outcomes, Kept(outcomes)[j]);
    }
  }

  /** The kept frames do not depend on the completion order beyond their order. */
  lemma {:induction false} KeptPermutation(a: seq<Outcome>, b: seq<Outcome>)
    requires multiset(a) == multiset(b)
    ensures multiset(Kept(a)) == multiset(Kept(b))
  {
    if a != [] {
      var n := |a| - 1;
      var x := a[n];
      var j := RemoveOne(a, b);
      var rest := b[..j] + b[j + 1..];
      assert a == a[..n] + [x];
      assert b == b[..j] + [x] + b[j + 1..];
      KeptPermutation(a[..n], rest);
      KeptAppend(b[..j], b[j + 1..]);
      KeptAppend(b[..j] + [x], b[j + 1..]);
      KeptAppend(b[..j], [x]);
      KeptAppend(a[..n], [x]);
    }
  }

  /** Whatever order the tasks complete in, the snapshot holds the same rows. */
  lemma SnapshotPermutation(a: seq<Outcome>, b: seq<Outcome>)
    requires multiset(a) == multiset(b)
    ensures multiset(Snapshot(a)) == multiset(Snapshot(b))
  {
    KeptPermutation(a, b);
    ConcatPermutation(Kept(a), Kept(b));
  }

  /** A task that contributes nothing leaves the snapshot to the other task,
      in either completion order. */
  lemma OtherTaskOnly(frame: seq<Record>, o: Outcome)
    requires !Keeps(o)
    ensures Snapshot([Returned(frame), o]) == frame
    ensures Snapshot([o, Returned(frame)]) == frame
  {
    var a := Returned(frame);
    FailureIsolated([a], o, []);
    FailureIsolated([], o, [a]);
    assert [a] + [o] + [] == [a, o];
    assert [] + [o] + [a] == [o, a];
    SingleFrame(a);
  }

  /** Two categories, the second without an identifier: the snapshot is the
      first category's frame, whichever task completes first. */
  lemma SecondCategorySkipped(urlA: string, landingA: Landing, serverA: Server,
                              urlB: string, landingB: Landing, serverB: Server, fuel: nat)
    requires ExtractConceptIds(landingB) == None
    ensures Snapshot([Returned(SingleUrlRows(urlA, landingA, serverA, fuel)),
                      Returned(SingleUrlRows(urlB, landingB, serverB, fuel))])
            == SingleUrlRows(urlA, landingA, serverA, fuel)
    ensures Snapshot([Returned(SingleUrlRows(urlB, landingB, serverB, fuel)),
                      Returned(SingleUrlRows(urlA, landingA, serverA, fuel))])
            == SingleUrlRows(urlA, landingA, serverA, fuel)
  {
    NoIdentifierNoRows(urlB, landingB, serverB, fuel);
    OtherTaskOnly(SingleUrlRows(urlA, landingA, serverA, fuel), Returned(SingleUrlRows(urlB, landingB, serverB, fuel)));
  }

  lemma SingleFrame(o: Outcome)
    requires o.Returned?
    ensures Snapshot([o]) == o.frame
  {
    assert [o][..0] == [];
    assert Concat(Kept([o])) == Concat(Kept([])) + (if Keeps(o) then o.frame else []) by {
      if Keeps(o) {
        assert [[] + [o.frame]][..0] == [];
      }
    }
  }
}
