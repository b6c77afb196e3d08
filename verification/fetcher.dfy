/** `fetch_nike_products`: follow the `pages.next` cursors of the catalog API
    from the first page, parse every page and tag the rows with the category. */
module Fetcher {
  import opened Catalog
  import Urls

  /** The catalog API as seen by one category's session: the response to a
      request for each URL. A URL outside the map stands for a request, or the
      decoding of its JSON body, that raises. */
  type Server = map<string, Page>

  /** Python truthiness of `pages.get("next")`: present, not `null`, not empty. */
  predicate Truthy(next: Field<string>)
  {
    next.Val? && next.v != ""
  }

  /** `f"https://api.nike.com{next_page}"`. */
  function NextUrl(cursor: string): (r: string)
    ensures Urls.ApiHost <= r
    ensures r[|Urls.ApiHost|..] == cursor
  {
    Urls.ApiHost + cursor
  }

  /** How following the cursors from a page ends: the pages requested, in
      order, when a page without a next cursor is reached; `Raised` when a
      request fails or a page lacks what the loop reads; `OutOfFuel` when the
      walk is longer than the bound it was given. */
  datatype Walk = Finished(pages: seq<Page>) | Raised | OutOfFuel

  /** Puts `page` in front of the pages of a walk that finished. */
  function Prepend(page: Page, w: Walk): (r: Walk)
    ensures r.Finished? <==> w.Finished?
    ensures r.Finished? ==> r.pages == [page] + w.pages
  {
    match w
    case Finished(ps) => Finished([page] + ps)
    case _ => w
  }

  /** Puts `visited` in front of the pages of a walk that finished. */
  function PrependAll(visited: seq<Page>, w: Walk): (r: Walk)
    ensures r.Finished? <==> w.Finished?
    ensures r.Finished? ==> r.pages == visited + w.pages
    ensures w.Raised? ==> r.Raised?
    ensures w.OutOfFuel? ==> r.OutOfFuel?
  {
    match w
    case Finished(ps) => Finished(visited + ps)
    case _ => w
  }

  /** The walk from a request for `url`. The first request also reads
      `pages.totalResources` (for the progress bar), so it raises when that
      member is missing or not a number; later requests only read `pages.next`. */
  function Visit(server: Server, url: string, first: bool, fuel: nat): (r: Walk)
    ensures r.Finished? ==> url in server && r.pages != [] && r.pages[0] == server[url]
    ensures r.Finished? ==> |r.pages| <= fuel + 1
    decreases fuel, 1
  {
    if url !in server then Raised
    else
      var page := server[url];
      if !page.pages.Val? || (first && !page.pages.v.totalResources.Val?) then Raised
      else if !Truthy(page.pages.v.next) then Finished([page])
      else Prepend(page, After(server, page.pages.v.next.v, fuel))
  }

  /** The walk from the request for a cursor, one unit of fuel later. */
  function After(server: Server, cursor: string, fuel: nat): (r: Walk)
    ensures r.Finished? ==> 0 < |r.pages| <= fuel
    decreases fuel, 0
  {
    if fuel == 0 then OutOfFuel else Visit(server, NextUrl(cursor), false, fuel - 1)
  }

  /** The parsed frames of `pages`, in request order. */
  function Frames(pages: seq<Page>): (r: seq<seq<Row>>)
    ensures |r| <= |pages|
    ensures forall i :: 0 <= i < |r| ==> r[i] != []
  {
    if pages == [] then [] else Frames(pages[..|pages| - 1]) + Parsed(pages[|pages| - 1])
  }

  /** What `fetch_nike_products(session, url, category)` returns: every parsed
      row of the walk, tagged with the category, or nothing when the walk raised. */
  function Fetched(server: Server, url: string, category: string, fuel: nat): (r: seq<Record>)
    ensures r != [] ==> Visit(server, url, true, fuel).Finished?
    ensures forall i :: 0 <= i < |r| ==> r[i].category == category
  {
    match Visit(server, url, true, fuel)
    case Finished(ps) => Tag(Concat(Frames(ps)), category)
    case _ => []
  }

  /** The walk stops within `fuel` further requests. */
  predicate Terminates(server: Server, url: string, fuel: nat)
  {
    !Visit(server, url, true, fuel).OutOfFuel?
  }

  /** The rest of the walk after a page whose next cursor is `next`. */
  function Continue(server: Server, next: Field<string>, fuel: nat): Walk
  {
    if Truthy(next) then After(server, next.v, fuel) else Finished([])
  }

  /** `fetch_nike_products(session, url, category)`. The ghost `fuel` bounds the
      number of pages; the source loops as long as the server keeps handing out
      cursors. */
  method FetchProducts(server: Server, url: string, category: string, ghost fuel: nat)
    returns (records: seq<Record>)
    requires Terminates(server, url, fuel)
    ensures records == Fetched(server, url, category, fuel)
  {
    StepVisit(server, url, true, fuel);
    if url !in server {
      return [];
    }
    var data := server[url];
    if !data.pages.Val? || !data.pages.v.totalResources.Val? {
      return [];
    }
    var allProducts := Parsed(data);
    var nextPage := data.pages.v.next;
    ghost var visited := [data];
    ghost var left := fuel;
    FramesSnoc([], data);
    PrependAllStep([], data, Continue(server, nextPage, left));
    while Truthy(nextPage)
      invariant Visit(server, url, true, fuel) == PrependAll(visited, Continue(server, nextPage, left))
      invariant allProducts == Frames(visited)
      decreases left
    {
      StepAfter(server, nextPage.v, left);
      assert left > 0;
      StepVisit(server, NextUrl(nextPage.v), false, left - 1);
      var nextUrl := NextUrl(nextPage.v);
      if nextUrl !in server {
        return [];
      }
      data := server[nextUrl];
      if !data.pages.Val? {
        return [];
      }
      allProducts := allProducts + Parsed(data);
      PrependAllStep(visited, data, Continue(server, data.pages.v.next, left - 1));
      nextPage := data.pages.v.next;
      FramesSnoc(visited, data);
      visited := visited + [data];
      left := left - 1;
    }
    assert visited + [] == visited;
    if allProducts != [] {
      records := Tag(Concat(allProducts), category);
    } else {
      records := [];
    }
  }

  /** One request of the walk. */
  lemma StepVisit(server: Server, url: string, first: bool, fuel: nat)
    ensures url !in server ==> Visit(server, url, first, fuel) == Raised
    ensures url in server && (!server[url].pages.Val? || (first && !server[url].pages.v.totalResources.Val?)) ==>
              Visit(server, url, first, fuel) == Raised
    ensures url in server && server[url].pages.Val? && (first ==> server[url].pages.v.totalResources.Val?) ==>
              Visit(server, url, first, fuel) == Prepend(server[url], Continue(server, server[url].pages.v.next, fuel))
  {
  }

  /** The request for a cursor spends one unit of fuel. */
  lemma StepAfter(server: Server, cursor: string, fuel: nat)
    ensures fuel == 0 ==> After(server, cursor, fuel) == OutOfFuel
    ensures fuel > 0 ==> After(server, cursor, fuel) == Visit(server, NextUrl(cursor), false, fuel - 1)
  {
  }

  lemma PrependAllStep(visited: seq<Page>, page: Page, w: Walk)
    ensures PrependAll(visited, Prepend(page, w)) == PrependAll(visited + [page], w)
  {
    if w.Finished? {
      assert visited + ([page] + w.pages) == visited + [page] + w.pages;
    }
  }

  lemma FramesSnoc(pages: seq<Page>, page: Page)
    ensures Frames(pages + [page]) == Frames(pages) + Parsed(page)
  {
    assert (pages + [page])[..|pages|] == pages;
  }

  // ---------------------------------------------------------------- the cursor chain

  /** `p` carries a truthy next cursor whose request answers with `q`. */
  predicate Links(server: Server, p: Page, q: Page)
  {
    p.pages.Val? && Truthy(p.pages.v.next)
    && NextUrl(p.pages.v.next.v) in server && server[NextUrl(p.pages.v.next.v)] == q
  }

  /** `p` has a `pages` object without a truthy next cursor. */
  predicate Last(p: Page)
  {
    p.pages.Val? && !Truthy(p.pages.v.next)
  }

  /** `p` has a `pages` object with a `totalResources` number. */
  predicate DeclaresTotal(p: Page)
  {
    p.pages.Val? && p.pages.v.totalResources.Val?
  }

  /** The requests of a finished walk, described page by page: `url` answers with
      the first page, each page's cursor leads to the following page, and the
      last page has no cursor. The page count plays no part. */
  predicate Chain(server: Server, url: string, ps: seq<Page>)
  {
    ps != [] && url in server && server[url] == ps[0] && ps[0].pages.Val?
    && (forall i :: 0 <= i < |ps| - 1 ==> Links(server, ps[i], ps[i + 1]))
    && Last(ps[|ps| - 1])
  }

  lemma ChainTail(server: Server, url: string, ps: seq<Page>)
    requires Chain(server, url, ps) && |ps| > 1
    ensures Links(server, ps[0], ps[1])
    ensures Chain(server, NextUrl(ps[0].pages.v.next.v), ps[1..])
  {
    assert Links(server, ps[0], ps[1]);
    if |ps| > 2 {
      assert Links(server, ps[1], ps[2]);
    }
    forall i | 0 <= i < |ps[1..]| - 1 ensures Links(server, ps[1..][i], ps[1..][i + 1]) {
      assert Links(server, ps[i + 1], ps[i + 2]);
    }
  }

  /** A finished walk followed the cursor chain: requests continue exactly while
      the latest page has a truthy next cursor. */
  lemma {:induction false} FinishedFollowsChain(server: Server, url: string, first: bool, fuel: nat, ps: seq<Page>)
    requires Visit(server, url, first, fuel) == Finished(ps)
    ensures Chain(server, url, ps)
    ensures first ==> DeclaresTotal(ps[0])
    ensures |ps| - 1 <= fuel
    decreases fuel
  {
    var page := server[url];
    if Truthy(page.pages.v.next) {
      var w := After(server, page.pages.v.next.v, fuel);
      assert w.Finished? && ps == [page] + w.pages;
      var nextUrl := NextUrl(page.pages.v.next.v);
      FinishedFollowsChain(server, nextUrl, false, fuel - 1, w.pages);
      assert ps[1..] == w.pages;
      forall i | 0 <= i < |ps| - 1 ensures Links(server, ps[i], ps[i + 1]) {
        if i > 0 {
          assert Links(server, w.pages[i - 1], w.pages[i]);
        }
      }
    }
  }

  /** Conversely, a cursor chain is walked to its end, given fuel for its length. */
  lemma {:induction false} ChainFinishes(server: Server, url: string, first: bool, fuel: nat, ps: seq<Page>)
    requires Chain(server, url, ps)
    requires first ==> DeclaresTotal(ps[0])
    requires |ps| - 1 <= fuel
    ensures Visit(server, url, first, fuel) == Finished(ps)
    decreases |ps|
  {
    if |ps| > 1 {
      assert Links(server, ps[0], ps[1]);
      var cursor := ps[0].pages.v.next.v;
      ChainTail(server, url, ps);
      ChainFinishes(server, NextUrl(cursor), false, fuel - 1, ps[1..]);
      assert [ps[0]] + ps[1..] == ps;
    }
  }

  /** The walk does not depend on the fuel once there is enough of it. */
  lemma {:induction false} FuelSuffices(server: Server, url: string, first: bool, fuel: nat, more: nat)
    requires !Visit(server, url, first, fuel).OutOfFuel?
    requires fuel <= more
    ensures Visit(server, url, first, more) == Visit(server, url, first, fuel)
    decreases fuel
  {
    if url in server {
      var page := server[url];
      if page.pages.Val? && !(first && !page.pages.v.totalResources.Val?) && Truthy(page.pages.v.next) {
        FuelSuffices(server, NextUrl(page.pages.v.next.v), false, fuel - 1, more - 1);
      }
    }
  }

  /** A request that fails after any number of pages have been read discards
      them all: a chain of pages whose last cursor leads to a failing request,
      or to a page without `pages` (whose `next` cannot be read), makes the
      category contribute nothing. */
  lemma {:induction false} FailureDiscardsAll(server: Server, url: string, first: bool, fuel: nat, ps: seq<Page>)
    requires ps != [] && url in server && server[url] == ps[0]
    requires first ==> DeclaresTotal(ps[0])
    requires forall i :: 0 <= i < |ps| - 1 ==> Links(server, ps[i], ps[i + 1])
    requires |ps| - 1 < fuel
    requires ps[|ps| - 1].pages.Val? && Truthy(ps[|ps| - 1].pages.v.next)
    requires NextUrl(ps[|ps| - 1].pages.v.next.v) !in server
             || !server[NextUrl(ps[|ps| - 1].pages.v.next.v)].pages.Val?
    ensures Visit(server, url, first, fuel) == Raised
    decreases |ps|
  {
    if |ps| > 1 {
      assert Links(server, ps[0], ps[1]);
      var tail := ps[1..];
      forall i | 0 <= i < |tail| - 1 ensures Links(server, tail[i], tail[i + 1]) {
        assert Links(server, ps[i + 1], ps[i + 2]);
      }
      FailureDiscardsAll(server, NextUrl(ps[0].pages.v.next.v), false, fuel - 1, tail);
      assert After(server, ps[0].pages.v.next.v, fuel) == Raised;
    } else {
      assert After(server, ps[0].pages.v.next.v, fuel) == Raised;
    }
  }

  /** Whatever was gathered before, a raised walk yields no rows. */
  lemma RaisedYieldsNothing(server: Server, url: string, category: string, fuel: nat)
    requires Visit(server, url, true, fuel) == Raised
    ensures Fetched(server, url, category, fuel) == []
  {
  }

  /** When no page of a finished walk parses, the category contributes nothing. */
  lemma NothingParsedNothingFetched(server: Server, url: string, category: string, fuel: nat, ps: seq<Page>)
    requires Visit(server, url, true, fuel) == Finished(ps)
    requires forall i :: 0 <= i < |ps| ==> ParseResponse(ps[i]).None?
    ensures Fetched(server, url, category, fuel) == []
  {
    NoFrames(ps);
  }

  /** Pages that all parse to nothing give no frames. */
  lemma {:induction false} NoFrames(ps: seq<Page>)
    requires forall i :: 0 <= i < |ps| ==> ParseResponse(ps[i]).None?
    ensures Frames(ps) == []
  {
    if ps != [] {
      var n := |ps| - 1;
      assert forall i :: 0 <= i < n ==> ps[..n][i] == ps[i];
      NoFrames(ps[..n]);
    }
  }

  lemma {:induction false} FramesAppend(a: seq<Page>, b: seq<Page>)
    ensures Frames(a + b) == Frames(a) + Frames(b)
  {
    if b == [] {
      assert a + b == a;
    } else {
      var n := |b| - 1;
      var init, last := b[..n], b[n];
      assert b == init + [last];
      assert a + b == (a + init) + [last];
      FramesAppend(a, init);
      FramesSnoc(a + init, last);
      FramesSnoc(init, last);
      assert Frames(a) + Frames(init) + Parsed(last) == Frames(a) + (Frames(init) + Parsed(last));
    }
  }

  /** A cursor whose page hands the same cursor out again is followed until the
      bound runs out, whatever the bound: `while next_page` never ends. */
  lemma {:induction false} RepeatedCursorNeverEnds(server: Server, cursor: string, fuel: nat)
    requires NextUrl(cursor) in server && cursor != ""
    requires server[NextUrl(cursor)].pages.Val?
    requires server[NextUrl(cursor)].pages.v.next == Val(cursor)
    ensures After(server, cursor, fuel) == OutOfFuel
  {
    if fuel > 0 {
      RepeatedCursorNeverEnds(server, cursor, fuel - 1);
    }
  }

  /** A first page whose cursor leads back to itself never terminates, so no
      bound meets the precondition of `FetchProducts`. */
  lemma SelfLinkedFirstPage(server: Server, url: string, cursor: string, fuel: nat)
    requires url in server && url == NextUrl(cursor) && cursor != ""
    requires server[url].pages.Val? && server[url].pages.v.totalResources.Val?
    requires server[url].pages.v.next == Val(cursor)
    ensures !Terminates(server, url, fuel)
  {
    RepeatedCursorNeverEnds(server, cursor, fuel);
  }

  /** A page that parses to nothing still moves the cursor on and adds no rows:
      the rows of a walk are those of its other pages. */
  lemma UnparsedPageAddsNothing(a: seq<Page>, p: Page, b: seq<Page>)
    requires ParseResponse(p).None?
    ensures Concat(Frames(a + [p] + b)) == Concat(Frames(a)) + Concat(Frames(b))
  {
    FramesAppend(a + [p], b);
    FramesAppend(a, [p]);
    assert Frames([p]) == [] by {
      assert [p][..0] == [];
    }
    assert Frames(a) + [] == Frames(a);
    ConcatAppend(Frames(a), Frames(b));
  }

  /** The fetched rows are the rows of the walk's pages, in request order: the
      rows of the first page, then the rows of the rest. */
  lemma FetchedInRequestOrder(server: Server, url: string, category: string, fuel: nat, ps: seq<Page>)
    requires Chain(server, url, ps) && DeclaresTotal(ps[0]) && |ps| - 1 <= fuel
    ensures Fetched(server, url, category, fuel)
            == Tag(Concat(Parsed(ps[0])) + Concat(Frames(ps[1..])), category)
  {
    ChainFinishes(server, url, true, fuel, ps);
    assert ps == [ps[0]] + ps[1..];
    FramesAppend([ps[0]], ps[1..]);
    assert Frames([ps[0]]) == Parsed(ps[0]) by {
      assert [ps[0]][..0] == [];
    }
    ConcatAppend(Parsed(ps[0]), Frames(ps[1..]));
  }

  /** The declared page count does not end the loop: a first page that declares
      250 products (three pages of 100) followed by a second page without a
      cursor ends the walk after two pages. */
  lemma TwoPagesDespiteTotal(server: Server, url: string, cursor: string, p1: Page, p2: Page)
    requires cursor != ""
    requires p1.pages == Val(PagesInfo(Val(250), Val(cursor)))
    requires p2.pages.Val? && p2.pages.v.next.Absent?
    requires url in server && server[url] == p1
    requires NextUrl(cursor) in server && server[NextUrl(cursor)] == p2
    ensures Visit(server, url, true, 1) == Finished([p1, p2])
  {
    var ps := [p1, p2];
    assert Links(server, ps[0], ps[1]);
    assert Chain(server, url, ps);
    ChainFinishes(server, url, true, 1, ps);
  }
}
