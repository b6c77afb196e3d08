/** The catalog API's page payload and `parse_response`, which turns one page
    into a frame of eight product columns. */
module Catalog {
  import opened Wrappers

  /** A JSON member: missing from its object, present with `null`, or present
      with a value. */
  datatype Field<+T> = Absent | Null | Val(v: T)

  /** One product variant, with its nested members (`copy.title`,
      `prices.currentPrice`, ...) already flattened to the dotted column names
      `json_normalize` gives them. */
  datatype Product = Product(
    productCode: Field<string>,
    badgeLabel: Field<string>,
    title: Field<string>,        // copy.title
    subtitle: Field<string>,     // copy.subTitle
    currency: Field<string>,     // prices.currency
    currentPrice: Field<int>,    // prices.currentPrice
    url: Field<string>,          // pdpUrl.url
    imageUrl: Field<string>)     // colorwayImages.portraitURL

  /** An entry of `productGroupings`: the colour variants of one product. */
  datatype Grouping = Grouping(products: Field<seq<Product>>)

  /** The `pages` object: the declared total and the cursor of the next page. */
  datatype PagesInfo = PagesInfo(totalResources: Field<int>, next: Field<string>)

  /** One response of the catalog API. */
  datatype Page = Page(pages: Field<PagesInfo>, productGroupings: Field<seq<Grouping>>)

  /** The eight columns `parse_response` selects, in its order. */
  datatype Column =
    ProductCode | BadgeLabel | Title | SubTitle | Currency | CurrentPrice | PdpUrl | PortraitUrl

  /** Whether the product object has the member behind column `c` (a `null`
      member counts: `json_normalize` still creates the column). */
  predicate Present(p: Product, c: Column)
  {
    match c
    case ProductCode => !p.productCode.Absent?
    case BadgeLabel => !p.badgeLabel.Absent?
    case Title => !p.title.Absent?
    case SubTitle => !p.subtitle.Absent?
    case Currency => !p.currency.Absent?
    case CurrentPrice => !p.currentPrice.Absent?
    case PdpUrl => !p.url.Absent?
    case PortraitUrl => !p.imageUrl.Absent?
  }

  /** `json_normalize` creates column `c` when some record has its member. */
  predicate ColumnExists(sel: seq<Product>, c: Column)
  {
    exists p | p in sel :: Present(p, c)
  }

  /** Selecting the eight columns succeeds only when every one of them exists. */
  predicate HasAllColumns(sel: seq<Product>)
  {
    forall c: Column :: ColumnExists(sel, c)
  }

  /** `i.get("products")` is truthy: present and a non-empty list. */
  predicate HasProducts(g: Grouping)
  {
    g.products.Val? && g.products.v != []
  }

  /** The list comprehension of `parse_response`: the first variant of every
      grouping that has products, in grouping order. */
  function Selected(gs: seq<Grouping>): (r: seq<Product>)
    ensures |r| <= |gs|
  {
    if gs == [] then [] else FirstOf(gs[0]) + Selected(gs[1..])
  }

  /** What one grouping contributes: its first variant, if it has products. */
  function FirstOf(g: Grouping): (r: seq<Product>)
    ensures |r| <= 1
  {
    if HasProducts(g) then [g.products.v[0]] else []
  }

  /** One frame row: a missing member and a `null` both become an empty cell. */
  datatype Row = Row(
    productCode: Option<string>,
    badgeLabel: Option<string>,
    title: Option<string>,
    subtitle: Option<string>,
    currency: Option<string>,
    currentPrice: Option<int>,
    url: Option<string>,
    imageUrl: Option<string>)

  /** The frame cell of a member. */
  function Cell<T>(f: Field<T>): (r: Option<T>)
    ensures r.Some? <==> f.Val?
    ensures r.Some? ==> r.value == f.v
  {
    if f.Val? then Some(f.v) else None
  }

  /** Whether the product has a non-null value for column `c`. */
  predicate HasValue(p: Product, c: Column)
  {
    match c
    case ProductCode => p.productCode.Val?
    case BadgeLabel => p.badgeLabel.Val?
    case Title => p.title.Val?
    case SubTitle => p.subtitle.Val?
    case Currency => p.currency.Val?
    case CurrentPrice => p.currentPrice.Val?
    case PdpUrl => p.url.Val?
    case PortraitUrl => p.imageUrl.Val?
  }

  /** Whether the row's cell for column `c` is filled. */
  predicate Filled(r: Row, c: Column)
  {
    match c
    case ProductCode => r.productCode.Some?
    case BadgeLabel => r.badgeLabel.Some?
    case Title => r.title.Some?
    case SubTitle => r.subtitle.Some?
    case Currency => r.currency.Some?
    case CurrentPrice => r.currentPrice.Some?
    case PdpUrl => r.url.Some?
    case PortraitUrl => r.imageUrl.Some?
  }

  /** The row of one product once the frame exists: a cell is filled exactly
      where the product has a value, and the code and price are carried over. */
  function Project(p: Product): (r: Row)
    ensures forall c: Column :: Filled(r, c) <==> HasValue(p, c)
    ensures p.productCode.Val? ==> r.productCode == Some(p.productCode.v)
    ensures p.currentPrice.Val? ==> r.currentPrice == Some(p.currentPrice.v)
  {
    Row(Cell(p.productCode), Cell(p.badgeLabel), Cell(p.title), Cell(p.subtitle),
        Cell(p.currency), Cell(p.currentPrice), Cell(p.url), Cell(p.imageUrl))
  }

  lemma AllColumnsNonEmpty(sel: seq<Product>)
    requires HasAllColumns(sel)
    ensures sel != []
  {
    assert ColumnExists(sel, ProductCode);
  }

  /** `parse_response(page)`: `Some(rows)` for the one-frame list it returns,
      `None` for the empty list it returns when an exception is caught (no
      `productGroupings`, or a selected column that no chosen product has). */
  function ParseResponse(page: Page): (r: Option<seq<Row>>)
    ensures r.Some? <==> page.productGroupings.Val? && HasAllColumns(Selected(page.productGroupings.v))
    ensures r.Some? ==> r.value != [] && |r.value| == |Selected(page.productGroupings.v)|
    ensures r.Some? ==> forall i :: 0 <= i < |r.value| ==>
              r.value[i] == Project(Selected(page.productGroupings.v)[i])
  {
    if !page.productGroupings.Val? then None
    else
      var sel := Selected(page.productGroupings.v);
      if !HasAllColumns(sel) then None
      else
        AllColumnsNonEmpty(sel);
        Some(seq(|sel|, i requires 0 <= i < |sel| => Project(sel[i])))
  }

  /** The frames `parse_response` returns, as a list of zero or one frame. */
  function Parsed(page: Page): (r: seq<seq<Row>>)
    ensures |r| <= 1
    ensures forall i :: 0 <= i < |r| ==> r[i] != []
  {
    match ParseResponse(page)
    case None => []
    case Some(rows) => [rows]
  }

  /** Selection distributes over concatenated groupings: groupings contribute
      in their order. */
  lemma {:induction false} SelectedAppend(a: seq<Grouping>, b: seq<Grouping>)
    ensures Selected(a + b) == Selected(a) + Selected(b)
  {
    if a == [] {
      assert a + b == b;
    } else {
      var ab := a + b;
      assert ab[0] == a[0] && ab[1..] == a[1..] + b;
      SelectedAppend(a[1..], b);
      var x, sa, sb := FirstOf(a[0]), Selected(a[1..]), Selected(b);
      assert Selected(ab) == x + (sa + sb);
      assert x + (sa + sb) == (x + sa) + sb;
    }
  }

  /** A product is selected exactly when it is the first variant of a grouping
      that has products. */
  lemma {:induction false} SelectedMembers(gs: seq<Grouping>, p: Product)
    ensures p in Selected(gs) <==>
            exists i :: 0 <= i < |gs| && HasProducts(gs[i]) && gs[i].products.v[0] == p
  {
    if gs != [] {
      SelectedMembers(gs[1..], p);
      if exists i :: 0 <= i < |gs| && HasProducts(gs[i]) && gs[i].products.v[0] == p {
        var i :| 0 <= i < |gs| && HasProducts(gs[i]) && gs[i].products.v[0] == p;
        if i > 0 {
          assert gs[1..][i - 1] == gs[i];
        }
      }
      if p in Selected(gs[1..]) {
        var i :| 0 <= i < |gs[1..]| && HasProducts(gs[1..][i]) && gs[1..][i].products.v[0] == p;
        assert gs[i + 1] == gs[1..][i];
      }
    }
  }

  /** Groupings without products, or with an empty list, contribute nothing. */
  lemma DropsEmptyGroupings(a: seq<Grouping>, g: Grouping, b: seq<Grouping>)
    requires !HasProducts(g)
    ensures Selected(a + [g] + b) == Selected(a) + Selected(b)
  {
    SelectedAppend(a + [g], b);
    SelectedAppend(a, [g]);
  }

  /** A page without `productGroupings`, or whose selection lacks a column
      (in particular a page whose groupings all lack products), yields nothing. */
  lemma NothingSelected(page: Page)
    requires page.productGroupings.Val? ==> Selected(page.productGroupings.v) == []
    ensures ParseResponse(page) == None
  {
    if page.productGroupings.Val? {
      assert !ColumnExists([], ProductCode);
    }
  }

  /** A page with one grouping whose product list is empty and one grouping with
      a complete product parses to exactly that product's row; the further
      variants of the grouping are ignored. */
  lemma OneOfTwoGroupings(info: Field<PagesInfo>, p: Product, variants: seq<Product>)
    requires forall c: Column :: Present(p, c)
    ensures ParseResponse(Page(info, Val([Grouping(Val([])), Grouping(Val([p] + variants))])))
            == Some([Project(p)])
  {
    var gs := [Grouping(Val([])), Grouping(Val([p] + variants))];
    assert gs[1..][1..] == [];
    assert Selected(gs) == [p];
    assert forall c: Column :: ColumnExists([p], c) by {
      forall c: Column ensures ColumnExists([p], c) {
        assert p in [p] && Present(p, c);
      }
    }
    var r := ParseResponse(Page(info, Val(gs)));
    assert r.Some? && |r.value| == 1 && r.value[0] == Project(p);
    assert r.value == [Project(p)];
  }

  /** A page whose only selected product lacks `badgeLabel` raises on the
      column selection, so the whole page yields no frame even though every
      other column is there. */
  lemma MissingBadgeDropsPage(info: Field<PagesInfo>, p: Product, variants: seq<Product>)
    requires p.badgeLabel.Absent?
    ensures ParseResponse(Page(info, Val([Grouping(Val([p] + variants))]))) == None
  {
    var gs := [Grouping(Val([p] + variants))];
    assert gs[1..] == [];
    assert Selected(gs) == [p];
    assert !ColumnExists([p], BadgeLabel);
  }

  // ---------------------------------------------------------------- frames

  /** `pd.concat(frames, ignore_index=True)`: the frames' rows, frame after frame. */
  function Concat<T>(frames: seq<seq<T>>): (r: seq<T>)
    ensures frames == [] ==> r == []
  {
    if frames == [] then [] else Concat(frames[..|frames| - 1]) + frames[|frames| - 1]
  }

  /** Every row of a concatenation comes from one of the frames. */
  lemma {:induction false} ConcatMember<T>(frames: seq<seq<T>>)
    ensures forall x :: x in Concat(frames) ==> exists j :: 0 <= j < |frames| && x in frames[j]
  {
    if frames != [] {
      var n := |frames| - 1;
      ConcatMember(frames[..n]);
      forall x | x in Concat(frames)
        ensures exists j :: 0 <= j < |frames| && x in frames[j]
      {
        if x !in frames[n] {
          assert Concat(frames) == Concat(frames[..n]) + frames[n];
          assert x in Concat(frames[..n]);
          var j :| 0 <= j < n && x in frames[..n][j];
          assert frames[..n][j] == frames[j];
        }
      }
    }
  }

  lemma {:induction false} ConcatAppend<T>(a: seq<seq<T>>, b: seq<seq<T>>)
    ensures Concat(a + b) == Concat(a) + Concat(b)
  {
    if b == [] {
      assert a + b == a;
    } else {
      var n := |b| - 1;
      var ab := a + b;
      assert ab[..|ab| - 1] == a + b[..n];
      assert ab[|ab| - 1] == b[n];
      ConcatAppend(a, b[..n]);
      assert Concat(ab) == Concat(a + b[..n]) + b[n];
    }
  }

  /** The concatenation is empty exactly when every frame is. */
  lemma {:induction false} ConcatEmpty<T>(frames: seq<seq<T>>)
    ensures Concat(frames) == [] <==> forall i :: 0 <= i < |frames| ==> frames[i] == []
  {
    if frames != [] {
      var n := |frames| - 1;
      ConcatEmpty(frames[..n]);
      assert forall i :: 0 <= i < n ==> frames[..n][i] == frames[i];
    }
  }

  /** Frames that hold the same rows in another order concatenate to the same rows
      in another order. */
  lemma {:induction false} ConcatPermutation<T>(a: seq<seq<T>>, b: seq<seq<T>>)
    requires multiset(a) == multiset(b)
    ensures multiset(Concat(a)) == multiset(Concat(b))
  {
    if a != [] {
      var n := |a| - 1;
      var x := a[n];
      var j := RemoveOne(a, b);
      var front, back := b[..j], b[j + 1..];
      ConcatPermutation(a[..n], front + back);
      ConcatAppend(front, back);
      ConcatAround(front, x, back);
      ConcatLast(a);
      MultisetMiddle(Concat(a[..n]), Concat(front), x, Concat(back));
    }
  }

  /** Rows that are a permutation stay one when a frame is added to both,
      at the end of one and in the middle of the other. */
  lemma MultisetMiddle<T>(ca: seq<T>, cf: seq<T>, x: seq<T>, cb: seq<T>)
    requires multiset(ca) == multiset(cf + cb)
    ensures multiset(ca + x) == multiset(cf + x + cb)
  {
    calc {
      multiset(ca + x);
      multiset(ca) + multiset(x);
      multiset(cf) + multiset(x) + multiset(cb);
      multiset(cf + x + cb);
    }
  }

  lemma ConcatLast<T>(frames: seq<seq<T>>)
    requires frames != []
    ensures Concat(frames) == Concat(frames[..|frames| - 1]) + frames[|frames| - 1]
  {
  }

  /** One frame between two runs of frames. */
  lemma ConcatAround<T>(front: seq<seq<T>>, x: seq<T>, back: seq<seq<T>>)
    ensures Concat(front + [x] + back) == Concat(front) + x + Concat(back)
  {
    ConcatAppend(front + [x], back);
    ConcatAppend(front, [x]);
    assert Concat([x]) == x by {
      assert [x][..0] == [];
    }
  }

  /** The last element of `a` sits at some position `j` of its permutation `b`,
      and the rest of `a` is a permutation of `b` without position `j`. */
  lemma RemoveOne<U>(a: seq<U>, b: seq<U>) returns (j: nat)
    requires a != [] && multiset(a) == multiset(b)
    ensures j < |b| && b[j] == a[|a| - 1]
    ensures b == b[..j] + [a[|a| - 1]] + b[j + 1..]
    ensures multiset(a[..|a| - 1]) == multiset(b[..j] + b[j + 1..])
  {
    var n := |a| - 1;
    var x := a[n];
    assert a == a[..n] + [x];
    assert x in multiset(b);
    j :| 0 <= j < |b| && b[j] == x;
    var rest := b[..j] + b[j + 1..];
    assert b == b[..j] + [x] + b[j + 1..];
    assert multiset(b) == multiset(b[..j]) + multiset{x} + multiset(b[j + 1..]);
    assert multiset(a) == multiset(a[..n]) + multiset{x};
    assert multiset(rest) == multiset(b[..j]) + multiset(b[j + 1..]);
    MultisetCancel(multiset(a[..n]), multiset(rest), x);
  }

  lemma MultisetCancel<U>(m1: multiset<U>, m2: multiset<U>, x: U)
    requires m1 + multiset{x} == m2 + multiset{x}
    ensures m1 == m2
  {
    forall y ensures m1[y] == m2[y] {
      assert (m1 + multiset{x})[y] == (m2 + multiset{x})[y];
    }
  }

  /** A frame row with the `category` column the fetcher adds. */
  datatype Record = Record(row: Row, category: string)

  /** `df["category"] = category`. */
  function Tag(rows: seq<Row>, category: string): (r: seq<Record>)
    ensures |r| == |rows|
    ensures forall i :: 0 <= i < |r| ==> r[i].row == rows[i] && r[i].category == category
  {
    seq(|rows|, i requires 0 <= i < |rows| => Record(rows[i], category))
  }
}
