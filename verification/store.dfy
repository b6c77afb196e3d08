/** `update_database`: one run's write of the aggregated snapshot into the
    `products` and `price_history` tables, as a single transaction. */
module Store {
  import opened Wrappers
  import opened Catalog

  /** A row of `products`, without its key. `createdAt` is the column default
      the insert leaves to the database. */
  datatype ProductRow = ProductRow(
    title: Option<string>,
    subtitle: Option<string>,
    category: string,
    imageUrl: Option<string>,
    url: Option<string>,
    createdAt: string)

  /** A row of `price_history`, without its auto-increment id. */
  datatype PriceRow = PriceRow(productCode: Option<string>, price: Option<int>, timestamp: string)

  /** The product columns the snapshot record supplies to `INSERT OR REPLACE`. */
  function ProductOf(rec: Record, createdAt: string): ProductRow
  {
    ProductRow(rec.row.title, rec.row.subtitle, rec.category, rec.row.imageUrl, rec.row.url, createdAt)
  }

  /** The price row inserted for a snapshot record. */
  function PriceOf(rec: Record, timestamp: string): PriceRow
  {
    PriceRow(rec.row.productCode, rec.row.currentPrice, timestamp)
  }

  /** `INSERT OR REPLACE` of one record into the keyed rows of `products`: the
      whole row under its code is replaced. A record without a code does not
      touch the keyed rows (see `Unkeyed`). */
  function Upsert(table: map<string, ProductRow>, rec: Record, createdAt: string): (r: map<string, ProductRow>)
    ensures rec.row.productCode.Some? ==> r.Keys == table.Keys + {rec.row.productCode.value}
    ensures rec.row.productCode.Some? ==> r[rec.row.productCode.value] == ProductOf(rec, createdAt)
    ensures forall k :: k in table && Some(k) != rec.row.productCode ==> k in r && r[k] == table[k]
    ensures rec.row.productCode.None? ==> r == table
  {
    match rec.row.productCode
    case Some(code) => table[code := ProductOf(rec, createdAt)]
    case None => table
  }

  /** The keyed rows after upserting the snapshot records one after the other. */
  function Upserted(table: map<string, ProductRow>, snapshot: seq<Record>, createdAt: string): (r: map<string, ProductRow>)
    ensures table.Keys <= r.Keys
  {
    if snapshot == [] then table
    else Upsert(Upserted(table, snapshot[..|snapshot| - 1], createdAt), snapshot[|snapshot| - 1], createdAt)
  }

  /** The rows a NULL product code adds: the key column of `products` is a TEXT
      primary key, which admits NULL, and NULL keys never conflict. */
  function Unkeyed(snapshot: seq<Record>, createdAt: string): (r: seq<ProductRow>)
    ensures forall i :: 0 <= i < |r| ==> r[i].createdAt == createdAt
  {
    if snapshot == [] then []
    else
      var last := snapshot[|snapshot| - 1];
      Unkeyed(snapshot[..|snapshot| - 1], createdAt)
      + (if last.row.productCode.None? then [ProductOf(last, createdAt)] else [])
  }

  /** The price rows inserted for the snapshot, in its order. */
  function PriceRows(snapshot: seq<Record>, timestamp: string): (r: seq<PriceRow>)
    ensures |r| == |snapshot|
    ensures forall i :: 0 <= i < |r| ==> r[i].timestamp == timestamp
  {
    if snapshot == [] then []
    else PriceRows(snapshot[..|snapshot| - 1], timestamp) + [PriceOf(snapshot[|snapshot| - 1], timestamp)]
  }

  /** The product codes the snapshot carries. */
  function Codes(snapshot: seq<Record>): set<string>
  {
    set i | 0 <= i < |snapshot| && snapshot[i].row.productCode.Some? :: snapshot[i].row.productCode.value
  }

  /** Whether one of the first `n` statements of the transaction raises, when
      statement `k` is the first to raise under `failAt == Some(k)`. */
  predicate Fails(failAt: Option<nat>, n: nat)
  {
    failAt.Some? && failAt.value < n
  }

  /** The two tables of the tracker database. */
  class Database {
    var products: map<string, ProductRow>
    var unkeyed: seq<ProductRow>
    var history: seq<PriceRow>

    /** Every price row with a product code refers to a product row (the
        declared foreign key). */
    ghost predicate Valid()
      reads this
    {
      forall i :: 0 <= i < |history| && history[i].productCode.Some? ==> history[i].productCode.value in products
    }

    /** The database `init_db` creates: two empty tables. */
    constructor ()
      ensures products == map[] && unkeyed == [] && history == []
      ensures Valid()
    {
      products := map[];
      unkeyed := [];
      history := [];
    }

    /** `update_database(df)` for the snapshot `snapshot`. `timestamp` is the run
        timestamp taken once at the start, `createdAt` the default the database
        fills in. The transaction's statements are numbered in execution order:
        the product inserts `0 .. n-1`, the price inserts `n .. 2n-1` and the
        commit `2n`; `failAt` names the first of them that raises, if any. The
        result says whether the transaction committed. */
    method UpdateDatabase(snapshot: seq<Record>, timestamp: string, createdAt: string, failAt: Option<nat>)
      returns (committed: bool)
      modifies this
      ensures committed <==> snapshot != [] && !Fails(failAt, 2 * |snapshot| + 1)
      ensures committed ==> products == Upserted(old(products), snapshot, createdAt)
      ensures committed ==> unkeyed == old(unkeyed) + Unkeyed(snapshot, createdAt)
      ensures committed ==> history == old(history) + PriceRows(snapshot, timestamp)
      ensures !committed ==> products == old(products) && unkeyed == old(unkeyed) && history == old(history)
      ensures old(Valid()) ==> Valid()
    {
      if snapshot == [] {
        return false;
      }
      ghost var wasValid := Valid();
      var n := |snapshot|;
      var savedProducts, savedUnkeyed, savedHistory := products, unkeyed, history;
      var raised := InsertProducts(snapshot, createdAt, failAt);
      if !raised {
        raised := InsertPrices(snapshot, timestamp, failAt, n);
      }
      if raised || failAt == Some(2 * n) {
        // rollback
        products, unkeyed, history := savedProducts, savedUnkeyed, savedHistory;
        return false;
      }
      committed := true;
      if wasValid {
        ValidAfterRun(savedProducts, savedHistory, snapshot, createdAt, timestamp);
      }
    }

    /** The loop of product upserts; `raised` when statement `failAt` is one of them. */
    method InsertProducts(snapshot: seq<Record>, createdAt: string, failAt: Option<nat>) returns (raised: bool)
      modifies this
      ensures raised <==> Fails(failAt, |snapshot|)
      ensures !raised ==> products == Upserted(old(products), snapshot, createdAt)
      ensures !raised ==> unkeyed == old(unkeyed) + Unkeyed(snapshot, createdAt)
      ensures history == old(history)
    {
      var i := 0;
      while i < |snapshot|
        invariant 0 <= i <= |snapshot|
        invariant !Fails(failAt, i)
        invariant products == Upserted(old(products), snapshot[..i], createdAt)
        invariant unkeyed == old(unkeyed) + Unkeyed(snapshot[..i], createdAt)
        invariant history == old(history)
      {
        if failAt == Some(i) {
          return true;
        }
        var rec := snapshot[i];
        assert snapshot[..i + 1][..i] == snapshot[..i];
        if rec.row.productCode.Some? {
          products := products[rec.row.productCode.value := ProductOf(rec, createdAt)];
        } else {
          unkeyed := unkeyed + [ProductOf(rec, createdAt)];
        }
        i := i + 1;
      }
      assert snapshot[..i] == snapshot;
      return false;
    }

    /** The loop of price inserts, statements `offset ..`; `raised` when
        statement `failAt` is one of them. */
    method InsertPrices(snapshot: seq<Record>, timestamp: string, failAt: Option<nat>, offset: nat)
      returns (raised: bool)
      requires !Fails(failAt, offset)
      modifies this
      ensures raised <==> Fails(failAt, offset + |snapshot|)
      ensures !raised ==> history == old(history) + PriceRows(snapshot, timestamp)
      ensures products == old(products) && unkeyed == old(unkeyed)
    {
      var j := 0;
      while j < |snapshot|
        invariant 0 <= j <= |snapshot|
        invariant !Fails(failAt, offset + j)
        invariant history == old(history) + PriceRows(snapshot[..j], timestamp)
        invariant products == old(products) && unkeyed == old(unkeyed)
      {
        if failAt == Some(offset + j) {
          return true;
        }
        assert snapshot[..j + 1][..j] == snapshot[..j];
        history := history + [PriceOf(snapshot[j], timestamp)];
        j := j + 1;
      }
      assert snapshot[..j] == snapshot;
      return false;
    }
  }

  /** A committed run keeps the foreign key: old prices refer to products that
      are still there, new prices to products the same run wrote. */
  lemma ValidAfterRun(table: map<string, ProductRow>, history: seq<PriceRow>, snapshot: seq<Record>,
                      createdAt: string, timestamp: string)
    requires forall i :: 0 <= i < |history| && history[i].productCode.Some? ==> history[i].productCode.value in table
    ensures forall i :: 0 <= i < |history + PriceRows(snapshot, timestamp)|
                        && (history + PriceRows(snapshot, timestamp))[i].productCode.Some?
                        ==> (history + PriceRows(snapshot, timestamp))[i].productCode.value
                            in Upserted(table, snapshot, createdAt)
  {
    var all := history + PriceRows(snapshot, timestamp);
    UpsertedKeys(table, snapshot, createdAt);
    PriceRowsAt(snapshot, timestamp);
    forall i | 0 <= i < |all| && all[i].productCode.Some?
      ensures all[i].productCode.value in Upserted(table, snapshot, createdAt)
    {
      if i >= |history| {
        var k := i - |history|;
        assert all[i] == PriceOf(snapshot[k], timestamp);
      }
    }
  }

  // ---------------------------------------------------------------- properties of a run

  lemma CodesPrefix(snapshot: seq<Record>)
    requires snapshot != []
    ensures Codes(snapshot) == Codes(snapshot[..|snapshot| - 1])
                               + (if snapshot[|snapshot| - 1].row.productCode.Some?
                                  then {snapshot[|snapshot| - 1].row.productCode.value} else {})
  {
    var n := |snapshot| - 1;
    assert forall i :: 0 <= i < n ==> snapshot[..n][i] == snapshot[i];
  }

  /** The product keys after a run are the old keys and the snapshot's codes;
      no product is removed. */
  lemma {:induction false} UpsertedKeys(table: map<string, ProductRow>, snapshot: seq<Record>, createdAt: string)
    ensures Upserted(table, snapshot, createdAt).Keys == table.Keys + Codes(snapshot)
  {
    if snapshot != [] {
      UpsertedKeys(table, snapshot[..|snapshot| - 1], createdAt);
      CodesPrefix(snapshot);
    }
  }

  /** Products whose code is not in the snapshot keep their row. */
  lemma {:induction false} UpsertedUntouched(table: map<string, ProductRow>, snapshot: seq<Record>, createdAt: string, code: string)
    requires code in table && code !in Codes(snapshot)
    ensures code in Upserted(table, snapshot, createdAt)
    ensures Upserted(table, snapshot, createdAt)[code] == table[code]
  {
    if snapshot != [] {
      CodesPrefix(snapshot);
      UpsertedUntouched(table, snapshot[..|snapshot| - 1], createdAt, code);
    }
  }

  /** A code of the snapshot maps to the fields of its last occurrence, whatever
      the table held before. */
  lemma {:induction false} UpsertedLastWins(table: map<string, ProductRow>, snapshot: seq<Record>, createdAt: string, i: nat)
    requires i < |snapshot| && snapshot[i].row.productCode.Some?
    requires forall j :: i < j < |snapshot| ==> snapshot[j].row.productCode != snapshot[i].row.productCode
    ensures snapshot[i].row.productCode.value in Upserted(table, snapshot, createdAt)
    ensures Upserted(table, snapshot, createdAt)[snapshot[i].row.productCode.value] == ProductOf(snapshot[i], createdAt)
  {
    var n := |snapshot| - 1;
    if i < n {
      var prefix := snapshot[..n];
      assert prefix[i] == snapshot[i];
      UpsertedLastWins(table, prefix, createdAt, i);
    }
  }

  /** On the snapshot's codes the result does not depend on the earlier table. */
  lemma UpsertedOverrides(t1: map<string, ProductRow>, t2: map<string, ProductRow>, snapshot: seq<Record>,
                          createdAt: string, code: string)
    requires code in Codes(snapshot)
    ensures code in Upserted(t1, snapshot, createdAt) && code in Upserted(t2, snapshot, createdAt)
    ensures Upserted(t1, snapshot, createdAt)[code] == Upserted(t2, snapshot, createdAt)[code]
  {
    var i := LastOccurrence(snapshot, code);
    UpsertedLastWins(t1, snapshot, createdAt, i);
    UpsertedLastWins(t2, snapshot, createdAt, i);
  }

  /** The last position of a code in the snapshot. */
  lemma {:induction false} LastOccurrence(snapshot: seq<Record>, code: string) returns (i: nat)
    requires code in Codes(snapshot)
    ensures i < |snapshot| && snapshot[i].row.productCode == Some(code)
    ensures forall j :: i < j < |snapshot| ==> snapshot[j].row.productCode != Some(code)
  {
    var n := |snapshot| - 1;
    if snapshot[n].row.productCode == Some(code) {
      i := n;
    } else {
      CodesPrefix(snapshot);
      i := LastOccurrence(snapshot[..n], code);
    }
  }

  /** Writing the same snapshot again leaves the products as the second write
      alone would: the same keys and fields, with the second run's `created_at`
      on every product the snapshot carries (a replace resets it). With equal
      defaults this is idempotence. */
  lemma UpsertedIdempotent(table: map<string, ProductRow>, snapshot: seq<Record>, createdAt1: string, createdAt2: string)
    ensures Upserted(Upserted(table, snapshot, createdAt1), snapshot, createdAt2) == Upserted(table, snapshot, createdAt2)
  {
    var once := Upserted(table, snapshot, createdAt1);
    var twice := Upserted(once, snapshot, createdAt2);
    var direct := Upserted(table, snapshot, createdAt2);
    UpsertedKeys(table, snapshot, createdAt1);
    UpsertedKeys(once, snapshot, createdAt2);
    UpsertedKeys(table, snapshot, createdAt2);
    forall code | code in twice.Keys ensures twice[code] == direct[code] {
      if code in Codes(snapshot) {
        UpsertedOverrides(once, table, snapshot, createdAt2, code);
      } else {
        UpsertedUntouched(once, snapshot, createdAt2, code);
        UpsertedUntouched(table, snapshot, createdAt1, code);
        UpsertedUntouched(table, snapshot, createdAt2, code);
      }
    }
  }

  /** One price row per snapshot record, in snapshot order, each with the
      record's code and price and the run's single timestamp. */
  lemma {:induction false} PriceRowsAt(snapshot: seq<Record>, timestamp: string)
    ensures |PriceRows(snapshot, timestamp)| == |snapshot|
    ensures forall i :: 0 <= i < |snapshot| ==>
              PriceRows(snapshot, timestamp)[i] == PriceRow(snapshot[i].row.productCode, snapshot[i].row.currentPrice, timestamp)
  {
    if snapshot != [] {
      var n := |snapshot| - 1;
      PriceRowsAt(snapshot[..n], timestamp);
      assert forall i :: 0 <= i < n ==> snapshot[..n][i] == snapshot[i];
    }
  }

  /** The rows with a NULL code added by a run are those of the snapshot's
      records without a code: one row per such record and no other. */
  lemma {:induction false} UnkeyedOnlyNullCodes(snapshot: seq<Record>, createdAt: string)
    ensures |Unkeyed(snapshot, createdAt)| <= |snapshot|
    ensures (forall i :: 0 <= i < |snapshot| ==> snapshot[i].row.productCode.Some?) ==> Unkeyed(snapshot, createdAt) == []
    ensures forall x :: x in Unkeyed(snapshot, createdAt) <==>
              exists i :: 0 <= i < |snapshot| && snapshot[i].row.productCode.None? && ProductOf(snapshot[i], createdAt) == x
  {
    if snapshot != [] {
      var n := |snapshot| - 1;
      UnkeyedOnlyNullCodes(snapshot[..n], createdAt);
      assert forall i :: 0 <= i < n ==> snapshot[..n][i] == snapshot[i];
    }
  }

  /** Each record without a code adds its own row, at its place in snapshot
      order; a record with a code adds none. */
  lemma UnkeyedAt(snapshot: seq<Record>, i: nat, createdAt: string)
    requires i < |snapshot|
    ensures Unkeyed(snapshot, createdAt)
            == Unkeyed(snapshot[..i], createdAt)
               + (if snapshot[i].row.productCode.None? then [ProductOf(snapshot[i], createdAt)] else [])
               + Unkeyed(snapshot[i + 1..], createdAt)
  {
    var x := snapshot[i];
    assert snapshot == snapshot[..i] + [x] + snapshot[i + 1..];
    UnkeyedAppend(snapshot[..i] + [x], snapshot[i + 1..], createdAt);
    UnkeyedAppend(snapshot[..i], [x], createdAt);
    assert [x][..0] == [];
  }

  /** The NULL-code rows of a concatenation are those of its parts, in order. */
  lemma {:induction false} UnkeyedAppend(a: seq<Record>, b: seq<Record>, createdAt: string)
    ensures Unkeyed(a + b, createdAt) == Unkeyed(a, createdAt) + Unkeyed(b, createdAt)
  {
    if b == [] {
      assert a + b == a;
    } else {
      var n := |b| - 1;
      var ab := a + b;
      assert ab[..|ab| - 1] == a + b[..n];
      assert ab[|ab| - 1] == b[n];
      UnkeyedAppend(a, b[..n], createdAt);
      var ua, ub := Unkeyed(a, createdAt), Unkeyed(b[..n], createdAt);
      var x := if b[n].row.productCode.None? then [ProductOf(b[n], createdAt)] else [];
      assert Unkeyed(ab, createdAt) == (ua + ub) + x;
      assert (ua + ub) + x == ua + (ub + x);
    }
  }

  /** Upserting a concatenation upserts its parts one after the other. */
  lemma {:induction false} UpsertedAppend(table: map<string, ProductRow>, a: seq<Record>, b: seq<Record>, createdAt: string)
    ensures Upserted(table, a + b, createdAt) == Upserted(Upserted(table, a, createdAt), b, createdAt)
  {
    if b == [] {
      assert a + b == a;
    } else {
      var n := |b| - 1;
      var ab := a + b;
      assert ab[..|ab| - 1] == a + b[..n];
      assert ab[|ab| - 1] == b[n];
      UpsertedAppend(table, a, b[..n], createdAt);
    }
  }

  /** Frames with no code in common give the same products in either order:
      the products table depends on the completion order of the categories
      only through codes that several categories share. */
  lemma UpsertedCommutes(table: map<string, ProductRow>, a: seq<Record>, b: seq<Record>, createdAt: string)
    requires Codes(a) !! Codes(b)
    ensures Upserted(table, a + b, createdAt) == Upserted(table, b + a, createdAt)
  {
    var ta := Upserted(table, a, createdAt);
    var tb := Upserted(table, b, createdAt);
    var ab := Upserted(ta, b, createdAt);
    var ba := Upserted(tb, a, createdAt);
    UpsertedAppend(table, a, b, createdAt);
    UpsertedAppend(table, b, a, createdAt);
    UpsertedKeys(table, a, createdAt);
    UpsertedKeys(table, b, createdAt);
    UpsertedKeys(ta, b, createdAt);
    UpsertedKeys(tb, a, createdAt);
    forall code | code in ab.Keys ensures code in ba && ab[code] == ba[code] {
      if code in Codes(b) {
        UpsertedOverrides(ta, table, b, createdAt, code);
        UpsertedUntouched(tb, a, createdAt, code);
      } else if code in Codes(a) {
        UpsertedUntouched(ta, b, createdAt, code);
        UpsertedOverrides(tb, table, a, createdAt, code);
      } else {
        UpsertedUntouched(ta, b, createdAt, code);
        UpsertedUntouched(table, a, createdAt, code);
        UpsertedUntouched(tb, a, createdAt, code);
        UpsertedUntouched(table, b, createdAt, code);
      }
    }
  }

  /** Two records with distinct codes written into empty tables give two
      product rows and two price rows with the same timestamp. */
  lemma TwoProductsIntoEmptyTables(r1: Record, r2: Record, createdAt: string, timestamp: string)
    requires r1.row.productCode.Some? && r2.row.productCode.Some?
    requires r1.row.productCode != r2.row.productCode
    ensures Upserted(map[], [r1, r2], createdAt).Keys == {r1.row.productCode.value, r2.row.productCode.value}
    ensures |PriceRows([r1, r2], timestamp)| == 2
    ensures PriceRows([r1, r2], timestamp)[0].timestamp == PriceRows([r1, r2], timestamp)[1].timestamp == timestamp
  {
    var s := [r1, r2];
    UpsertedKeys(map[], s, createdAt);
    assert Codes(s) == {r1.row.productCode.value, r2.row.productCode.value} by {
      assert s[0] == r1 && s[1] == r2;
    }
    PriceRowsAt(s, timestamp);
  }
}
