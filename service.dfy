/** The store-backed product catalog service: ListProducts, GetProduct and
    SearchProducts over one snapshot of the Products table. */
module ProductCatalogService {
  import opened Rpc
  import opened Text
  import opened Catalog
  import opened Store

  const ScanFailurePrefix := "failed to scan dynamodb: "
  const ListDecodeFailurePrefix := "failed to unmarshal dynamodb items: "
  const GetItemFailurePrefix := "dynamodb error: "
  const NotFoundPrefix := "no product with ID "
  const ItemDecodeFailurePrefix := "failed to unmarshal item: "

  // ---------------------------------------------------------------- listing

  /** The answer ListProducts gives for a scan outcome: the scanned items converted
      one for one in scan order, or an Internal error and no products at all. */
  function Listing<Raw>(scan: ScanOutput<Raw>, decode: Raw -> Decoded): (r: Result<seq<Product>>)
    ensures r.Ok? <==>
      scan.Scanned? && forall i :: 0 <= i < |scan.items| ==> decode(scan.items[i]).Decoded?
    ensures r.Ok? ==>
      && scan.Scanned?
      && |r.value| == |scan.items|
      && forall i :: 0 <= i < |scan.items| ==>
           decode(scan.items[i]).Decoded? && r.value[i] == ConvertToProto(decode(scan.items[i]).item)
    ensures r.Err? ==> r.error.code == Internal
    ensures scan.ScanFailed? ==> r == Err(Status(Internal, ScanFailurePrefix + scan.message))
    ensures scan.Scanned? && r.Err? ==>
      exists k :: FirstFailure(scan.items, decode, k)
        && r.error.message == ListDecodeFailurePrefix + decode(scan.items[k]).message
  {
    match scan
    case ScanFailed(m) => Err(Status(Internal, ScanFailurePrefix + m))
    case Scanned(raws) =>
      match DecodeAll(raws, decode)
      case ListDecodeFailed(m) => Err(Status(Internal, ListDecodeFailurePrefix + m))
      case DecodedList(items) => Ok(seq(|items|, i requires 0 <= i < |items| => ConvertToProto(items[i])))
  }

  /** ListProducts: one scan, one decode of the whole list, then one product per item. */
  method ListProducts<Raw>(store: Store<Raw>, decode: Raw -> Decoded) returns (r: Result<seq<Product>>)
    ensures r == Listing(store.scan, decode)
  {
    if store.scan.ScanFailed? {
      return Err(Status(Internal, ScanFailurePrefix + store.scan.message));
    }
    var decoded := DecodeAll(store.scan.items, decode);
    if decoded.ListDecodeFailed? {
      return Err(Status(Internal, ListDecodeFailurePrefix + decoded.message));
    }
    var items := decoded.items;
    var products: seq<Product> := [];
    for i := 0 to |items|
      invariant |products| == i
      invariant forall k :: 0 <= k < i ==> products[k] == ConvertToProto(items[k])
    {
      products := products + [ConvertToProto(items[i])];
    }
    assert products == seq(|items|, i requires 0 <= i < |items| => ConvertToProto(items[i]));
    return Ok(products);
  }

  // ---------------------------------------------------------------- point lookup

  /** GetProduct: one GetItem by id, split four ways on its outcome. */
  function GetProduct<Raw>(store: Store<Raw>, decode: Raw -> Decoded, id: string): (r: Result<Product>)
    ensures r.Ok? <==> store.getItem(id).Found? && decode(store.getItem(id).item).Decoded?
    ensures r.Ok? ==> r.value == ConvertToProto(decode(store.getItem(id).item).item)
    ensures r.Err? && r.error.code == NotFound <==> store.getItem(id).NoItem?
    ensures store.getItem(id).NoItem? ==> r == Err(Status(NotFound, NotFoundPrefix + id))
    ensures store.getItem(id).GetItemFailed? ==>
      r == Err(Status(Internal, GetItemFailurePrefix + store.getItem(id).message))
    ensures store.getItem(id).Found? && decode(store.getItem(id).item).DecodeFailed? ==>
      r == Err(Status(Internal, ItemDecodeFailurePrefix + decode(store.getItem(id).item).message))
  {
    match store.getItem(id)
    case GetItemFailed(m) => Err(Status(Internal, GetItemFailurePrefix + m))
    case NoItem => Err(Status(NotFound, NotFoundPrefix + id))
    case Found(raw) =>
      match decode(raw)
      case DecodeFailed(m) => Err(Status(Internal, ItemDecodeFailurePrefix + m))
      case Decoded(item) => Ok(ConvertToProto(item))
  }

  /** A store whose GetItem answers agree with its Scan: every lookup succeeds at the
      store level, every scanned item decodes, a lookup finds a scanned item carrying
      that id, and it finds nothing when no scanned item carries the id. */
  ghost predicate ServesSnapshot<Raw>(store: Store<Raw>, decode: Raw -> Decoded) {
    && store.scan.Scanned?
    && (forall r :: r in store.scan.items ==> decode(r).Decoded?)
    && (forall id :: !store.getItem(id).GetItemFailed?)
    && (forall id :: store.getItem(id).Found? ==>
          store.getItem(id).item in store.scan.items && decode(store.getItem(id).item).item.id == id)
    && (forall id :: store.getItem(id).NoItem? ==>
          forall r :: r in store.scan.items ==> decode(r).item.id != id)
  }

  /** Over a consistent store, GetProduct(id) succeeds exactly when ListProducts lists a
      product with that id, and then returns one of the listed products with that id;
      otherwise it fails with NotFound. */
  lemma GetProductAgreesWithListing<Raw>(store: Store<Raw>, decode: Raw -> Decoded, id: string)
    requires ServesSnapshot(store, decode)
    ensures Listing(store.scan, decode).Ok?
    ensures var listed := Listing(store.scan, decode).value;
      && (GetProduct(store, decode, id).Ok? <==> exists p :: p in listed && p.id == id)
      && (GetProduct(store, decode, id).Ok? ==>
            GetProduct(store, decode, id).value in listed && GetProduct(store, decode, id).value.id == id)
      && (GetProduct(store, decode, id).Err? ==>
            GetProduct(store, decode, id).error == Status(NotFound, NotFoundPrefix + id))
  {
  }

  // ---------------------------------------------------------------- search

  /** A product matches an already lower-cased query when the query occurs in its
      lower-cased name or in its lower-cased description. */
  predicate Matches(p: Product, loweredQuery: string)
    ensures loweredQuery == [] ==> Matches(p, loweredQuery)
    ensures Matches(p, loweredQuery) ==>
      |loweredQuery| <= |p.name| || |loweredQuery| <= |p.description|
  {
    Contains(ToLower(p.name), loweredQuery) || Contains(ToLower(p.description), loweredQuery)
  }

  /** The elements of xs that keep accepts, in their original order. */
  function Select<T>(xs: seq<T>, keep: T -> bool): (r: seq<T>)
    ensures |r| <= |xs|
    ensures forall x :: x in r ==> x in xs && keep(x)
    decreases |xs|
  {
    if xs == [] then
      []
    else
      var init := Select(xs[..|xs| - 1], keep);
      if keep(xs[|xs| - 1]) then init + [xs[|xs| - 1]] else init
  }

  /** r is the subsequence of xs taken at the strictly increasing positions idx
      (of which there are therefore at most |xs|). */
  ghost predicate SubsequenceAt<T>(xs: seq<T>, r: seq<T>, idx: seq<int>) {
    && |idx| == |r| <= |xs|
    && (forall k :: 0 <= k < |idx| ==> 0 <= idx[k] < |xs| && r[k] == xs[idx[k]])
    && (forall k, l :: 0 <= k < l < |idx| ==> idx[k] < idx[l])
  }

  /** idx holds exactly the positions of xs whose element keep accepts. */
  ghost predicate KeptPositions<T>(xs: seq<T>, idx: seq<int>, keep: T -> bool) {
    forall i :: 0 <= i < |xs| ==> (keep(xs[i]) <==> i in idx)
  }

  /** Select keeps exactly the accepted positions, in order. */
  lemma {:induction false} SelectKeepsAccepted<T>(xs: seq<T>, keep: T -> bool) returns (idx: seq<int>)
    ensures SubsequenceAt(xs, Select(xs, keep), idx)
    ensures KeptPositions(xs, idx, keep)
    decreases |xs|
  {
    if xs == [] {
      idx := [];
    } else {
      var n := |xs| - 1;
      var init := xs[..n];
      var r0 := Select(init, keep);
      var idx0 := SelectKeepsAccepted(init, keep);
      var last := if keep(xs[n]) then [n] else [];
      idx := idx0 + last;
      var r := Select(xs, keep);
      assert r == r0 + (if keep(xs[n]) then [xs[n]] else []);
      forall k | 0 <= k < |idx| ensures 0 <= idx[k] < |xs| && r[k] == xs[idx[k]] {
        if k < |idx0| {
          assert r[k] == r0[k] == init[idx0[k]];
        }
      }
      forall i | 0 <= i < |xs| ensures keep(xs[i]) <==> i in idx {
        if i < n {
          assert xs[i] == init[i];
          assert i in idx <==> i in idx0;
        }
      }
    }
  }

  /** Strictly increasing positions below bound number at most bound. */
  lemma {:induction false} IncreasingBelow(idx: seq<int>, bound: nat)
    requires forall k :: 0 <= k < |idx| ==> 0 <= idx[k] < bound
    requires forall k, l :: 0 <= k < l < |idx| ==> idx[k] < idx[l]
    ensures |idx| <= bound
    decreases |idx|
  {
    if idx != [] {
      var m := |idx| - 1;
      IncreasingBelow(idx[..m], idx[m]);
    }
  }

  /** In strictly increasing positions none above n, the position n, if present, comes last. */
  lemma LargestComesLast(idx: seq<int>, n: int)
    requires forall k :: 0 <= k < |idx| ==> idx[k] <= n
    requires forall k, l :: 0 <= k < l < |idx| ==> idx[k] < idx[l]
    requires n in idx
    ensures |idx| > 0 && idx[|idx| - 1] == n
  {
  }

  /** Cutting the last position n off the positions also cuts n off the accepted ones. */
  lemma DropLastPosition<T>(xs: seq<T>, idx: seq<int>, keep: T -> bool)
    requires KeptPositions(xs, idx, keep)
    requires forall k, l :: 0 <= k < l < |idx| ==> idx[k] < idx[l]
    requires |idx| > 0 && |xs| > 0 && idx[|idx| - 1] == |xs| - 1
    ensures KeptPositions(xs[..|xs| - 1], idx[..|idx| - 1], keep)
  {
  }

  /** Removing an accepted last element from a selection leaves a selection of the
      shorter sequence, and that element was the last one selected. */
  lemma DropAcceptedLast<T>(xs: seq<T>, r: seq<T>, idx: seq<int>, keep: T -> bool)
    requires SubsequenceAt(xs, r, idx)
    requires KeptPositions(xs, idx, keep)
    requires xs != [] && keep(xs[|xs| - 1])
    ensures |r| > 0 && r == r[..|r| - 1] + [xs[|xs| - 1]]
    ensures SubsequenceAt(xs[..|xs| - 1], r[..|r| - 1], idx[..|idx| - 1])
    ensures KeptPositions(xs[..|xs| - 1], idx[..|idx| - 1], keep)
  {
    var n := |xs| - 1;
    LargestComesLast(idx, n);
    DropLastPosition(xs, idx, keep);
    var m := |idx| - 1;
    var init, idx0, r0 := xs[..n], idx[..m], r[..m];
    forall k | 0 <= k < |idx0| ensures 0 <= idx0[k] < |init| && r0[k] == init[idx0[k]] {
      assert idx[k] < idx[m];
    }
  }

  /** Removing a rejected last element leaves the same selection of the shorter sequence. */
  lemma DropRejectedLast<T>(xs: seq<T>, r: seq<T>, idx: seq<int>, keep: T -> bool)
    requires SubsequenceAt(xs, r, idx)
    requires KeptPositions(xs, idx, keep)
    requires xs != [] && !keep(xs[|xs| - 1])
    ensures SubsequenceAt(xs[..|xs| - 1], r, idx)
    ensures KeptPositions(xs[..|xs| - 1], idx, keep)
  {
    var n := |xs| - 1;
    var init := xs[..n];
    assert n !in idx;
    forall k | 0 <= k < |idx| ensures 0 <= idx[k] < |init| && r[k] == init[idx[k]] {
    }
    IncreasingBelow(idx, n);
    forall i | 0 <= i < |init| ensures keep(init[i]) <==> i in idx {
      assert init[i] == xs[i];
    }
  }

  /** Conversely, the only subsequence that keeps exactly the accepted positions is Select's. */
  lemma {:induction false} SelectionIsSelect<T>(xs: seq<T>, r: seq<T>, idx: seq<int>, keep: T -> bool)
    requires SubsequenceAt(xs, r, idx)
    requires KeptPositions(xs, idx, keep)
    ensures r == Select(xs, keep)
    decreases |xs|
  {
    if xs == [] {
    } else if keep(xs[|xs| - 1]) {
      DropAcceptedLast(xs, r, idx, keep);
      SelectionIsSelect(xs[..|xs| - 1], r[..|r| - 1], idx[..|idx| - 1], keep);
    } else {
      DropRejectedLast(xs, r, idx, keep);
      SelectionIsSelect(xs[..|xs| - 1], r, idx, keep);
    }
  }

  /** A predicate that accepts everything keeps the whole sequence. */
  lemma {:induction false} SelectAll<T>(xs: seq<T>, keep: T -> bool)
    requires forall x :: x in xs ==> keep(x)
    ensures Select(xs, keep) == xs
    decreases |xs|
  {
    if xs != [] {
      var n := |xs| - 1;
      SelectAll(xs[..n], keep);
      assert xs[n] in xs;
      assert xs[..n] + [xs[n]] == xs;
    }
  }

  /** The search results for a lower-cased query: the matching products in listing order. */
  function Filter(ps: seq<Product>, loweredQuery: string): (r: seq<Product>)
    ensures forall p :: p in r ==> p in ps && Matches(p, loweredQuery)
  {
    Select(ps, p => Matches(p, loweredQuery))
  }

  /** When every product matches, the search keeps the whole list. */
  lemma FilterAllMatch(ps: seq<Product>, loweredQuery: string)
    requires forall p :: p in ps ==> Matches(p, loweredQuery)
    ensures Filter(ps, loweredQuery) == ps
  {
    SelectAll(ps, p => Matches(p, loweredQuery));
  }

  /** A one-product listing is kept exactly when its product matches. */
  lemma FilterSingleton(p: Product, loweredQuery: string)
    ensures Filter([p], loweredQuery) == if Matches(p, loweredQuery) then [p] else []
  {
  }

  /** Conversely, every listed product that matches is among the results. */
  lemma FilterComplete(ps: seq<Product>, loweredQuery: string, p: Product)
    requires p in ps && Matches(p, loweredQuery)
    ensures p in Filter(ps, loweredQuery)
  {
    var idx := SelectKeepsAccepted(ps, x => Matches(x, loweredQuery));
    var i :| 0 <= i < |ps| && ps[i] == p;
    assert i in idx;
    var k :| 0 <= k < |idx| && idx[k] == i;
    assert Filter(ps, loweredQuery)[k] == p;
  }

  /** The empty query matches every product, so the search keeps the whole list. */
  lemma FilterEmptyQuery(ps: seq<Product>)
    ensures Filter(ps, ToLower("")) == ps
  {
    FilterAllMatch(ps, "");
  }

  /** Matching ignores case: a product whose name contains sub at some position
      matches every query that lower-cases to the same string as sub. */
  lemma NameOccurrenceMatches(p: Product, sub: string, i: int, query: string)
    requires OccursAt(p.name, sub, i)
    requires ToLower(query) == ToLower(sub)
    ensures Matches(p, ToLower(query))
  {
    var lowered := ToLower(p.name);
    assert lowered[i..i + |sub|] == ToLower(sub) by {
      forall j | 0 <= j < |sub| ensures lowered[i..i + |sub|][j] == ToLower(sub)[j] {
        assert p.name[i..i + |sub|][j] == sub[j];
      }
    }
    assert OccursAt(lowered, ToLower(query), i);
    ContainsIffOccurs(lowered, ToLower(query));
  }

  /** SearchProducts: the listing's error unchanged, or the listed products whose name
      or description contains the query, compared case-insensitively, in listing order. */
  method SearchProducts<Raw>(store: Store<Raw>, decode: Raw -> Decoded, query: string)
    returns (r: Result<seq<Product>>)
    ensures Listing(store.scan, decode).Err? ==> r == Listing(store.scan, decode)
    ensures Listing(store.scan, decode).Ok? ==>
      r == Ok(Filter(Listing(store.scan, decode).value, ToLower(query)))
  {
    var listed := ListProducts(store, decode);
    if listed.Err? {
      return listed;
    }
    var products := listed.value;
    var results: seq<Product> := [];
    var loweredQuery := ToLower(query);
    for i := 0 to |products|
      invariant results == Filter(products[..i], loweredQuery)
    {
      var p := products[i];
      if Contains(ToLower(p.name), loweredQuery) || Contains(ToLower(p.description), loweredQuery) {
        results := results + [p];
      }
      assert products[..i + 1][..i] == products[..i];
      assert products[..i + 1][i] == p;
    }
    assert products[..|products|] == products;
    return Ok(results);
  }
}
