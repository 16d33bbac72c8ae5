/** A one-product catalog and what each operation answers over it. */
module Scenario {
  import opened Rpc
  import opened Text
  import opened Catalog
  import opened Store
  import opened ProductCatalogService

  const Typewriter := ProductItem(
    "1",
    "Vintage Typewriter",
    "A classic writing machine",
    "",
    Price("USD", 67, 990000000),
    ["vintage", "office"])

  /** A decoder under which every raw item is already a well-formed ProductItem. */
  function DecodeAsIs(item: ProductItem): Decoded {
    Decoded(item)
  }

  /** The table holds Typewriter alone, keyed by its id. */
  function DemoStore(): Store<ProductItem> {
    Store(Scanned([Typewriter]), id => if id == "1" then Found(Typewriter) else NoItem)
  }

  /** Listing the catalog yields the one converted product. */
  lemma DemoListing()
    ensures Listing(DemoStore().scan, DecodeAsIs) == Ok([ConvertToProto(Typewriter)])
  {
    var listed := Listing(DemoStore().scan, DecodeAsIs);
    assert listed.Ok?;
    assert listed.value == [ConvertToProto(Typewriter)];
  }

  /** Searching for "TYPE" finds the typewriter through its name, ignoring case. */
  lemma DemoSearchIgnoresCase()
    ensures Filter([ConvertToProto(Typewriter)], ToLower("TYPE")) == [ConvertToProto(Typewriter)]
  {
    TypewriterMatchesType();
    FilterSingleton(ConvertToProto(Typewriter), ToLower("TYPE"));
  }

  /** "TYPE" occurs, up to case, at position 8 of the name "Vintage Typewriter". */
  lemma TypewriterMatchesType()
    ensures Matches(ConvertToProto(Typewriter), ToLower("TYPE"))
  {
    var p := ConvertToProto(Typewriter);
    assert p.name[8..12] == "Type";
    SameLowerCase();
    NameOccurrenceMatches(p, "Type", 8, "TYPE");
  }

  lemma SameLowerCase()
    ensures ToLower("TYPE") == ToLower("Type")
  {
    assert forall i :: 0 <= i < 4 ==> LowerChar("TYPE"[i]) == LowerChar("Type"[i]);
  }

  /** Searching for the empty string returns the whole catalog. */
  lemma DemoSearchEmptyQuery()
    ensures Filter([ConvertToProto(Typewriter)], ToLower("")) == [ConvertToProto(Typewriter)]
  {
    FilterEmptyQuery([ConvertToProto(Typewriter)]);
  }

  /** Looking up an id the table does not hold fails with NotFound. */
  lemma DemoGetMissing()
    ensures GetProduct(DemoStore(), DecodeAsIs, "2") == Err(Status(NotFound, "no product with ID 2"))
  {
  }

  /** The demo store answers lookups consistently with its scan, so GetProduct("1")
      returns the listed typewriter. */
  lemma DemoGetPresent()
    ensures GetProduct(DemoStore(), DecodeAsIs, "1") == Ok(ConvertToProto(Typewriter))
    ensures ServesSnapshot(DemoStore(), DecodeAsIs)
  {
  }

  /** A failed scan answers Internal and lists nothing. */
  lemma DemoScanFailure(message: string)
    ensures Listing(ScanOutput<ProductItem>.ScanFailed(message), DecodeAsIs)
      == Err(Status(Internal, "failed to scan dynamodb: " + message))
  {
  }

  /** The SearchProducts handler itself, run on the demo store with the query "TYPE",
      answers with the typewriter. */
  method DemoSearchEndToEnd() returns (r: Result<seq<Product>>)
    ensures r == Ok([ConvertToProto(Typewriter)])
  {
    r := SearchProducts(DemoStore(), DecodeAsIs, "TYPE");
    DemoListing();
    DemoSearchIgnoresCase();
  }
}
