/** The Products table as the service sees it: the outcome of one Scan, the
    outcome of GetItem for each key, and the attribute-value decoder. The store
    and the decoder are foreign code, so they appear only as their results. */
module Store {
  import opened Catalog

  /** Outcome of the single Scan call: the store's error text, or the raw items that call
      returns, in scan order. */
  datatype ScanOutput<Raw> = ScanFailed(message: string) | Scanned(items: seq<Raw>)

  /** Outcome of GetItem by key: the store's error text, no item under the key, or the raw item. */
  datatype GetItemOutput<Raw> = GetItemFailed(message: string) | NoItem | Found(item: Raw)

  /** A snapshot of the table: what Scan answers and what GetItem answers for each id. */
  datatype Store<Raw> = Store(scan: ScanOutput<Raw>, getItem: string -> GetItemOutput<Raw>)

  /** Outcome of unmarshalling one raw item into a ProductItem (attributevalue.UnmarshalMap). */
  datatype Decoded = DecodeFailed(message: string) | Decoded(item: ProductItem)

  /** Outcome of unmarshalling a list of raw items (attributevalue.UnmarshalListOfMaps). */
  datatype DecodedList = ListDecodeFailed(message: string) | DecodedList(items: seq<ProductItem>)

  /** Decodes every raw item in order; the first item that fails fails the whole list. */
  function DecodeAll<Raw>(raws: seq<Raw>, decode: Raw -> Decoded): (r: DecodedList)
    ensures r.DecodedList? <==> forall i :: 0 <= i < |raws| ==> decode(raws[i]).Decoded?
    ensures r.DecodedList? ==>
      && |r.items| == |raws|
      && forall i :: 0 <= i < |raws| ==> decode(raws[i]) == Decoded(r.items[i])
    ensures r.ListDecodeFailed? ==>
      exists k :: FirstFailure(raws, decode, k) && decode(raws[k]).message == r.message
  {
    if raws == [] then
      DecodedList([])
    else
      match decode(raws[0])
      case DecodeFailed(m) =>
        assert FirstFailure(raws, decode, 0);
        ListDecodeFailed(m)
      case Decoded(item) =>
        var rest := DecodeAll(raws[1..], decode);
        match rest
        case ListDecodeFailed(m) =>
          assert exists k :: FirstFailure(raws, decode, k) && decode(raws[k]).message == m by {
            var k :| FirstFailure(raws[1..], decode, k) && decode(raws[1..][k]).message == m;
            assert FirstFailure(raws, decode, k + 1);
          }
          ListDecodeFailed(m)
        case DecodedList(items) =>
          DecodedList([item] + items)
  }

  /** raws[k] is the first raw item that does not decode. */
  ghost predicate FirstFailure<Raw>(raws: seq<Raw>, decode: Raw -> Decoded, k: int) {
    && 0 <= k < |raws|
    && decode(raws[k]).DecodeFailed?
    && forall j :: 0 <= j < k ==> decode(raws[j]).Decoded?
  }
}
