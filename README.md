# Product catalog service — Dafny model

This project models the store-backed product catalog service of the online boutique
(`Code/productcatalogservice/product_catalog.go`). The service answers three read-only
RPCs over a DynamoDB table named `Products`, and it also registers a gRPC health responder:

- **ListProducts** issues a single `Scan` call. It unmarshals every item that call returns and
  converts each one, in scan order, into a wire `Product`. A scan error or an unmarshal error fails the
  whole call with `Internal`, and the caller gets no products.
- **GetProduct** does one `GetItem` by id. It splits four ways on the outcome: a store error
  gives `Internal`, an absent item gives `NotFound`, an unmarshal error gives `Internal`, and
  otherwise it returns the converted product.
- **SearchProducts** reuses ListProducts and passes its error on unchanged. Otherwise it keeps,
  in order, the products whose lower-cased name or lower-cased description contains the
  lower-cased query.
- **Check** always answers SERVING. **Watch** always answers Unimplemented.

The table and the AWS SDK are foreign code, so the model sees them only through their
outcomes. A `Store<Raw>` value holds what the single `Scan` call returns (`ScanFailed(msg)` or
`Scanned(items)`, the items of that one call) and what `GetItem` returns for each id (`GetItemFailed(msg)`, `NoItem` or
`Found(item)`). The SDK's attribute-value unmarshaller is a parameter
`decode: Raw -> Decoded`, which may fail on any item.

Files:

| file | module | contents |
|---|---|---|
| `rpc.dfy` | `Rpc` | gRPC codes, `Status`, and the `Result` of a handler |
| `text.dfy` | `Text` | ASCII `ToLower` and `Contains`, with their characterisations |
| `catalog.dfy` | `Catalog` | `ProductItem`/`Price`, the wire `Product`/`Money`, and `ConvertToProto` |
| `store.dfy` | `Store` | scan and lookup outcomes, and `DecodeAll` (`UnmarshalListOfMaps`) |
| `service.dfy` | `ProductCatalogService` | `Listing`/`ListProducts`, `GetProduct`, `Select`/`Filter`/`SearchProducts` and their lemmas |
| `health.dfy` | `Health` | `Check` and `Watch` |
| `scenario.dfy` | `Scenario` | a one-product catalog ("Vintage Typewriter") and what each operation answers over it |

ListProducts and SearchProducts build their slices by `append` in a loop. They are therefore
methods whose loops carry invariants, and each method is proved equal to a specification
function (`Listing`, `Filter`). The properties are proved about those functions.
ConvertToProto, GetProduct, Check and Watch are straight-line code, so they are functions.

The code validates nothing: GetProduct looks up an empty id like any other, and the
conversion does not check the money invariants (nanos range, same sign as units).

## Model

| member | source | states |
|---|---|---|
| `Text.LowerChar` | Code/productcatalogservice/product_catalog.go:175 | the lower-cased character is never an upper-case ASCII letter; non-letters are unchanged; a capital maps to its small letter |
| `Text.ToLower` | Code/productcatalogservice/product_catalog.go:175-178 | lower-casing keeps the length and lower-cases each character in place |
| `Text.ContainsIffOccurs` | Code/productcatalogservice/product_catalog.go:177-178 | `strings.Contains(s, sub)` holds exactly when sub occurs in s at some position (both directions) |
| `Text.Contains` | Code/productcatalogservice/product_catalog.go:177-178 | the empty string is contained in every string, and nothing longer than the string is contained in it |
| `Catalog.ConvertToProto` | Code/productcatalogservice/product_catalog.go:187-200 | the persisted item can be read back from the wire product it yields, so the conversion drops nothing |
| `Catalog.ConvertToProtoCopiesFields` | Code/productcatalogservice/product_catalog.go:187-200 | id, name, description, picture, currency code, units, nanos and categories (in order) are copied unchanged |
| `Catalog.ConvertToProtoLossless` | Code/productcatalogservice/product_catalog.go:94-107 | the conversion from the persisted item to the wire product is a bijection: it loses nothing and rejects nothing |
| `Store.DecodeAll` | Code/productcatalogservice/product_catalog.go:126-130 | the list decodes exactly when every item decodes; then item i is the decoding of raw item i; otherwise the error is that of the first failing item |
| `ProductCatalogService.Listing` | Code/productcatalogservice/product_catalog.go:117-138 | success exactly when the scan succeeds and every item decodes; then one product per scanned item, in scan order, the i-th being the conversion of item i; otherwise an Internal error (scan error text or first decode error text) and no products |
| `ProductCatalogService.ListProducts` | Code/productcatalogservice/product_catalog.go:117-138 | the loop that appends one converted product per item returns exactly `Listing` of the scan |
| `ProductCatalogService.GetProduct` | Code/productcatalogservice/product_catalog.go:140-163 | store error gives Internal; absent item gives NotFound (and only then); decode failure gives Internal; otherwise the converted located item |
| `ProductCatalogService.GetProductAgreesWithListing` | Code/productcatalogservice/product_catalog.go:117-163 | over a store whose lookups agree with its scan, GetProduct(id) succeeds exactly when the listing holds a product with that id and then returns a listed product with that id; otherwise NotFound |
| `ProductCatalogService.Matches` | Code/productcatalogservice/product_catalog.go:177-178 | the empty lower-cased query matches every product; a matching query is no longer than the name or than the description |
| `ProductCatalogService.Select` | Code/productcatalogservice/product_catalog.go:174-181 | the kept elements are no more than the input and all come from it and pass the test |
| `ProductCatalogService.SelectKeepsAccepted` | Code/productcatalogservice/product_catalog.go:174-181 | the kept elements are the input's elements at strictly increasing positions, and those positions are exactly the accepted ones |
| `ProductCatalogService.SelectionIsSelect` | Code/productcatalogservice/product_catalog.go:174-181 | any subsequence taken at exactly the accepted positions is the filter's result (uniqueness: the filter is exactly that subsequence) |
| `ProductCatalogService.SelectAll` | Code/productcatalogservice/product_catalog.go:174-181 | when every element is accepted the filter returns its input |
| `ProductCatalogService.Filter` | Code/productcatalogservice/product_catalog.go:176-181 | every search result is a listed product that matches the lower-cased query |
| `ProductCatalogService.FilterComplete` | Code/productcatalogservice/product_catalog.go:176-181 | every listed product that matches the lower-cased query is among the search results |
| `ProductCatalogService.FilterAllMatch` | Code/productcatalogservice/product_catalog.go:176-181 | when every listed product matches, the search returns the whole listing |
| `ProductCatalogService.FilterSingleton` | Code/productcatalogservice/product_catalog.go:176-181 | a one-product listing is kept exactly when its product matches |
| `ProductCatalogService.FilterEmptyQuery` | Code/productcatalogservice/product_catalog.go:175-179 | the empty query returns the entire listing |
| `ProductCatalogService.NameOccurrenceMatches` | Code/productcatalogservice/product_catalog.go:175-178 | matching ignores case: a product whose name contains sub matches every query that lower-cases to the same string as sub |
| `ProductCatalogService.SearchProducts` | Code/productcatalogservice/product_catalog.go:165-184 | a listing error is returned unchanged with no results; otherwise the results are exactly the filter of the listing by the lower-cased query, in listing order |
| `Health.Check` | Code/productcatalogservice/product_catalog.go:109-111 | every request is answered SERVING, without any store input |
| `Health.Watch` | Code/productcatalogservice/product_catalog.go:113-115 | every call fails with Unimplemented and the fixed message |
| `Scenario.DemoListing` | Code/productcatalogservice/product_catalog.go:132-137 | the one-item catalog lists exactly the converted typewriter |
| `Scenario.DemoSearchIgnoresCase` | Code/productcatalogservice/product_catalog.go:175-181 | searching "TYPE" finds "Vintage Typewriter" |
| `Scenario.TypewriterMatchesType` | Code/productcatalogservice/product_catalog.go:175-178 | the typewriter matches the lower-cased query "TYPE" through its name |
| `Scenario.SameLowerCase` | Code/productcatalogservice/product_catalog.go:175 | "TYPE" and "Type" lower-case to the same string |
| `Scenario.DemoSearchEmptyQuery` | Code/productcatalogservice/product_catalog.go:175-179 | searching "" returns the whole one-item catalog |
| `Scenario.DemoGetMissing` | Code/productcatalogservice/product_catalog.go:152-154 | looking up id "2" fails with NotFound "no product with ID 2" |
| `Scenario.DemoGetPresent` | Code/productcatalogservice/product_catalog.go:140-162 | the demo store is consistent and looking up id "1" returns the converted typewriter |
| `Scenario.DemoSearchEndToEnd` | Code/productcatalogservice/product_catalog.go:165-184 | the SearchProducts handler, run on the one-item store with query "TYPE", answers with the converted typewriter |
| `Scenario.DemoScanFailure` | Code/productcatalogservice/product_catalog.go:119-124 | a failed scan answers Internal with the scan error text and no products |

## Left out

- The DynamoDB SDK calls (`Scan`, `GetItem`, `UnmarshalListOfMaps`, `UnmarshalMap`) are foreign code. They appear only as their outcomes: the `Store` value and the `decode` parameter. The attribute-value encoding itself is not modelled.
- Scan pagination is not followed. The handler sends one `Scan` request without a start key and never reads the last evaluated key, so on a table larger than one Scan page ListProducts, and through it SearchProducts, lists only the first page; `Scanned(items)` stands for that page. `ServesSnapshot` assumes every GetItem hit is among the scanned items, so `GetProductAgreesWithListing` speaks only of a table that fits in one page.
- Store.DecodeAll: reports the first failing item's message unwrapped; the SDK's exact wording of a list-unmarshal error is not modelled.
- Text.ToLower: lower-cases ASCII letters only, whereas Go's `strings.ToLower` applies full Unicode case mapping. Searches over non-ASCII names may therefore differ.
- `context.Context` cancellation and deadlines are not modelled. A cancelled store call would surface as a store error, which the `ScanFailed`/`GetItemFailed` outcomes already cover.
- Two concurrent calls may see different snapshots of the table. Each modelled call sees one `Store` value. SearchProducts reads the same snapshot its ListProducts call scans.
- The nil-versus-empty slice distinction (`results` stays nil when nothing matches) is not modelled; both are the empty sequence.
- Pointer sharing between the listed products and the search results is not modelled: products are values.
- The commented-out in-memory catalog at `Code/productcatalogservice/product_catalog.go:1-71` is inert and is not part of this model. Its lookup loop would return the last product with a matching id.
- `Code/productcatalogservice/server.go` (client construction, flags, signal handling, listening) and `Code/emailservice/email_server.py` (SMTP, templates, server plumbing) are process bootstrap and I/O, not part of this model.
- The gRPC and protobuf plumbing is not modelled: request decoding, response wrapping, and the `Health_WatchServer` stream that Watch never uses.
