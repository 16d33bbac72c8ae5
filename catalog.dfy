/** The two shapes of a product: the item persisted in the Products table and
    the Product message sent on the wire, with the conversion between them. */
module Catalog {

  /** Go's int64 and int32. */
  newtype Int64 = x: int | -0x8000_0000_0000_0000 <= x < 0x8000_0000_0000_0000
  newtype Int32 = x: int | -0x8000_0000 <= x < 0x8000_0000

  /** The persisted price: currency code, whole units and nano units. */
  datatype Price = Price(currencyCode: string, units: Int64, nanos: Int32)

  /** One item of the Products table, attribute for attribute. */
  datatype ProductItem = ProductItem(
    id: string,
    name: string,
    description: string,
    picture: string,
    priceUsd: Price,
    categories: seq<string>)

  /** The wire Money message. */
  datatype Money = Money(currencyCode: string, units: Int64, nanos: Int32)

  /** The wire Product message. */
  datatype Product = Product(
    id: string,
    name: string,
    description: string,
    picture: string,
    priceUsd: Money,
    categories: seq<string>)

  /** Builds the wire product from a persisted item; it never fails and checks nothing.
      The item can be read back from the product, so nothing is lost. */
  function ConvertToProto(item: ProductItem): (p: Product)
    ensures ItemOf(p) == item
  {
    Product(
      item.id,
      item.name,
      item.description,
      item.picture,
      Money(item.priceUsd.currencyCode, item.priceUsd.units, item.priceUsd.nanos),
      item.categories)
  }

  /** The persisted item a wire product was built from: the inverse of ConvertToProto. */
  function ItemOf(p: Product): ProductItem {
    ProductItem(
      p.id,
      p.name,
      p.description,
      p.picture,
      Price(p.priceUsd.currencyCode, p.priceUsd.units, p.priceUsd.nanos),
      p.categories)
  }

  /** Every field is copied unchanged, categories in their stored order, with no
      validation or unit conversion of the price. */
  lemma ConvertToProtoCopiesFields(item: ProductItem)
    ensures var p := ConvertToProto(item);
      && p.id == item.id
      && p.name == item.name
      && p.description == item.description
      && p.picture == item.picture
      && p.priceUsd.currencyCode == item.priceUsd.currencyCode
      && p.priceUsd.units == item.priceUsd.units
      && p.priceUsd.nanos == item.priceUsd.nanos
      && p.categories == item.categories
  {
  }

  /** The conversion is lossless and total: it is a bijection between items and
      products, so no item is rejected and no two items give the same product. */
  lemma ConvertToProtoLossless(item: ProductItem, p: Product)
    ensures ItemOf(ConvertToProto(item)) == item
    ensures ConvertToProto(ItemOf(p)) == p
  {
  }
}
