/**
 * The product records the chatbot reads from the catalog, and the way a
 * JavaScript template literal turns their values into text.
 */
module Catalog {
  import opened JsText
  import opened Wrappers

  /**
   * The value of a specification or eco attribute (a JSON attribute of the
   * catalog) or of a flattened property. Numbers are integers here.
   * `Null` is what the database returns for an unset column; `Undefined`
   * is what reading a property the object does not have gives.
   */
  datatype Value =
    | Str(s: string)
    | Num(n: int)
    | Bool(b: bool)
    | List(items: seq<string>)
    | Null
    | Undefined

  /** A specification or an eco attribute: a name and a JSON value. */
  datatype Attribute = Attribute(name: string, value: Value)

  /** A product row as fetched with every relation populated. */
  datatype Product = Product(
    id: nat,
    name: string,
    description: Option<string>,  // None when the column is unset (null)
    brand: Option<string>,      // the name of the related brand, if the relation is set
    category: Option<string>,   // the name of the related category, if the relation is set
    price: int,
    specifications: seq<Attribute>,
    ecoData: seq<Attribute>)

  /** `${v}`: the text a template literal makes of a value. */
  function Text(v: Value): string {
    match v
    case Str(s) => s
    case Num(n) => IntText(n)
    case Bool(b) => if b then "true" else "false"
    case List(items) => Join(items, ",")
    case Null => "null"
    case Undefined => "undefined"
  }

  /**
   * `findMany` filtered by `id $in ids`: the catalog rows whose id is listed,
   * in catalog order; ids with no row are silently dropped.
   */
  function ProductsByIds(catalog: seq<Product>, ids: seq<nat>): (r: seq<Product>)
    ensures forall p :: p in r <==> p in catalog && p.id in ids
    ensures |r| <= |catalog|
    decreases |catalog|
  {
    if catalog == [] then []
    else
      var rest := ProductsByIds(catalog[1..], ids);
      if catalog[0].id in ids then [catalog[0]] + rest else rest
  }
}
