/**
 * The document flattener of the chatbot service: every catalog product
 * becomes one text document of `key: value` lines, built by filling a
 * JavaScript object with the core fields, then the specifications, then
 * the eco attributes, and listing its entries.
 */
module Flattener {
  import opened JsText
  import opened Wrappers
  import opened JsCollections
  import opened Catalog

  /**
   * The TypeErrors the flattening code can raise: reading `.name` of an
   * absent brand or category relation, or calling `.join` on a
   * `recycled_materials` value that is not an array.
   */
  datatype FlattenError =
    | NoBrand(productId: nat)
    | NoCategory(productId: nat)
    | RecycledNotArray(value: Value)

  datatype Result<T> = Ok(value: T) | Err(error: FlattenError)

  /** The keys the flattened object literal starts with, in order. */
  const CoreKeys: seq<string> := ["id", "name", "description", "brand", "category", "price"]
  const RecycledMaterials: string := "recycled_materials"
  const CarbonFootprint: string := "carbon_footprint"

  function YesNo(b: bool): string {
    if b then "Yes" else "No"
  }

  function Names(attrs: seq<Attribute>): (ns: seq<string>)
    ensures |ns| == |attrs|
    ensures forall i :: 0 <= i < |attrs| ==> ns[i] == attrs[i].name
  {
    seq(|attrs|, i requires 0 <= i < |attrs| => attrs[i].name)
  }

  /** The object literal every product starts from, or the TypeError reading its relations raises. */
  function CoreDict(p: Product): Result<Dict<Value>> {
    if p.brand.None? then Err(NoBrand(p.id))
    else if p.category.None? then Err(NoCategory(p.id))
    else Ok([
      Entry("id", Num(p.id)),
      Entry("name", Str(p.name)),
      Entry("description", if p.description.Some? then Str(p.description.value) else Null),
      Entry("brand", Str(p.brand.value)),
      Entry("category", Str(p.category.value)),
      Entry("price", Str(IntText(p.price) + " USD"))])
  }

  /** The value a specification stores: booleans as "Yes"/"No", anything else as it is. */
  function SpecValue(v: Value): (r: Value)
    ensures !r.Bool?
    ensures r != v <==> v.Bool?
    ensures v.Bool? ==> r.Str? && (r.s == "Yes" || r.s == "No") && (r.s == "Yes" <==> v.b)
  {
    if v.Bool? then Str(YesNo(v.b)) else v
  }

  function SpecEntries(specs: seq<Attribute>): (es: seq<Entry<Value>>)
    ensures |es| == |specs|
    ensures forall i :: 0 <= i < |specs| ==> es[i] == Entry(specs[i].name, SpecValue(specs[i].value))
  {
    seq(|specs|, i requires 0 <= i < |specs| => Entry(specs[i].name, SpecValue(specs[i].value)))
  }

  lemma SpecEntriesSnoc(specs: seq<Attribute>, i: nat)
    requires i < |specs|
    ensures SpecEntries(specs[..i + 1]) == SpecEntries(specs[..i]) + [Entry(specs[i].name, SpecValue(specs[i].value))]
  {
    assert specs[..i + 1][..i] == specs[..i];
  }

  /** The value an eco attribute stores, chosen by the first rule of the chain that applies. */
  function EcoValue(a: Attribute): (r: Result<Value>)
    ensures r.Err? <==> a.name == RecycledMaterials && !a.value.List?
    ensures r.Ok? ==> !r.value.Bool?
  {
    if a.name == RecycledMaterials then
      if a.value.List? then Ok(Str(Join(a.value.items, ", "))) else Err(RecycledNotArray(a.value))
    else if a.value.Bool? then Ok(Str(YesNo(a.value.b)))
    else if a.name == CarbonFootprint then Ok(Str(Text(a.value) + " kg CO2"))
    else Ok(a.value)
  }

  /** The eco assignments in order, or the error of the first attribute that raises one. */
  function EcoEntries(eco: seq<Attribute>): (r: Result<seq<Entry<Value>>>)
    ensures r.Ok? ==> |r.value| == |eco| && forall i :: 0 <= i < |eco| ==> r.value[i].key == eco[i].name
    decreases |eco|
  {
    if eco == [] then Ok([])
    else
      var last := eco[|eco| - 1];
      match EcoEntries(eco[..|eco| - 1])
      case Err(e) => Err(e)
      case Ok(es) =>
        match EcoValue(last)
        case Err(e) => Err(e)
        case Ok(v) => Ok(es + [Entry(last.name, v)])
  }

  /** The flattened object of a product: the core fields, then every specification, then every eco attribute. */
  function FlatDict(p: Product): Result<Dict<Value>> {
    match CoreDict(p)
    case Err(e) => Err(e)
    case Ok(core) =>
      match EcoEntries(p.ecoData)
      case Err(e) => Err(e)
      case Ok(es) => Ok(AssignAll(core, SpecEntries(p.specifications) + es))
  }

  /** The first eco error stops the whole loop. */
  lemma {:induction false} EcoErrorPersists(eco: seq<Attribute>, n: nat)
    requires n <= |eco| && EcoEntries(eco[..n]).Err?
    ensures EcoEntries(eco) == EcoEntries(eco[..n])
    decreases |eco| - n
  {
    if n < |eco| {
      assert eco[..n + 1][..n] == eco[..n];
      EcoErrorPersists(eco, n + 1);
    } else {
      assert eco[..n] == eco;
    }
  }

  /** The specification loop: assign every specification, booleans as "Yes"/"No". */
  method AssignSpecifications(flat: Dict<Value>, specs: seq<Attribute>) returns (r: Dict<Value>)
    ensures r == AssignAll(flat, SpecEntries(specs))
  {
    r := flat;
    for i := 0 to |specs|
      invariant r == AssignAll(flat, SpecEntries(specs[..i]))
    {
      var spec := specs[i];
      SpecEntriesSnoc(specs, i);
      if spec.value.Bool? {
        r := Assign(r, spec.name, Str(if spec.value.b then "Yes" else "No"));
      } else {
        r := Assign(r, spec.name, spec.value);
      }
    }
    assert specs[..|specs|] == specs;
  }

  /** The eco loop: assign every eco attribute by the rule chain, stopping at the first TypeError. */
  method AssignEcoData(flat: Dict<Value>, eco: seq<Attribute>) returns (r: Result<Dict<Value>>)
    ensures EcoEntries(eco).Err? ==> r == Err(EcoEntries(eco).error)
    ensures EcoEntries(eco).Ok? ==> r == Ok(AssignAll(flat, EcoEntries(eco).value))
  {
    var d := flat;
    ghost var es: seq<Entry<Value>> := [];
    for i := 0 to |eco|
      invariant EcoEntries(eco[..i]) == Ok(es)
      invariant d == AssignAll(flat, es)
    {
      var attr := eco[i];
      assert eco[..i + 1][..i] == eco[..i];
      var v: Value;
      if attr.name == "recycled_materials" {
        if !attr.value.List? {
          EcoErrorPersists(eco, i + 1);
          return Err(RecycledNotArray(attr.value));
        }
        v := Str(Join(attr.value.items, ", "));
      } else if attr.value.Bool? {
        v := Str(if attr.value.b then "Yes" else "No");
      } else if attr.name == "carbon_footprint" {
        v := Str(Text(attr.value) + " kg CO2");
      } else {
        v := attr.value;
      }
      d := Assign(d, attr.name, v);
      es := es + [Entry(attr.name, v)];
    }
    assert eco[..|eco|] == eco;
    return Ok(d);
  }

  /** The flattening of one product: the object literal, then the two loops. */
  method FlattenProduct(p: Product) returns (r: Result<Dict<Value>>)
    ensures r == FlatDict(p)
  {
    if p.brand.None? {
      return Err(NoBrand(p.id));
    }
    if p.category.None? {
      return Err(NoCategory(p.id));
    }
    var description := if p.description.Some? then Str(p.description.value) else Null;
    var flat: Dict<Value> := [
      Entry("id", Num(p.id)),
      Entry("name", Str(p.name)),
      Entry("description", description),
      Entry("brand", Str(p.brand.value)),
      Entry("category", Str(p.category.value)),
      Entry("price", Str(IntText(p.price) + " USD"))];
    flat := AssignSpecifications(flat, p.specifications);
    r := AssignEcoData(flat, p.ecoData);
    if EcoEntries(p.ecoData).Ok? {
      AssignAllAppend(CoreDict(p).value, SpecEntries(p.specifications), EcoEntries(p.ecoData).value);
    }
  }

  // ---------------------------------------------------------------------
  // Rendering a flattened object into a document.

  /** A LangChain document: its page content and the `source` of its metadata. */
  datatype Document = Document(pageContent: string, source: string)

  function Line(e: Entry<Value>): string {
    e.key + ": " + Text(e.value)
  }

  function Lines(d: Dict<Value>): (ls: seq<string>)
    ensures |ls| == |d|
    ensures forall i :: 0 <= i < |d| ==> ls[i] == Line(d[i])
  {
    seq(|d|, i requires 0 <= i < |d| => Line(d[i]))
  }

  /** `Object.entries(p).map(([key, value]) => `${key}: ${value}`).join('\n')`. */
  function PageContent(d: Dict<Value>): string {
    Join(Lines(d), "\n")
  }

  /** `product[${p.id}]`, where `p.id` is read back from the flattened object. */
  function SourceTag(d: Dict<Value>): string {
    var id := match Lookup(d, "id") case Some(v) => v case None => Undefined;
    "product[" + Text(id) + "]"
  }

  function ProductDocument(p: Product): Result<Document> {
    match FlatDict(p)
    case Err(e) => Err(e)
    case Ok(d) => Ok(Document(PageContent(d), SourceTag(d)))
  }

  /**
   * A `map` whose callback may throw: the results in order, or the error
   * of the first element that throws, which aborts the rest.
   */
  function Collect<T>(rs: seq<Result<T>>): Result<seq<T>>
    decreases |rs|
  {
    if rs == [] then Ok([])
    else
      match rs[0]
      case Err(e) => Err(e)
      case Ok(v) =>
        match Collect(rs[1..])
        case Err(e) => Err(e)
        case Ok(vs) => Ok([v] + vs)
  }

  /** `products.map(...).map(...)`: one document per product; the first TypeError aborts the whole list. */
  function ProductDocuments(products: seq<Product>): Result<seq<Document>> {
    Collect(seq(|products|, i requires 0 <= i < |products| => ProductDocument(products[i])))
  }
}
