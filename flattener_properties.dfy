/**
 * What the flattener guarantees about the documents it builds: which
 * products flatten at all, the order and uniqueness of the keys, the
 * value each key ends up with, and how the document reads back.
 */
module FlattenerProperties {
  import opened JsText
  import opened Wrappers
  import opened JsCollections
  import opened Catalog
  import opened Flattener

  /** Every `recycled_materials` attribute holds an array. */
  predicate RecycledAreArrays(eco: seq<Attribute>) {
    forall i :: 0 <= i < |eco| && eco[i].name == RecycledMaterials ==> eco[i].value.List?
  }

  /**
   * The eco loop fails exactly when some `recycled_materials` value is not
   * an array; otherwise it makes one assignment per attribute, in order.
   */
  lemma {:induction false} EcoEntriesShape(eco: seq<Attribute>)
    ensures EcoEntries(eco).Ok? <==> RecycledAreArrays(eco)
    ensures EcoEntries(eco).Ok? ==>
              |EcoEntries(eco).value| == |eco| &&
              forall i :: 0 <= i < |eco| ==>
                EcoValue(eco[i]).Ok? && EcoEntries(eco).value[i] == Entry(eco[i].name, EcoValue(eco[i]).value)
    decreases |eco|
  {
    if eco != [] {
      var pre := eco[..|eco| - 1];
      EcoEntriesShape(pre);
      if RecycledAreArrays(eco) {
        assert RecycledAreArrays(pre) by {
          forall i | 0 <= i < |pre| && pre[i].name == RecycledMaterials ensures pre[i].value.List? {
            assert pre[i] == eco[i];
          }
        }
      } else {
        var i :| 0 <= i < |eco| && eco[i].name == RecycledMaterials && !eco[i].value.List?;
        if i < |pre| {
          assert pre[i] == eco[i];
        }
      }
    }
  }

  /**
   * A product flattens exactly when its brand and category relations are
   * set and every `recycled_materials` value is an array; otherwise the
   * TypeError of the first failing read comes out.
   */
  lemma FlattenSucceeds(p: Product)
    ensures FlatDict(p).Ok? <==> p.brand.Some? && p.category.Some? && RecycledAreArrays(p.ecoData)
    ensures p.brand.None? ==> FlatDict(p) == Err(NoBrand(p.id))
    ensures p.brand.Some? && p.category.None? ==> FlatDict(p) == Err(NoCategory(p.id))
  {
    EcoEntriesShape(p.ecoData);
  }

  lemma CoreKeysDistinct()
    ensures Distinct(CoreKeys)
  {
    assert CoreKeys[3] != CoreKeys[5] by {
      assert CoreKeys[3][0] != CoreKeys[5][0];
    }
  }

  /** The object literal holds the six core keys, each once. */
  lemma CoreKeysOf(p: Product)
    requires CoreDict(p).Ok?
    ensures Keys(CoreDict(p).value) == CoreKeys
    ensures ValidDict(CoreDict(p).value)
  {
    var core := CoreDict(p).value;
    var ks := Keys(core);
    assert |ks| == 6;
    forall i | 0 <= i < 6 ensures ks[i] == CoreKeys[i] {
      assert ks[i] == core[i].key;
    }
    CoreKeysDistinct();
  }

  lemma SpecKeys(specs: seq<Attribute>)
    ensures Keys(SpecEntries(specs)) == Names(specs)
  {
  }

  /** The keys the two loops assign, in order: every specification name, then every eco name. */
  lemma LoopKeys(p: Product)
    requires EcoEntries(p.ecoData).Ok?
    ensures Keys(SpecEntries(p.specifications) + EcoEntries(p.ecoData).value) == Names(p.specifications) + Names(p.ecoData)
  {
    KeysAppend(SpecEntries(p.specifications), EcoEntries(p.ecoData).value);
    SpecKeys(p.specifications);
    EcoKeys(p.ecoData);
  }

  lemma EcoKeys(eco: seq<Attribute>)
    requires EcoEntries(eco).Ok?
    ensures Keys(EcoEntries(eco).value) == Names(eco)
  {
    EcoEntriesShape(eco);
  }

  /**
   * The keys of a flattened product: the six core keys first, in their
   * order, then every specification name and then every eco name, each
   * key once, at the place it was first assigned.
   */
  lemma FlatKeys(p: Product)
    requires FlatDict(p).Ok?
    ensures Keys(FlatDict(p).value) == Dedup(CoreKeys + Names(p.specifications) + Names(p.ecoData))
    ensures ValidDict(FlatDict(p).value)
    ensures |FlatDict(p).value| >= 6 && Keys(FlatDict(p).value)[..6] == CoreKeys
  {
    var core := CoreDict(p).value;
    var es := EcoEntries(p.ecoData).value;
    var kvs := SpecEntries(p.specifications) + es;
    var d := AssignAll(core, kvs);
    assert FlatDict(p).value == d;
    CoreKeysOf(p);
    AssignAllKeys(core, kvs);
    LoopKeys(p);
    var all := CoreKeys + Names(p.specifications) + Names(p.ecoData);
    assert Keys(d) == Dedup(all) by {
      assert Keys(core) + Keys(kvs) == all;
    }
    assert all[..6] == CoreKeys;
    CoreKeysDistinct();
    DedupDistinctPrefix(all, 6);
  }

  /** No value of a flattened product is a boolean, so no line ever reads "true" or "false" from one. */
  lemma FlatNoBooleans(p: Product)
    requires FlatDict(p).Ok?
    ensures forall i :: 0 <= i < |FlatDict(p).value| ==> !FlatDict(p).value[i].value.Bool?
  {
    var core := CoreDict(p).value;
    var es := EcoEntries(p.ecoData).value;
    var kvs := SpecEntries(p.specifications) + es;
    EcoEntriesShape(p.ecoData);
    var notBool := (v: Value) => !v.Bool?;
    assert forall i :: 0 <= i < |kvs| ==> notBool(kvs[i].value) by {
      forall i | 0 <= i < |kvs| ensures notBool(kvs[i].value) {
        if i >= |SpecEntries(p.specifications)| {
          var j := i - |SpecEntries(p.specifications)|;
          assert kvs[i] == es[j];
        }
      }
    }
    AssignAllValues(core, kvs, notBool);
  }

  /**
   * A specification that no later specification and no eco attribute
   * overrides is stored as "Yes"/"No" when it is a boolean and unchanged
   * otherwise.
   */
  lemma FlatSpecValue(p: Product, i: nat)
    requires FlatDict(p).Ok?
    requires i < |p.specifications|
    requires forall j :: i < j < |p.specifications| ==> p.specifications[j].name != p.specifications[i].name
    requires p.specifications[i].name !in Names(p.ecoData)
    ensures var v := p.specifications[i].value;
            Lookup(FlatDict(p).value, p.specifications[i].name) ==
              Some(if v.Bool? then Str(if v.b then "Yes" else "No") else v)
  {
    var core := CoreDict(p).value;
    var specEntries := SpecEntries(p.specifications);
    var es := EcoEntries(p.ecoData).value;
    var k := p.specifications[i].name;
    CoreKeysOf(p);
    EcoKeys(p.ecoData);
    AssignAllLastWrite(core, specEntries, i);
    AssignAllKeys(core, specEntries);
    AssignAllUntouched(AssignAll(core, specEntries), es, k);
    AssignAllAppend(core, specEntries, es);
  }

  /**
   * An eco attribute that no later eco attribute overrides is stored by the
   * first rule that applies: `recycled_materials` is an array joined with
   * ", " (a boolean there is a TypeError, not a "Yes"/"No"); a boolean is
   * "Yes"/"No", even for `carbon_footprint`; `carbon_footprint` gets the
   * " kg CO2" suffix; anything else is kept as it is.
   */
  lemma FlatEcoValue(p: Product, i: nat)
    requires FlatDict(p).Ok?
    requires i < |p.ecoData|
    requires forall j :: i < j < |p.ecoData| ==> p.ecoData[j].name != p.ecoData[i].name
    ensures var a := p.ecoData[i];
            var got := Lookup(FlatDict(p).value, a.name);
            && (a.name == RecycledMaterials ==> a.value.List? && got == Some(Str(Join(a.value.items, ", "))))
            && (a.name != RecycledMaterials && a.value.Bool? ==> got == Some(Str(if a.value.b then "Yes" else "No")))
            && (a.name == CarbonFootprint && !a.value.Bool? ==> got == Some(Str(Text(a.value) + " kg CO2")))
            && (a.name != RecycledMaterials && a.name != CarbonFootprint && !a.value.Bool? ==> got == Some(a.value))
  {
    var core := CoreDict(p).value;
    var specEntries := SpecEntries(p.specifications);
    var es := EcoEntries(p.ecoData).value;
    EcoEntriesShape(p.ecoData);
    CoreKeysOf(p);
    var kvs := specEntries + es;
    var n := |specEntries| + i;
    assert kvs[n] == es[i];
    forall j | n < j < |kvs| ensures kvs[j].key != kvs[n].key {
      assert kvs[j] == es[j - |specEntries|];
    }
    AssignAllLastWrite(core, kvs, n);
  }

  /** A core key that no attribute reuses keeps the value the object literal gave it. */
  lemma FlatCoreValue(p: Product, i: nat)
    requires FlatDict(p).Ok? && i < 6
    requires CoreKeys[i] !in Names(p.specifications) + Names(p.ecoData)
    ensures Lookup(FlatDict(p).value, CoreKeys[i]) == Some(CoreDict(p).value[i].value)
  {
    var core := CoreDict(p).value;
    var kvs := SpecEntries(p.specifications) + EcoEntries(p.ecoData).value;
    LoopKeys(p);
    CoreKeysOf(p);
    AssignAllUntouched(core, kvs, CoreKeys[i]);
    LookupAt(core, i);
  }

  /**
   * The six core entries of a flattened product: the id, the name, the
   * description (null when unset), the brand's and the category's names and
   * the price with " USD", each unless an attribute reuses its key.
   */
  lemma FlatCoreValues(p: Product)
    requires FlatDict(p).Ok?
    ensures p.brand.Some? && p.category.Some?
    ensures var names := Names(p.specifications) + Names(p.ecoData);
            var d := FlatDict(p).value;
            && ("id" !in names ==> Lookup(d, "id") == Some(Num(p.id)))
            && ("name" !in names ==> Lookup(d, "name") == Some(Str(p.name)))
            && ("description" !in names ==>
                  Lookup(d, "description") == Some(if p.description.Some? then Str(p.description.value) else Null))
            && ("brand" !in names ==> Lookup(d, "brand") == Some(Str(p.brand.value)))
            && ("category" !in names ==> Lookup(d, "category") == Some(Str(p.category.value)))
            && ("price" !in names ==> Lookup(d, "price") == Some(Str(IntText(p.price) + " USD")))
  {
    var names := Names(p.specifications) + Names(p.ecoData);
    var core := CoreDict(p).value;
    assert core[0].value == Num(p.id) && core[1].value == Str(p.name);
    assert core[3].value == Str(p.brand.value) && core[4].value == Str(p.category.value);
    if "id" !in names { FlatCoreValue(p, 0); }
    if "name" !in names { FlatCoreValue(p, 1); }
    if "description" !in names { FlatCoreValue(p, 2); }
    if "brand" !in names { FlatCoreValue(p, 3); }
    if "category" !in names { FlatCoreValue(p, 4); }
    if "price" !in names { FlatCoreValue(p, 5); }
  }

  /**
   * Unless an attribute is named "id", the document's source is
   * `product[<id>]`, and the digits between the brackets parse back to the
   * product id.
   */
  lemma DocumentSource(p: Product)
    requires ProductDocument(p).Ok?
    requires "id" !in Names(p.specifications) && "id" !in Names(p.ecoData)
    ensures ProductDocument(p).value.source == "product[" + NatText(p.id) + "]"
    ensures var src := ProductDocument(p).value.source;
            && |src| >= 10 && AllDigits(src[8..|src| - 1]) && ParseDigits(src[8..|src| - 1]) == p.id
  {
    FlatCoreValue(p, 0);
    var src := ProductDocument(p).value.source;
    assert src[8..|src| - 1] == NatText(p.id);
    ParseNatText(p.id);
  }

  /**
   * The page content is one line per entry, in entry order: splitting it at
   * newlines gives back exactly the `key: value` lines, as long as no key or
   * value itself holds a newline.
   */
  lemma DocumentLines(p: Product)
    requires ProductDocument(p).Ok?
    requires forall i :: 0 <= i < |FlatDict(p).value| ==> '\n' !in Line(FlatDict(p).value[i])
    ensures Split(ProductDocument(p).value.pageContent, '\n') == Lines(FlatDict(p).value)
    ensures |Lines(FlatDict(p).value)| >= 6
  {
    FlatKeys(p);
    SplitJoin(Lines(FlatDict(p).value), '\n');
  }

  /** `Collect` succeeds exactly when every element does, and then keeps every value in order. */
  lemma {:induction false} CollectOk<T>(rs: seq<Result<T>>)
    ensures Collect(rs).Ok? <==> forall i :: 0 <= i < |rs| ==> rs[i].Ok?
    ensures Collect(rs).Ok? ==> |Collect(rs).value| == |rs| && forall i :: 0 <= i < |rs| ==> Collect(rs).value[i] == rs[i].value
    decreases |rs|
  {
    if rs != [] {
      var rest := rs[1..];
      CollectOk(rest);
      assert forall i :: 0 <= i < |rest| ==> rest[i] == rs[i + 1];
      if Collect(rs).Ok? {
        var vs := Collect(rs).value;
        assert vs == [rs[0].value] + Collect(rest).value;
        forall i | 0 <= i < |rs| ensures vs[i] == rs[i].value {
          if i > 0 {
            assert vs[i] == Collect(rest).value[i - 1];
          }
        }
      }
    }
  }

  /** A failed `Collect` carries the error of its first failing element; every element before it succeeded. */
  lemma {:induction false} CollectFirstError<T>(rs: seq<Result<T>>)
    requires Collect(rs).Err?
    ensures exists i :: 0 <= i < |rs| && rs[i].Err? && Collect(rs).error == rs[i].error &&
              forall j :: 0 <= j < i ==> rs[j].Ok?
    decreases |rs|
  {
    var rest := rs[1..];
    if rs[0].Ok? {
      CollectFirstError(rest);
      var i :| 0 <= i < |rest| && rest[i].Err? && Collect(rest).error == rest[i].error &&
               forall j :: 0 <= j < i ==> rest[j].Ok?;
      assert rest[i] == rs[i + 1];
      forall j | 0 <= j < i + 1 ensures rs[j].Ok? {
        if j > 0 {
          assert rs[j] == rest[j - 1];
        }
      }
    }
  }

  /** The documents are built exactly when every product flattens, and then there is one per product, in product order. */
  lemma DocumentsPerProduct(products: seq<Product>)
    ensures ProductDocuments(products).Ok? <==> forall i :: 0 <= i < |products| ==> ProductDocument(products[i]).Ok?
    ensures ProductDocuments(products).Ok? ==>
              |ProductDocuments(products).value| == |products| &&
              forall i :: 0 <= i < |products| ==> ProductDocuments(products).value[i] == ProductDocument(products[i]).value
  {
    var rs := seq(|products|, i requires 0 <= i < |products| => ProductDocument(products[i]));
    CollectOk(rs);
    assert ProductDocuments(products) == Collect(rs);
    assert forall i :: 0 <= i < |products| ==> rs[i] == ProductDocument(products[i]);
  }

  /** A failure is the error of the first product that does not flatten; the products before it all do. */
  lemma DocumentsFirstError(products: seq<Product>)
    requires ProductDocuments(products).Err?
    ensures exists i :: 0 <= i < |products| && ProductDocument(products[i]).Err? &&
              ProductDocuments(products).error == ProductDocument(products[i]).error &&
              forall j :: 0 <= j < i ==> ProductDocument(products[j]).Ok?
  {
    var rs := seq(|products|, i requires 0 <= i < |products| => ProductDocument(products[i]));
    CollectFirstError(rs);
    var i :| 0 <= i < |rs| && rs[i].Err? && Collect(rs).error == rs[i].error && forall j :: 0 <= j < i ==> rs[j].Ok?;
    assert forall j :: 0 <= j < i ==> ProductDocument(products[j]).Ok? by {
      forall j | 0 <= j < i ensures ProductDocument(products[j]).Ok? {
        assert rs[j] == ProductDocument(products[j]);
      }
    }
  }
}
