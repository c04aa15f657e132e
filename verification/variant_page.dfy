/** The product-variant editing page: the values it derives from the
    variant it is given (or from the `loading` flag while there is none) and
    hands to its child components. */
module ProductVariantPage {
  import opened Wrappers
  import opened Sequences
  import opened Images
  import opened Attributes
  import Decimal

  /** One `edges[i]` of a GraphQL connection. */
  datatype Edge<T> = Edge(node: T)

  datatype ImageRef = ImageRef(id: string)

  datatype Money = Money(currency: string, amount: real)

  datatype VariantLink = VariantLink(id: string, name: string)

  datatype Product = Product(
    id: string,
    name: string,
    thumbnailUrl: string,
    variantCount: int,
    variants: seq<Edge<VariantLink>>,
    images: seq<Edge<Image>>)

  /** The `variant` prop. `priceOverride`, `sku` and `stock` are optional
      because the page tests them before use. */
  datatype Variant = Variant(
    id: string,
    attributes: seq<AttributeAssignment>,
    images: seq<Edge<ImageRef>>,
    name: string,
    priceOverride: Option<Money>,
    product: Product,
    sku: Option<string>,
    stock: Option<int>,
    stockAllocated: int)

  /** Whenever `loading` is false the page reads `variant` without checking
      that it is there. */
  predicate CanRead(loading: bool, variant: Option<Variant>)
  {
    loading || variant.Some?
  }

  /** The nodes of a connection's edges, in edge order. */
  function Nodes<T>(edges: seq<Edge<T>>): (r: seq<T>)
    ensures |r| == |edges|
    ensures forall i :: 0 <= i < |r| ==> r[i] == edges[i].node
  {
    seq(|edges|, i requires 0 <= i < |edges| => edges[i].node)
  }

  // ---------------------------------------------------------------------
  // Derived view models

  lemma LastWriteWinsEverywhere(attrs: seq<AttributeAssignment>)
    ensures forall i :: IsLastOccurrence(attrs, i) ==>
      AttributeMap(attrs)[attrs[i].attribute.slug] == attrs[i].value
  {
    forall i | IsLastOccurrence(attrs, i)
      ensures AttributeMap(attrs)[attrs[i].attribute.slug] == attrs[i].value
    {
      LastWriteWins(attrs, i);
    }
  }

  /** `attributes`: empty while loading, otherwise each slug of the
      variant's attributes mapped to the value of its last assignment. */
  function AttributeValues(loading: bool, variant: Option<Variant>): (m: map<string, string>)
    requires CanRead(loading, variant)
    ensures loading ==> m == map[]
    ensures !loading ==> m.Keys == Slugs(variant.value.attributes)
    ensures !loading ==> forall i :: IsLastOccurrence(variant.value.attributes, i) ==>
      m[variant.value.attributes[i].attribute.slug] == variant.value.attributes[i].value
  {
    if loading then map[]
    else
      LastWriteWinsEverywhere(variant.value.attributes);
      AttributeMap(variant.value.attributes)
  }

  /** `variantImages`: absent while loading, otherwise the ids of the
      variant's own images, in their order. */
  function VariantImageIds(loading: bool, variant: Option<Variant>): (r: Option<seq<string>>)
    requires CanRead(loading, variant)
    ensures r.None? <==> loading
    ensures r.Some? ==> |r.value| == |variant.value.images|
    ensures r.Some? ==> forall i :: 0 <= i < |r.value| ==> r.value[i] == variant.value.images[i].node.id
  {
    if loading then None
    else Some(seq(|variant.value.images|, i requires 0 <= i < |variant.value.images| =>
                    variant.value.images[i].node.id))
  }

  /** `productImages`: absent while loading, otherwise the product's images
      reordered by `order`. */
  function ProductImages(loading: bool, variant: Option<Variant>): (r: Option<seq<Image>>)
    requires CanRead(loading, variant)
    ensures r.None? <==> loading
    ensures r.Some? ==> SortedByOrder(r.value)
    ensures r.Some? ==> multiset(r.value) == multiset(Nodes(variant.value.product.images))
  {
    if loading then None
    else
      var nodes := Nodes(variant.value.product.images);
      SortIsSorted(nodes);
      Some(Sort(nodes))
  }

  /** `images`: absent while loading, otherwise the product images whose id
      the variant lists, ordered by `order`. */
  function DisplayedImages(loading: bool, variant: Option<Variant>): (r: Option<seq<Image>>)
    requires CanRead(loading, variant)
    ensures r.None? <==> loading
    ensures r.Some? ==> SortedByOrder(r.value)
    ensures r.Some? ==> IsSubsequence(r.value, ProductImages(loading, variant).value)
    ensures r.Some? ==> |r.value| <= |ProductImages(loading, variant).value|
    ensures r.Some? ==> forall x :: x in r.value <==>
      x in ProductImages(loading, variant).value && x.id in VariantImageIds(loading, variant).value
  {
    if loading then None
    else Some(SelectImages(ProductImages(loading, variant).value, VariantImageIds(loading, variant).value))
  }

  /** An image is shown exactly when it is one of the product's images and
      the variant lists its id; ids with no such image are dropped. */
  lemma DisplayedImagesOfVariant(variant: Variant, x: Image)
    ensures x in DisplayedImages(false, Some(variant)).value <==>
      x in Nodes(variant.product.images) && exists i :: 0 <= i < |variant.images| && variant.images[i].node.id == x.id
  {
    var p := ProductImages(false, Some(variant)).value;
    var v := VariantImageIds(false, Some(variant)).value;
    assert x in p <==> x in Nodes(variant.product.images) by {
      assert x in p <==> x in multiset(p);
    }
    if x.id in v {
      var i :| 0 <= i < |v| && v[i] == x.id;
      assert variant.images[i].node.id == x.id;
    }
  }

  /** Whatever order the engine gives to tied images in either sort, the
      images shown are exactly the selected ones and carry the same `order`
      at every position as the model's `images`. */
  lemma DisplayedImagesUnderAnyTieOrder(variant: Variant, p: seq<Image>, q: seq<Image>)
    requires SortedByOrder(p) && multiset(p) == multiset(Nodes(variant.product.images))
    requires SortedByOrder(q) && multiset(q) == multiset(KeepSelected(p, VariantImageIds(false, Some(variant)).value))
    ensures forall x :: x in q <==> x in DisplayedImages(false, Some(variant)).value
    ensures |q| == |DisplayedImages(false, Some(variant)).value|
    ensures forall i :: 0 <= i < |q| ==> q[i].order == DisplayedImages(false, Some(variant)).value[i].order
  {
    var ids := VariantImageIds(false, Some(variant)).value;
    var nodes := Nodes(variant.product.images);
    AnyTieOrderShowsSameOrders(nodes, ids, p, q);
    forall x ensures x in q <==> x in DisplayedImages(false, Some(variant)).value {
      assert x in Sort(nodes) <==> x in nodes by {
        assert x in Sort(nodes) <==> x in multiset(Sort(nodes));
        assert x in nodes <==> x in multiset(nodes);
      }
    }
  }

  /** When no two product images share an id, the page shows at most as many
      images as the variant references. */
  lemma DisplayedImagesBounded(variant: Variant)
    requires UniqueIds(Nodes(variant.product.images))
    ensures |DisplayedImages(false, Some(variant)).value| <= |variant.images|
  {
    var nodes := Nodes(variant.product.images);
    var p := ProductImages(false, Some(variant)).value;
    forall id ensures IdCount(p, id) <= 1 {
      SortKeepsIds(nodes, id);
      assert IdCount(nodes, id) <= 1;
    }
    SelectionBoundedByVariantIds(p, VariantImageIds(false, Some(variant)).value);
  }

  // ---------------------------------------------------------------------
  // Initial form data

  /** The values the form's fields start from. */
  datatype FormValue = Null | Number(value: real) | Text(text: string)

  const BaseFieldNames: set<string> := {"costPrice", "priceOverride", "stock", "sku"}

  /** The start of both price fields: the override's amount when a variant
      with a price override is present, otherwise null. The test is on the
      override itself, so an amount of 0 is kept. */
  function PriceField(variant: Option<Variant>): (f: FormValue)
    ensures f.Null? <==> variant.None? || variant.value.priceOverride.None?
    ensures f.Number? ==> f.value == variant.value.priceOverride.value.amount
    ensures !f.Text?
  {
    if variant.Some? && variant.value.priceOverride.Some? then
      Number(variant.value.priceOverride.value.amount)
    else Null
  }

  /** The start of the stock field: the variant's stock, or null when there
      is no variant or no stock. A stock of 0 fails the same truth test and
      becomes null too. */
  function StockField(variant: Option<Variant>): (f: FormValue)
    ensures f.Null? <==> variant.None? || variant.value.stock.None? || variant.value.stock.value == 0
    ensures f.Number? ==> f.value == variant.value.stock.value as real && f.value != 0.0
    ensures !f.Text?
  {
    if variant.Some? && variant.value.stock.Some? && variant.value.stock.value != 0 then
      Number(variant.value.stock.value as real)
    else Null
  }

  /** The start of the SKU field: the variant's SKU, or null when there is
      no variant or no SKU. An empty SKU fails the same truth test and
      becomes null too. */
  function SkuField(variant: Option<Variant>): (f: FormValue)
    ensures f.Null? <==> variant.None? || variant.value.sku.None? || variant.value.sku.value == ""
    ensures f.Text? ==> f.text == variant.value.sku.value && f.text != ""
    ensures !f.Number?
  {
    if variant.Some? && variant.value.sku.Some? && variant.value.sku.value != "" then
      Text(variant.value.sku.value)
    else Null
  }

  /** The form's initial values: the four base fields, with the attribute
      values spread over them, so an attribute slug replaces a base field of
      the same name. */
  function InitialFormData(variant: Option<Variant>, attributes: map<string, string>): (f: map<string, FormValue>)
    ensures f.Keys == BaseFieldNames + attributes.Keys
    ensures forall k :: k in attributes ==> f[k] == Text(attributes[k])
    ensures "costPrice" !in attributes ==> f["costPrice"] == PriceField(variant)
    ensures "priceOverride" !in attributes ==> f["priceOverride"] == PriceField(variant)
    ensures "stock" !in attributes ==> f["stock"] == StockField(variant)
    ensures "sku" !in attributes ==> f["sku"] == SkuField(variant)
  {
    var base := map[
      "costPrice" := PriceField(variant),
      "priceOverride" := PriceField(variant),
      "stock" := StockField(variant),
      "sku" := SkuField(variant)];
    base + map k | k in attributes :: Text(attributes[k])
  }

  /** While loading no attribute field exists, even when a variant is
      present; the base fields still come from that variant. */
  lemma InitialFormWhileLoading(variant: Option<Variant>)
    ensures InitialFormData(variant, AttributeValues(true, variant)).Keys == BaseFieldNames
    ensures InitialFormData(variant, AttributeValues(true, variant))["stock"] == StockField(variant)
  {
  }

  /** Unless an attribute slug takes their name, both price fields start
      from the same amount. */
  lemma PriceFieldsStartEqual(variant: Option<Variant>, attributes: map<string, string>)
    requires "costPrice" !in attributes && "priceOverride" !in attributes
    ensures InitialFormData(variant, attributes)["costPrice"] == InitialFormData(variant, attributes)["priceOverride"]
  {
  }

  // ---------------------------------------------------------------------
  // Currency symbol

  /** The price component's currency symbol as the page reads it: "" while
      loading, otherwise the currency of the price override, read without
      the presence test the price fields make. `None` stands for the
      TypeError that reading a missing override throws, which ends the
      render. */
  function CurrencySymbolAsWritten(loading: bool, variant: Option<Variant>): (r: Option<string>)
    requires CanRead(loading, variant)
    ensures r.None? <==> !loading && variant.value.priceOverride.None?
    ensures r.Some? && !loading ==> r.value == variant.value.priceOverride.value.currency
    ensures loading ==> r == Some("")
  {
    if loading then Some("")
    else if variant.value.priceOverride.None? then None
    else Some(variant.value.priceOverride.value.currency)
  }

  /** A loaded variant without a price override, which the price fields
      accept (they start as null), makes the currency symbol throw. */
  lemma UnpricedVariantThrows(variant: Variant)
    requires variant.priceOverride.None?
    ensures PriceField(Some(variant)).Null?
    ensures CurrencySymbolAsWritten(false, Some(variant)).None?
  {
  }

  /** The currency symbol with the presence test the price fields make: ""
      while loading or without a price override, otherwise its currency. */
  function CurrencySymbol(loading: bool, variant: Option<Variant>): (r: string)
    requires CanRead(loading, variant)
    ensures loading || variant.value.priceOverride.None? ==> r == ""
    ensures !loading && variant.value.priceOverride.Some? ==> r == variant.value.priceOverride.value.currency
  {
    if loading || variant.value.priceOverride.None? then ""
    else variant.value.priceOverride.value.currency
  }

  /** The guarded symbol never fails, agrees with the page's reading
      whenever that reading succeeds, and is non-empty only next to a price
      amount. */
  lemma CurrencySymbolRepairsRead(loading: bool, variant: Option<Variant>)
    requires CanRead(loading, variant)
    ensures CurrencySymbolAsWritten(loading, variant).Some? ==>
      CurrencySymbol(loading, variant) == CurrencySymbolAsWritten(loading, variant).value
    ensures CurrencySymbol(loading, variant) != "" ==> PriceField(variant).Number?
  {
  }

  // ---------------------------------------------------------------------
  // The form's remount key

  /** The form's key as React compares it: the text "loading" while there is
      no variant, otherwise the decimal text of the checksum of the variant's
      serialised form. `serialize` stands for the JSON serialiser and `crc`
      for the CRC-32 checksum. */
  function FormKey(variant: Option<Variant>, serialize: Variant -> string, crc: string -> Decimal.Int32): (key: string)
    ensures key == "loading" <==> variant.None?
  {
    if variant.None? then "loading"
    else Decimal.IntToString(crc(serialize(variant.value)))
  }

  /** Two present variants get the same key exactly when their serialised
      forms have the same checksum, so the form remounts exactly when the
      checksum changes. */
  lemma FormKeyTracksChecksum(a: Variant, b: Variant, serialize: Variant -> string, crc: string -> Decimal.Int32)
    ensures FormKey(Some(a), serialize, crc) == FormKey(Some(b), serialize, crc)
            <==> crc(serialize(a)) == crc(serialize(b))
  {
    Decimal.IntToStringInjective(crc(serialize(a)), crc(serialize(b)));
  }

  // ---------------------------------------------------------------------
  // Gating

  /** The save bar is disabled while loading, when no submit handler was
      passed, and while the form holds no change. */
  function SaveDisabled(loading: bool, hasSubmitHandler: bool, hasChanged: bool): (disabled: bool)
    ensures !disabled <==> !loading && hasSubmitHandler && hasChanged
  {
    loading || !hasSubmitHandler || !hasChanged
  }

  /** The delete button's `disabled`. */
  function DeleteDisabled(loading: bool): (disabled: bool)
    ensures disabled <==> loading
  {
    loading
  }

  /** The two dialogs are in the tree only for a present variant with a
      non-empty name. */
  function DialogsMounted(variant: Option<Variant>): (mounted: bool)
    ensures mounted <==> variant.Some? && |variant.value.name| > 0
  {
    variant.Some? && variant.value.name != ""
  }

  // ---------------------------------------------------------------------
  // The page as a whole

  datatype PageView = PageView(
    attributes: map<string, string>,
    variantImages: Option<seq<string>>,
    productImages: Option<seq<Image>>,
    images: Option<seq<Image>>,
    initial: map<string, FormValue>,
    currencySymbol: string,
    formKey: string,
    deleteDisabled: bool,
    saveDisabled: bool,
    dialogsMounted: bool)

  /** Everything the page derives for one render. `hasSubmitHandler` says
      whether `onSubmit` was passed; `hasChanged` is the form's own dirty
      flag. */
  function Render(loading: bool, variant: Option<Variant>, hasSubmitHandler: bool, hasChanged: bool,
                  serialize: Variant -> string, crc: string -> Decimal.Int32): (v: PageView)
    requires CanRead(loading, variant)
    ensures loading ==> v.attributes == map[] && v.variantImages.None? && v.productImages.None? && v.images.None?
    ensures loading ==> v.deleteDisabled && v.saveDisabled
    ensures !loading ==> v.variantImages.Some? && v.productImages.Some? && v.images.Some?
    ensures !loading && variant.value.priceOverride.Some? ==>
      v.currencySymbol == variant.value.priceOverride.value.currency
    ensures v.dialogsMounted ==> variant.Some?
    ensures v.formKey == "loading" <==> variant.None?
  {
    PageView(
      AttributeValues(loading, variant),
      VariantImageIds(loading, variant),
      ProductImages(loading, variant),
      DisplayedImages(loading, variant),
      InitialFormData(variant, AttributeValues(loading, variant)),
      CurrencySymbol(loading, variant),
      FormKey(variant, serialize, crc),
      DeleteDisabled(loading),
      SaveDisabled(loading, hasSubmitHandler, hasChanged),
      DialogsMounted(variant))
  }

  /** With no variant and `loading` set, both actions are disabled and
      neither dialog is mounted, whatever the handler and the form say. */
  lemma LoadingWithoutVariant(hasSubmitHandler: bool, hasChanged: bool,
                              serialize: Variant -> string, crc: string -> Decimal.Int32)
    ensures var v := Render(true, None, hasSubmitHandler, hasChanged, serialize, crc);
      v.deleteDisabled && v.saveDisabled && !v.dialogsMounted && v.formKey == "loading"
  {
  }

  /** The dialogs follow the variant, not the `loading` flag: a named
      variant that is still loading has both dialogs mounted. */
  lemma DialogsIgnoreLoading(variant: Variant, hasSubmitHandler: bool, hasChanged: bool,
                             serialize: Variant -> string, crc: string -> Decimal.Int32)
    requires variant.name != ""
    ensures Render(true, Some(variant), hasSubmitHandler, hasChanged, serialize, crc).dialogsMounted
  {
  }
}
