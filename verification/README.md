# Product-variant page: derived data

A model of the data the dashboard's product-variant editing page derives from
its props before rendering. The page receives a `variant` (or a `loading`
flag while the variant is being fetched) and computes:

- `attributes`: the variant's attribute assignments folded into a
  slug-to-value map;
- `variantImages`, `productImages` and `images`: the ids of the variant's
  images, the product's images sorted by `order`, and the product images the
  variant uses, sorted again;
- the form's `initial` values: both price fields, stock and SKU, then one
  field per attribute slug;
- the form's remount key, a checksum of the serialised variant;
- the currency symbol handed to the price component;
- whether the save bar and the delete button are disabled, and whether the
  delete and image-select dialogs are mounted.

Modules: `Wrappers` (Option), `Sequences` (`indexOf`, subsequence),
`Images` (comparator, sort, filter, selection), `Attributes` (the fold),
`Decimal` (the text React makes of a numeric key) and `ProductVariantPage`
(the variant data model, each derivation, and `Render`, which assembles them
into one `PageView`).

`loading` and `variant` are independent inputs. When `loading` is false the
page reads `variant` without checking it; the derivations therefore require
`CanRead(loading, variant)` (loading, or a variant present), which is what the
page demands of its caller. While `loading` is true the variant is never read
by the derivations, but the form's base fields, the key and the dialogs still
look at it when it is there.

`JSON.stringify` and `CRC.str` are parameters of `FormKey`
(`serialize` and `crc`); the form's dirty flag `hasChanged` and whether
`onSubmit` was passed are parameters of `Render`.

## Model

| member | source | states |
|---|---|---|
| Sequences.IndexOf | saleor/static/dashboard-next/products/components/ProductVariantPage/ProductVariantPage.tsx:126 | the index is -1 exactly when the id is absent; otherwise it holds the id and no earlier index does |
| Images.Insert | saleor/static/dashboard-next/products/components/ProductVariantPage/ProductVariantPage.tsx:122 | inserting adds exactly the inserted image to the multiset, and the result's head is that image or the old head |
| Images.InsertKeepsSorted | saleor/static/dashboard-next/products/components/ProductVariantPage/ProductVariantPage.tsx:122 | inserting into a list sorted by `order` keeps it sorted |
| Images.InsertIds | saleor/static/dashboard-next/products/components/ProductVariantPage/ProductVariantPage.tsx:122 | inserting raises the count of the inserted image's id by one and leaves every other id's count alone |
| Images.Sort | saleor/static/dashboard-next/products/components/ProductVariantPage/ProductVariantPage.tsx:120-122 | sorting returns a permutation of the product's images |
| Images.SortIsSorted | saleor/static/dashboard-next/products/components/ProductVariantPage/ProductVariantPage.tsx:120-122 | the sorted list is non-decreasing by `order` |
| Images.SortKeepsIds | saleor/static/dashboard-next/products/components/ProductVariantPage/ProductVariantPage.tsx:120-122 | sorting keeps the number of images carrying each id |
| Images.SortIdentityOnSorted | saleor/static/dashboard-next/products/components/ProductVariantPage/ProductVariantPage.tsx:127 | sorting a list already sorted by `order` returns it unchanged, for the model's tie-keeping sort |
| Images.SortedPermutationsAgree | saleor/static/dashboard-next/products/components/ProductVariantPage/ProductVariantPage.tsx:122 | any two sorted permutations of the same images have equal `order` at every position, so the tie order chosen by the comparator cannot change the `order` sequence |
| Images.KeepSelected | saleor/static/dashboard-next/products/components/ProductVariantPage/ProductVariantPage.tsx:126 | an image survives the filter exactly when it is in the input and its id is in the variant's id list; the result is no longer than the input |
| Images.KeepSelectedIsSubsequence | saleor/static/dashboard-next/products/components/ProductVariantPage/ProductVariantPage.tsx:125-126 | the filter's result is a subsequence of its input |
| Images.KeepSelectedKeepsSorted | saleor/static/dashboard-next/products/components/ProductVariantPage/ProductVariantPage.tsx:125-126 | filtering a list sorted by `order` leaves it sorted |
| Images.KeepSelectedIds | saleor/static/dashboard-next/products/components/ProductVariantPage/ProductVariantPage.tsx:126 | filtering never raises the count of any id |
| Images.KeepSelectedCount | saleor/static/dashboard-next/products/components/ProductVariantPage/ProductVariantPage.tsx:126 | the filter keeps every copy of an image whose id is listed and no copy of any other image |
| Images.KeepSelectedOfPermutation | saleor/static/dashboard-next/products/components/ProductVariantPage/ProductVariantPage.tsx:125-126 | filtering two permutations of the same images yields permutations of each other |
| Images.SelectImages | saleor/static/dashboard-next/products/components/ProductVariantPage/ProductVariantPage.tsx:123-127 | the shown images are sorted, contain exactly the product images whose id the variant lists, are at most as many as the product images, and, for the model's tie-keeping sort, are a subsequence of sorted product images |
| Images.SecondSortIsNoOp | saleor/static/dashboard-next/products/components/ProductVariantPage/ProductVariantPage.tsx:127 | on sorted product images, the model's tie-keeping second sort returns the filtered list unchanged |
| Images.AnyTieOrderShowsSameOrders | saleor/static/dashboard-next/products/components/ProductVariantPage/ProductVariantPage.tsx:118-127 | whatever order the engine gives tied images in either sort, the shown images are exactly the product images whose id is listed, and they have the same count and the same `order` at every position as the model's selection |
| Images.SelectionBoundedByVariantIds | saleor/static/dashboard-next/products/components/ProductVariantPage/ProductVariantPage.tsx:123-127 | when no two product images share an id, at most as many images are shown as the variant lists ids |
| Images.ShownInOrderOfOrder | saleor/static/dashboard-next/products/components/ProductVariantPage/ProductVariantPage.tsx:118-127 | images "a" (order 2) and "b" (order 1), both listed, are shown as [b, a] |
| Images.UnknownIdShowsNothing | saleor/static/dashboard-next/products/components/ProductVariantPage/ProductVariantPage.tsx:123-127 | a variant listing only an id no product image has shows no image |
| Attributes.AttributeMap | saleor/static/dashboard-next/products/components/ProductVariantPage/ProductVariantPage.tsx:111-114 | the folded map's keys are exactly the slugs of the assignments |
| Attributes.LastWriteWins | saleor/static/dashboard-next/products/components/ProductVariantPage/ProductVariantPage.tsx:111-114 | a slug maps to the value of its last assignment in list order |
| Attributes.ValueIsLastAssigned | saleor/static/dashboard-next/products/components/ProductVariantPage/ProductVariantPage.tsx:111-114 | every key of the map has a last assignment, and the map holds that assignment's value |
| Decimal.IntToString | saleor/static/dashboard-next/products/components/ProductVariantPage/ProductVariantPage.tsx:159 | the text of a number starts with a minus sign or a digit, so it can never be "loading" |
| Decimal.ParseIntToString | saleor/static/dashboard-next/products/components/ProductVariantPage/ProductVariantPage.tsx:159 | reading the text of an integer back gives the integer |
| Decimal.IntToStringInjective | saleor/static/dashboard-next/products/components/ProductVariantPage/ProductVariantPage.tsx:159 | two integers have the same text exactly when they are equal |
| ProductVariantPage.AttributeValues | saleor/static/dashboard-next/products/components/ProductVariantPage/ProductVariantPage.tsx:109-114 | empty while loading; otherwise keyed by exactly the variant's slugs, each holding its last assigned value |
| ProductVariantPage.VariantImageIds | saleor/static/dashboard-next/products/components/ProductVariantPage/ProductVariantPage.tsx:115-117 | absent exactly while loading; otherwise the ids of the variant's image edges, position by position |
| ProductVariantPage.ProductImages | saleor/static/dashboard-next/products/components/ProductVariantPage/ProductVariantPage.tsx:118-122 | absent exactly while loading; otherwise a permutation of the product's image nodes, non-decreasing by `order` |
| ProductVariantPage.DisplayedImages | saleor/static/dashboard-next/products/components/ProductVariantPage/ProductVariantPage.tsx:123-127 | absent exactly while loading (never an empty list then); otherwise sorted, a subsequence of the product images (for the model's tie-keeping sort), no longer than them, and containing exactly those whose id the variant lists |
| ProductVariantPage.DisplayedImagesOfVariant | saleor/static/dashboard-next/products/components/ProductVariantPage/ProductVariantPage.tsx:123-126 | an image is shown exactly when it is a node of the product's images and one of the variant's image edges has its id; ids without a product image are dropped |
| ProductVariantPage.DisplayedImagesUnderAnyTieOrder | saleor/static/dashboard-next/products/components/ProductVariantPage/ProductVariantPage.tsx:118-127 | for any tie order the engine picks in the two sorts, the page shows the same images as the model's `images`, as many, with the same `order` at every position |
| ProductVariantPage.DisplayedImagesBounded | saleor/static/dashboard-next/products/components/ProductVariantPage/ProductVariantPage.tsx:123-127 | with unique product image ids, no more images are shown than the variant has image edges |
| ProductVariantPage.PriceField | saleor/static/dashboard-next/products/components/ProductVariantPage/ProductVariantPage.tsx:146-153 | a price field is null exactly when the variant or its price override is absent, and otherwise holds the override's amount |
| ProductVariantPage.StockField | saleor/static/dashboard-next/products/components/ProductVariantPage/ProductVariantPage.tsx:154 | the stock field is null exactly when the variant or its stock is absent or the stock is 0, and otherwise holds the non-zero stock |
| ProductVariantPage.SkuField | saleor/static/dashboard-next/products/components/ProductVariantPage/ProductVariantPage.tsx:155 | the SKU field is null exactly when the variant or its SKU is absent or the SKU is empty, and otherwise holds the non-empty SKU |
| ProductVariantPage.InitialFormData | saleor/static/dashboard-next/products/components/ProductVariantPage/ProductVariantPage.tsx:145-157 | the form's keys are the four base fields plus the attribute slugs; an attribute slug's value replaces a base field of the same name; every other base field keeps its own value |
| ProductVariantPage.InitialFormWhileLoading | saleor/static/dashboard-next/products/components/ProductVariantPage/ProductVariantPage.tsx:145-157 | while loading the form has only the four base fields, and these still come from a present variant |
| ProductVariantPage.PriceFieldsStartEqual | saleor/static/dashboard-next/products/components/ProductVariantPage/ProductVariantPage.tsx:146-153 | unless an attribute slug takes their names, cost price and price override start equal |
| ProductVariantPage.CurrencySymbolAsWritten | saleor/static/dashboard-next/products/components/ProductVariantPage/ProductVariantPage.tsx:194-196 | as the page reads it: "" while loading; otherwise the override's currency, and a thrown error exactly when a loaded variant has no price override |
| ProductVariantPage.UnpricedVariantThrows | saleor/static/dashboard-next/products/components/ProductVariantPage/ProductVariantPage.tsx:146-153 | a loaded variant without a price override is accepted by the price fields (they start as null) but makes the currency symbol throw |
| ProductVariantPage.CurrencySymbol | saleor/static/dashboard-next/products/components/ProductVariantPage/ProductVariantPage.tsx:194-196 | corrected: "" while loading or without a price override, otherwise the override's currency |
| ProductVariantPage.CurrencySymbolRepairsRead | saleor/static/dashboard-next/products/components/ProductVariantPage/ProductVariantPage.tsx:194-196 | the corrected symbol agrees with the page's reading whenever that reading does not throw, and is non-empty only when the price fields start from an amount |
| ProductVariantPage.FormKey | saleor/static/dashboard-next/products/components/ProductVariantPage/ProductVariantPage.tsx:159 | the key is "loading" exactly when there is no variant |
| ProductVariantPage.FormKeyTracksChecksum | saleor/static/dashboard-next/products/components/ProductVariantPage/ProductVariantPage.tsx:159 | two variants get the same key exactly when their serialised forms have the same checksum |
| ProductVariantPage.SaveDisabled | saleor/static/dashboard-next/products/components/ProductVariantPage/ProductVariantPage.tsx:219 | saving is enabled exactly when not loading, a submit handler is passed and the form has changed |
| ProductVariantPage.DeleteDisabled | saleor/static/dashboard-next/products/components/ProductVariantPage/ProductVariantPage.tsx:140 | the delete button is disabled exactly while loading |
| ProductVariantPage.DialogsMounted | saleor/static/dashboard-next/products/components/ProductVariantPage/ProductVariantPage.tsx:227-228 | the dialogs are mounted exactly when a variant is present and its name is non-empty |
| ProductVariantPage.Render | saleor/static/dashboard-next/products/components/ProductVariantPage/ProductVariantPage.tsx:109-228 | while loading: empty attribute map, all three image lists absent, save and delete disabled; otherwise all three image lists present, and the currency symbol is the override's currency when there is one; dialogs only with a variant; key "loading" exactly without a variant |
| ProductVariantPage.LoadingWithoutVariant | saleor/static/dashboard-next/products/components/ProductVariantPage/ProductVariantPage.tsx:109-228 | loading with no variant disables both actions, mounts no dialog and keys the form "loading", whatever the handler and the dirty flag |
| ProductVariantPage.DialogsIgnoreLoading | saleor/static/dashboard-next/products/components/ProductVariantPage/ProductVariantPage.tsx:227-228 | a named variant that is still loading has its dialogs mounted: the gate looks at the variant, not at `loading` |

## Notes on behaviour

- The dialogs are gated on `variant && variant.name` alone. Setting `loading`
  does not unmount them when a named variant is present
  (`DialogsIgnoreLoading`). In that state the image-select dialog receives
  an absent `productImages`.
- The bound "no more images shown than the variant lists ids" holds only
  when no two product images share an id. With two product images carrying
  id "a" and a variant listing only "a", both are shown.
- The comparator never returns 0, so the engine decides the relative order
  of images with equal `order`. The model's sort keeps them in input order.
  For every engine, `AnyTieOrderShowsSameOrders` and
  `DisplayedImagesUnderAnyTieOrder` prove that the shown images, their
  number and their `order` sequence are those of the model. Claims about
  which image stands where (the second sort being a no-op, `images` being a
  subsequence of `productImages`) hold for the tie-keeping sort only. An
  engine that reverses a run of tied images breaks them: with x and y both
  of order 1, `productImages` can be [y, x] while `images` is [x, y].

## Left out

- Rendering, the child components and the themed styles (lines 83-96 and the JSX of 129-249, apart from the gating expressions at 140, 219 and 227-228): presentation, not derived data.
- The props passed straight to child components: the title (137), product (166), sibling variants and current id (171-178), attribute list (186) and allocated stock (205). Each is `undefined` while loading and a field of the variant otherwise. The currency symbol (194-196) is modelled; see Findings.
- `Toggle` and `Form` internals: their source is not part of this model. The toggle flags are not modelled, and the form's dirty flag is a parameter of `Render`.
- `handleImageSelect` (128), `onRowClick` (180) and the callbacks `onBack`, `onDelete`, `onSubmit`, `onImageSelect`: effects outside the page. Only whether `onSubmit` is passed is modelled.
- `JSON.stringify` and `CRC.str`: foreign library code, taken as parameters. `crc` returns a signed 32-bit integer, so the key's decimal text never needs exponent notation.
- Images.Sort: keeps equal-`order` images in input order. A JavaScript engine may order them differently under this comparator. For every choice, `SortedPermutationsAgree` fixes only the sequence of `order` values, and `AnyTieOrderShowsSameOrders` fixes the set of shown images and their `order` sequence; neither fixes which of two tied images comes first.
- Images.SortIdentityOnSorted: holds for the tie-keeping sort only. An engine that reorders tied images need not return a sorted input unchanged.
- Images.SecondSortIsNoOp: holds for the tie-keeping sort only. Under an engine that reorders ties, the second sort at 127 may reorder tied images of the filtered list.
- Images.SelectImages: its subsequence clause holds for the tie-keeping sort only. The other clauses (sorted, membership, length) hold for every engine, by `AnyTieOrderShowsSameOrders`.
- ProductVariantPage.DisplayedImages: its subsequence clause holds for the tie-keeping sort only. For another engine, `DisplayedImagesUnderAnyTieOrder` gives the same images with the same `order` sequence, but `images` need not be a subsequence of `productImages`.
- Attributes.AttributeMap: treats every slug as an ordinary key. In a plain JavaScript object, assigning a string to the slug `__proto__` is ignored, and `...attributes` does not copy it.
- ProductVariantPage.StockField: treats only 0 and an absent stock as falsy. A `NaN` stock, also falsy in JavaScript, is not modelled.
- Numbers: `order` and `stock` are integers and amounts are reals. Floating-point behaviour is not modelled.
- ProductVariantPage.Render: uses the corrected `CurrencySymbol`. In the source, a render with `loading` false and a variant without a price override throws at 195 and shows no page; the model returns a full page for it. `CurrencySymbolAsWritten` models the throw.
- A render with `loading` false and no variant throws in JavaScript. The model excludes it through the `CanRead` precondition instead of modelling the exception.

## Findings

| source | as written | input that shows it | evidently intended | confidence | as-written member | corrected member |
|---|---|---|---|---|---|---|
| saleor/static/dashboard-next/products/components/ProductVariantPage/ProductVariantPage.tsx:194-196 | once loading is over, the currency symbol reads the price override's currency with no presence test, while the price fields at 146-153 test the same override before reading its amount | `loading` false and a variant whose `priceOverride` is null: the price fields start as null, then reading the currency throws a TypeError and the page does not render | the same presence test as the price fields, giving "" when there is no override | medium, not executed; the props type at 42-45 declares the override always present, but 146-153 treat it as optional | ProductVariantPage.CurrencySymbolAsWritten, ProductVariantPage.UnpricedVariantThrows | ProductVariantPage.CurrencySymbol, ProductVariantPage.CurrencySymbolRepairsRead |
