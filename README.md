# wacky-commerce-backend: catalog query, product write rules and order grouping

This project models the handlers of the wacky-commerce-backend Express server
that do more than forward a call to the ORM. It states what they promise and
proves those promises in Dafny.

- **Catalog listing** (`getAllProducts` in `controllers/products.js`).
  - The handler scans the raw URL's query segments with `indexOf` and `substring`.
  - From them it builds a filter list, a filter object keyed by filter type, and a sort value.
  - It then issues one store query: a where-clause (with the category rewrite), an ordering, and `skip`/`take` for the page.
  - Module `CatalogQuery` holds this. The JavaScript built-ins it relies on are in module `JsSemantics`: `indexOf`, `substring` with its clamping and swapping, `split`, `parseInt`, `Number`, truthiness and template interpolation.
- **Product write rules**, also in `controllers/products.js`.
  - The variant-list validation shared by `createProduct` and `updateProduct`.
  - The reconciliation of the stored variants with the submitted list in `updateProduct`: delete the ones not submitted, then update or create one variant per submitted element.
  - The reference guard of `deleteProduct`, which refuses to delete while an order line or a wishlist item points at one of the product's variants.
  - Modules `ProductVariants` and `ProductsController` hold these.
- **Order lines** (`controllers/customer_order_product.js`).
  - The `getAllProductOrders` fold, which groups the flat order-line rows into one group per order, in insertion order of a `Map`.
  - `deleteProductOrder` and `updateProductOrder`.
  - Module `ProductOrders` holds these.

The relational store is a `Database` object in module `Store`.
- Its four tables (products, variants, order lines, wishlist items) are `seq` fields.
- Each handler method changes them through methods with `modifies` clauses.
- `Valid()` says the primary keys of each of the four tables are distinct. Every handler preserves it.
- Each write handler and `getAllProductOrders` returns a `Reply`: a status with a body, a status with an error message, or 204 No Content. `GetAllProducts` returns instead the `ListingQuery` it sends to the store.

The operator cut at `indexOf("=") - 1` (controllers/products.js:113-116) fits the qs bracket form `filters[<field>][$<op>]=<value>`: there the dropped character is the closing `]`, and the operator reads back exactly (`BracketFilter`). In a form without brackets, such as `filters.<field>$<op>=<value>`, the operator loses its own last character, so `lte` becomes `lt` (`DollarFormOperator`).

## Model

| member | source | states |
|---|---|---|
| JsSemantics.IndexOfSpec | controllers/products.js:15 | `indexOf` returns the first index where the needle occurs, and -1 exactly when it occurs nowhere |
| JsSemantics.SubstringAtIndexOf | controllers/products.js:38-41 | cutting at the index where a word was found returns that word, so the type names the scanner cuts out are the literal names |
| JsSemantics.SplitJoin | controllers/products.js:24-26 | splitting on `&` undoes joining with `&` when no piece holds `&` |
| JsSemantics.ParseIntDecimalString | controllers/products.js:98-103 | `parseInt` reads back the decimal text of any integer, negative ones included |
| JsSemantics.NumberOfDecimalString | controllers/products.js:21 | `Number` reads back the decimal text of any integer |
| CatalogQuery.SegmentType | controllers/products.js:33-85 | a segment sets a filter type exactly when it mentions "filters" and one of the five names; the type it sets is one the segment mentions |
| CatalogQuery.LaterTestWins | controllers/products.js:33-85 | when a segment mentions several names, the one checked last wins: no name of a later test occurs in the segment |
| CatalogQuery.LastTypeUndefined | controllers/products.js:28-85 | the filter type stays undefined exactly when no segment sets one |
| CatalogQuery.LastSetterWins | controllers/products.js:28-85 | the filter type in effect is the one set by the last segment that sets one; a segment that sets none carries the previous type over |
| CatalogQuery.ScanFilterType | controllers/products.js:33-85 | the five overwriting tests leave exactly the segment's own type when it sets one, else the incoming type |
| CatalogQuery.FilterAt | controllers/products.js:93-127 | each segment that mentions "filters" contributes exactly one filter, in segment order, with its own operator and value and the type in effect after it |
| CatalogQuery.FiltersLength | controllers/products.js:93-127 | the filter list has one element per segment that mentions "filters" |
| CatalogQuery.SortDefault | controllers/products.js:18 | with no segment mentioning "sort" the sort value is "defaultSort" |
| CatalogQuery.LastSortWins | controllers/products.js:87-90 | the sort value is the text after the first `=` of the last segment that mentions "sort" |
| CatalogQuery.ParseSegments | controllers/products.js:28-128 | the scanning loop produces exactly `Filters` and `SortValue` of the segments, keeping the filter type equal to `LastType` of the segments scanned |
| CatalogQuery.BracketFilter | controllers/products.js:94-116 | for a bracket-form segment the operator and the value text read back exactly, and a category value is kept as raw text |
| CatalogQuery.BracketNumber | controllers/products.js:96-103 | a number written in a bracket-form segment that does not mention "category" is read back as that number |
| CatalogQuery.DollarFormOperator | controllers/products.js:113-116 | in the dollar form without brackets, the operator loses its own last character |
| CatalogQuery.FilterObjectKeys | controllers/products.js:129-136 | the filter object has an entry for every filter's key and no other entries |
| CatalogQuery.FilterObjectLastWins | controllers/products.js:129-136 | under each key the filter object holds the last filter with that key |
| CatalogQuery.BuildFilterObject | controllers/products.js:129-136 | the spread-and-overwrite loop computes the filter object |
| CatalogQuery.NoFiltersNoObject | controllers/products.js:129-137 | the filter object is empty exactly when no segment mentions "filters" |
| CatalogQuery.WhereOf | controllers/products.js:139-225 | an empty filter object gives no where-clause; otherwise the clause has the object's keys, every entry passes through unchanged, and a truthy category `equals` becomes an equality on the category's name |
| CatalogQuery.OrderingTable | controllers/products.js:146-164 | titleAsc, titleDesc, lowPrice and highPrice each give exactly their ordering; every other sort value leaves the listing unordered |
| CatalogQuery.PageOf | controllers/products.js:21 | the page is never 0; it is `Number(page)` when that is a non-zero number, and 1 when the parameter is missing, 0 or NaN |
| CatalogQuery.PageRoundTrip | controllers/products.js:21 | a page written as an integer is read back as that page, except 0, which gives page 1 |
| CatalogQuery.GetAllProducts | controllers/products.js:4-226 | the handler issues exactly the query `Listing` describes |
| CatalogQuery.AdminBypass | controllers/products.js:5-13 | the listing fetches all products, without filters, sort or paging, exactly in admin mode |
| CatalogQuery.PagingIgnoresFilters | controllers/products.js:168-226 | every non-admin listing skips `(page - 1) * 10` rows and takes 12, whatever the URL's filters and sort |
| CatalogQuery.WhereIffFilterSegment | controllers/products.js:168-226 | a non-admin listing has a where-clause exactly when some query segment mentions "filters" |
| Store.FreshId | controllers/products.js:286-305 | a generated id is distinct from every id already taken |
| Store.FindProduct | controllers/products.js:362-370 | the lookup finds a product row with the id, and finds nothing exactly when no row has it |
| Store.FindAppendedProduct | controllers/products.js:306-313 | a product just added under a new id is found by that id |
| Store.UpdateProductRow | controllers/products.js:373-386 | the update changes only the row with the id, overlaying every field the body gives, and leaves undefined fields as stored |
| Store.FindUpdatedProduct | controllers/products.js:435-443 | reading the product back after the update gives the stored row overlaid with the body |
| Store.VariantsOfSpec | controllers/products.js:389-393 | the product's variants are exactly the variant rows whose productId is the product's id |
| Store.RemoveIdsSpec | controllers/products.js:396-405 | deleting variants by id keeps exactly the rows whose id was not deleted |
| Store.RemoveIdsTwice | controllers/products.js:396-405 | deleting one id after a set of ids equals deleting the enlarged set |
| Store.WithoutProductSpec | controllers/products.js:492-497 | the cascade keeps exactly the variants of other products |
| Store.RemoveProductSpec | controllers/products.js:492-497 | deleting the product keeps exactly the other product rows |
| Store.OrderLinesFor | controllers/products.js:465-470 | the order lines found for a variant are exactly those that refer to it |
| Store.WishlistFor | controllers/products.js:479-483 | the wishlist items found for a variant are exactly those that refer to it |
| Store.FindLine | controllers/customer_order_product.js:26-34 | the lookup finds an order line with the id, and finds nothing exactly when no line has it |
| Store.SetByKey | controllers/customer_order_product.js:36-45 | an update by id replaces the row with that id and no other; `SetLine` (order lines) and `SetRow` (variants) are this update |
| Store.WithoutOrderMembers | controllers/customer_order_product.js:57-61 | deleting by order keeps exactly the lines of other orders |
| Store.WithoutOrderUnique | controllers/customer_order_product.js:57-61 | deleting by order keeps the line ids distinct |
| Store.RemoveIdsUnique | controllers/products.js:396-405 | deleting variants keeps the variant ids distinct |
| Store.RemoveProductUnique | controllers/products.js:492-497 | deleting a product keeps the product ids distinct |
| Store.WithoutProductUnique | controllers/products.js:492-497 | the cascade keeps the variant ids distinct |
| Store.Database.InsertProduct | controllers/products.js:286-296 | the product row is appended and no other table changes |
| Store.Database.PatchProduct | controllers/products.js:373-386 | the products table becomes the updated table and no other table changes |
| Store.Database.DeleteProductCascade | controllers/products.js:492-497 | the product and all its variants go, and order lines and wishlist stay |
| Store.Database.InsertVariants | controllers/products.js:298-305 | the variant rows are appended and no other table changes |
| Store.Database.UpdateVariant | controllers/products.js:411-421 | the variant with the row's id is replaced and no other table changes |
| Store.Database.DeleteVariant | controllers/products.js:399-403 | the variant with the id goes and no other table changes |
| Store.Database.DeleteOrderLines | controllers/customer_order_product.js:57-61 | the order's lines go and no other table changes |
| Store.Database.UpdateOrderLine | controllers/customer_order_product.js:36-45 | the line with the id is replaced and no other table changes |
| ProductVariants.CheckElement | controllers/products.js:268-284 | reading an element that is null or undefined throws; otherwise the element passes exactly when its name is truthy and neither price nor inStock is undefined or null, so price 0 and inStock false pass; a falsy name gives "Name field is required in variant", else a nullish price gives "Price field is required in variant", else a nullish inStock gives "inStock field is required in variant" |
| ProductVariants.FirstFailurePass | controllers/products.js:268-284 | the list check passes exactly when every element passes |
| ProductVariants.FirstFailureAt | controllers/products.js:268-284 | the reported failure is that of the first failing element in list order, whose message is the one `CheckElement` gives for its first failing test |
| ProductVariants.ValidationPass | controllers/products.js:261-284 | validation passes exactly for a non-empty array whose every element passes; a non-array or an empty array is refused with "Product variants are required" before any element is read |
| ProductVariants.ValidateVariants | controllers/products.js:261-284 | the validation loop returns `Validation` of the field |
| ProductVariants.Inputs | controllers/products.js:299-304 | each submitted element's fields are read in list order |
| ProductVariants.NewVariants | controllers/products.js:298-305 | one new variant per submitted element, in order, owned by the product, with the element's name, price and inStock and fresh distinct ids |
| ProductVariants.SubmittedIds | controllers/products.js:422-431 | every string id among the submitted variants is listed; together with the stored ids these are the ids a created variant's generated id must avoid |
| ProductVariants.DeletedIdsSpec | controllers/products.js:396-405 | an id is deleted exactly when it belongs to an existing variant of the product and no submitted variant has it |
| ProductVariants.AfterDeletesSpec | controllers/products.js:388-405 | a variant of the product survives the delete loop exactly when it was submitted; with distinct ids, no other product's variant is touched |
| ProductVariants.AfterDeletesSubset | controllers/products.js:388-405 | the delete loop adds nothing: every survivor was stored, and a survivor of this product was submitted |
| ProductVariants.LastWithSpec | controllers/products.js:408-421 | of several submitted variants with the same id, the last one's update wins |
| ProductVariants.UpsertKept | controllers/products.js:408-433 | a successful update-or-create loop keeps every stored row in place, updated by the last submitted variant naming it, and adds one row per variant without an id |
| ProductVariants.UpsertCreated | controllers/products.js:422-431 | each variant without an id is created at its position with the submitted fields, owned by the product, under a fresh id |
| ProductVariants.UpsertSucceeds | controllers/products.js:408-433 | the loop succeeds exactly when every truthy submitted id is a string naming a stored row |
| ProductVariants.UpsertFailedStays | controllers/products.js:408-433 | after the first failing call the loop stops, and the writes made before it remain |
| ProductVariants.UpsertUnique | controllers/products.js:407-433 | the update-or-create loop keeps the variant ids distinct |
| ProductVariants.ReconcileSucceeds | controllers/products.js:388-433 | the reconciliation succeeds exactly when every truthy submitted id is a string naming a variant stored before the request |
| ProductVariants.ReconcileDeletes | controllers/products.js:388-405 | after a successful reconciliation, no variant of the product that was not submitted remains |
| ProductVariants.ReconcileUpdates | controllers/products.js:408-421 | every submitted variant with a truthy id ends up with the last submitted fields for that id and belongs to the product |
| ProductVariants.ReconcileCreates | controllers/products.js:422-431 | every submitted variant without an id is created with its fields under an id that is neither stored nor submitted |
| ProductVariants.ReconcileOnlySubmitted | controllers/products.js:388-433 | afterwards the product owns only submitted variants and newly created ones, and the table grows by the number of created variants |
| ProductVariants.ReconcileOthersUntouched | controllers/products.js:388-433 | a variant of another product that was not submitted survives unchanged |
| ProductVariants.ReconcileUnique | controllers/products.js:388-433 | the reconciliation keeps the variant ids distinct |
| ProductsController.NewProductId | controllers/products.js:286-296 | the new product's id is used by no product and owns no variant |
| ProductsController.VariantsOfNewProduct | controllers/products.js:306-315 | reading the new product back gives exactly the variants just created |
| ProductsController.CreateKeepsKeysUnique | controllers/products.js:286-305 | creating a product with its variants keeps product and variant ids distinct |
| ProductsController.CreateProduct | controllers/products.js:249-320 | a refused list answers 400 with its message and a throwing element answers 500, with nothing stored in either case; otherwise the product is stored with rating 5 and one variant per element, and 201 returns it with exactly those variants; keys stay distinct |
| ProductsController.UpdateProduct | controllers/products.js:323-449 | validation is checked before existence (400 or 500 first, then 404 "Product not found", nothing changed); otherwise the product is overlaid, the variants reconciled, and 200 returns the product with its variants, or 500 when an update call throws after partial writes; keys stay distinct |
| ProductsController.DeleteUnsubmitted | controllers/products.js:388-405 | the delete loop leaves the variants table as `AfterDeletes`, other tables unchanged |
| ProductsController.UpsertVariants | controllers/products.js:407-433 | the update-or-create loop ends in the table and failure flag of `UpsertAll`, other tables unchanged |
| ProductsController.FirstBlockerNone | controllers/products.js:464-490 | nothing blocks a delete exactly when no variant of the product is referenced by an order line or a wishlist item |
| ProductsController.FirstBlockerAt | controllers/products.js:464-490 | the blocking variant is the first referenced one in list order, and the order-line check comes before the wishlist check |
| ProductsController.OrderLinesFound | controllers/products.js:465-476 | the order-line query finds something exactly when some line refers to the variant |
| ProductsController.WishlistFound | controllers/products.js:479-489 | the wishlist query finds something exactly when some item refers to the variant |
| ProductsController.DeleteKeepsReferences | controllers/products.js:492-497 | when the guard passes, the cascade leaves no order line or wishlist item pointing at a deleted variant |
| ProductsController.DeleteProduct | controllers/products.js:452-504 | a referenced variant answers 400 naming it, with nothing deleted; a missing product answers 500; otherwise the product and its variants are deleted and the answer is 204; keys stay distinct |
| ProductOrders.GroupKeys | controllers/customer_order_product.js:117-152 | the map's keys are exactly the order ids that occur among the rows |
| ProductOrders.GroupKeysUnique | controllers/customer_order_product.js:141-151 | each order id gets exactly one group |
| ProductOrders.GroupKeysOrder | controllers/customer_order_product.js:141-155 | groups appear in the order of each id's first occurrence among the rows |
| ProductOrders.GroupsFor | controllers/customer_order_product.js:155 | the output has one group per key, in key order, each the group of that id |
| ProductOrders.FirstDetailsSpec | controllers/customer_order_product.js:141-150 | a group's order details are those of the first row with its id |
| ProductOrders.EntryAt | controllers/customer_order_product.js:141-150 | each row's entry, the looked-up record plus the row's quantity, sits in its order's group after the entries of the earlier rows of that order, so a group keeps its rows' order |
| ProductOrders.ProductsConserved | controllers/customer_order_product.js:141-155 | the groups hold as many products in total as there are rows |
| ProductOrders.AddToGroup | controllers/customer_order_product.js:141-151 | a row of a known order appends its entry to that group; a row of a new order adds a key at the end and a group with the row's details |
| ProductOrders.GetAllProductOrders | controllers/customer_order_product.js:90-164 | a lookup that throws answers 500 with no groups; otherwise 200 with exactly the grouped orders |
| ProductOrders.DeleteProductOrder | controllers/customer_order_product.js:54-68 | every line of the order goes, every other line stays, the answer is 204, and line ids stay distinct |
| ProductOrders.Patched | controllers/customer_order_product.js:36-45 | the patched line keeps its id, and a patch with every field undefined changes nothing |
| ProductOrders.UpdateProductOrder | controllers/customer_order_product.js:21-52 | a missing line answers 404 "Order not found" with nothing changed; otherwise only that line is patched and 200 returns it |

## Left out

- `controllers/wishlist.js`, `controllers/mainImages.js` and the routes: pass-through calls to the ORM, file upload and routing glue, with no logic of their own.
- `getAllProductsOld`: unused and not exported.
- `searchProducts` and `getProductById`: single ORM calls; the ORM's `contains` matching belongs to a foreign library.
- `createOrderProduct` and `getProductOrder`: single ORM calls. The `!order` test in `getProductOrder` can never fire, because `findMany` never returns null.
- Request and response plumbing, `async`/`await` and logging: the model keeps only the status and the body or error message. The `errorLog` text in the 500 answer of `updateProduct` is not modelled.
- ORM failures other than those the code itself provokes are not modelled: a foreign key, a duplicate slug, a value of the wrong column type, or a store that is down.
- CreateProduct: answers 500 only when reading a variant element throws; the other store failures that give 500 in the source are not modelled.
- UpdateProduct: answers 500 after partial writes only when an update names a variant that does not exist, or an id that is not a string; other store failures are not modelled.
- UpdateProductOrder: the 500 "Error updating order" answer on a store failure is not modelled. A `customerOrderId` or `productVariantId` in the body is either absent or a string; a null one is not modelled. A null `quantity` is stored as given, though the store's column may refuse it.
- DeleteProductOrder: the 500 "Error deleting product orders" answer on a store failure is not modelled.
- GetAllProducts: the 500 "Error fetching products" answer of the admin listing on a store failure is not modelled.
- Ids are generated by the store in the source. Here `FreshId` stands in for that generation: an id of `x` characters longer than any id taken. In `updateProduct` the taken ids are the stored variant ids and every id the request submits (`Taken`), so a generated id never equals a submitted one.
- ProductVariants.ReconcileSucceeds: assumes the store's generated ids differ from every id submitted in the same request, not only from the stored ones. A uuid meets this only with overwhelming probability. If a created variant received an id submitted later in the list, that later update would succeed where the lemma says it fails.
- ProductVariants.ReconcileCreates: its "nor submitted" half rests on the same assumption about generated ids.
- The variant lookup of `getAllProductOrders` is a parameter, a total function from variant id to record, not found, or throw. The store behind it is not modelled.
- The listing's result rows (products with category name and variants) are not modelled; the model stops at the query the handler sends.
- The insertion order of the JavaScript `Map` is modelled by a sequence of keys next to a Dafny `map`.
- Concurrency and atomicity are not modelled. The model is sequential, so races between concurrent requests do not arise. The non-atomic multi-step update is modelled only as far as the writes made before a failing call remain.
- Number forms beyond integers: floats, exponents, `Infinity`, binary and octal literals. `parseInt` and `Number` are modelled on integer text only (sign, digits, `0x` prefix, white space), and their results are exact Dafny integers, not doubles.
- JsSemantics.ParseInt: JavaScript rounds integer text above 2^53 to the nearest double, and turns a very long digit string into `Infinity`; the model returns the exact integer.
- JsSemantics.NumberOf: as for `ParseInt`, text above 2^53 is rounded and a very long digit string gives `Infinity` (so a 400-digit page gives `skip` = `Infinity`); the model returns the exact integer.
- JsSemantics.ParseIntDecimalString: this read-back holds in JavaScript only for integers of magnitude at most 2^53; the model states it for every integer.
- JsSemantics.NumberOfDecimalString: this read-back holds in JavaScript only for integers of magnitude at most 2^53; the model states it for every integer.
- CatalogQuery.BracketNumber: this read-back holds in JavaScript only for integers of magnitude at most 2^53; the model states it for every integer.
- CatalogQuery.PageRoundTrip: this read-back holds in JavaScript only for integers of magnitude at most 2^53; the model states it for every integer.
- Non-integer numbers in request bodies: `JsValue.Num` carries integers only, so a JSON body value such as a price of `19.99` is not representable.
- No percent-decoding is done, in the source or in the model, so an encoded `$`, `[` or `=` is not recognised.
- The query parameters `mode` and `page` arrive already decoded, as optional strings; a parameter given more than once (an array) is not modelled.
