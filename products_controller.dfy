/** The write handlers of controllers/products.js over the store:
    `createProduct`, `updateProduct` and `deleteProduct`. Each returns the
    status and payload it would send and changes the store's tables as its
    store calls do. */
module ProductsController {
  import opened JsSemantics
  import opened Store
  import opened ProductVariants

  /** A product with its variants, as `findUnique` with `include: { variants: true }` returns it. */
  datatype ProductView = ProductView(product: ProductRow, variants: seq<VariantRow>)

  // ------------------------------------------------------------------ create

  /** The id the store gives a new product: one that no product has and no
      variant points at. */
  function NewProductId(products: seq<ProductRow>, variants: seq<VariantRow>): (pid: string)
    ensures forall k :: 0 <= k < |products| ==> products[k].id != pid
    ensures forall k :: 0 <= k < |variants| ==> variants[k].productId != pid
  {
    var taken := ProductIds(products) + VariantOwners(variants);
    assert forall k :: 0 <= k < |products| ==> ProductIds(products)[k] in taken;
    assert forall k :: 0 <= k < |variants| ==> VariantOwners(variants)[k] in taken;
    FreshId(taken)
  }

  /** The new product's variants are exactly the rows created with it. */
  lemma {:induction false} VariantsOfNewProduct(stored: seq<VariantRow>, created: seq<VariantRow>, pid: string)
    requires forall k :: 0 <= k < |stored| ==> stored[k].productId != pid
    requires forall k :: 0 <= k < |created| ==> created[k].productId == pid
    ensures VariantsOf(stored + created, pid) == created
    decreases |created|
  {
    if created == [] {
      assert stored + created == stored;
      NoVariantsOf(stored, pid);
    } else {
      var last := |created| - 1;
      assert (stored + created)[..|stored + created| - 1] == stored + created[..last];
      VariantsOfNewProduct(stored, created[..last], pid);
      assert created == created[..last] + [created[last]];
    }
  }

  lemma {:induction false} NoVariantsOf(rows: seq<VariantRow>, pid: string)
    requires forall k :: 0 <= k < |rows| ==> rows[k].productId != pid
    ensures VariantsOf(rows, pid) == []
    decreases |rows|
  {
    if rows != [] {
      NoVariantsOf(rows[..|rows| - 1], pid);
    }
  }

  /** `createProduct`: validation first; then one product row with rating 5
      and one variant row per submitted variant; the reply is the new product
      with exactly those variants. */
  method CreateProduct(db: Database, body: ProductData, field: VariantsField) returns (reply: Reply<ProductView>)
    modifies db
    ensures Validation(field).Reject? ==> reply == Error(400, Validation(field).message) && unchanged(db)
    ensures Validation(field) == Throw ==> reply == Error(500, "Error creating product") && unchanged(db)
    ensures Validation(field) == Pass ==>
              var pid := NewProductId(old(db.products), old(db.variants));
              var product := ProductRow(pid, body.(rating := Num(5)));
              var created := NewVariants(pid, Inputs(field.elements), VariantIds(old(db.variants)));
              db.products == old(db.products) + [product] && db.variants == old(db.variants) + created &&
              db.orderLines == old(db.orderLines) && db.wishlist == old(db.wishlist) &&
              reply == Ok(201, ProductView(product, created))
    ensures old(db.Valid()) ==> db.Valid()
  {
    var outcome := ValidateVariants(field);
    if outcome.Reject? {
      return Error(400, outcome.message);
    }
    if outcome == Throw {
      return Error(500, "Error creating product");
    }
    var pid := NewProductId(db.products, db.variants);
    var product := ProductRow(pid, body.(rating := Num(5)));
    var stored := db.variants;
    ghost var storedProducts := db.products;
    db.InsertProduct(product);
    var created := NewVariants(pid, Inputs(field.elements), VariantIds(stored));
    db.InsertVariants(created);
    FindAppendedProduct(storedProducts, product);
    var found := FindProduct(db.products, pid);
    VariantsOfNewProduct(stored, created, pid);
    reply := Ok(201, ProductView(found.value, VariantsOf(db.variants, pid)));
    if old(db.Valid()) {
      CreateKeepsKeysUnique(storedProducts, product, stored, created);
    }
  }

  /** A new product and its new variants keep every primary key unique. */
  lemma CreateKeepsKeysUnique(products: seq<ProductRow>, product: ProductRow, variants: seq<VariantRow>,
                              created: seq<VariantRow>)
    requires Unique(ProductIds(products)) && Unique(VariantIds(variants)) && Unique(VariantIds(created))
    requires forall k :: 0 <= k < |products| ==> products[k].id != product.id
    requires forall k :: 0 <= k < |created| ==> created[k].id !in VariantIds(variants)
    ensures Unique(ProductIds(products + [product])) && Unique(VariantIds(variants + created))
  {
    assert ProductIds(products + [product]) == ProductIds(products) + [product.id];
    UniqueAppend(ProductIds(products), [product.id]);
    assert VariantIds(variants + created) == VariantIds(variants) + VariantIds(created);
    UniqueAppend(VariantIds(variants), VariantIds(created));
  }

  // ------------------------------------------------------------------ update

  /** `updateProduct`: validation first, then the 404 check, then the product
      columns, the delete loop and the update-or-create loop. A call that
      throws in the last loop answers 500 and keeps the writes before it. */
  method UpdateProduct(db: Database, id: string, body: ProductData, field: VariantsField) returns (reply: Reply<ProductView>)
    modifies db
    ensures Validation(field).Reject? ==> reply == Error(400, Validation(field).message) && unchanged(db)
    ensures Validation(field) == Throw ==> reply == Error(500, "Error updating product") && unchanged(db)
    ensures Validation(field) == Pass && FindProduct(old(db.products), id).None? ==>
              reply == Error(404, "Product not found") && unchanged(db)
    ensures Validation(field) == Pass && FindProduct(old(db.products), id).Some? ==>
              var u := Reconciled(old(db.variants), id, Inputs(field.elements));
              var product := ProductRow(id, Overlay(FindProduct(old(db.products), id).value.data, body));
              db.products == UpdateProductRow(old(db.products), id, body) && db.variants == u.rows &&
              db.orderLines == old(db.orderLines) && db.wishlist == old(db.wishlist) &&
              reply == if u.failed then Error(500, "Error updating product")
                       else Ok(200, ProductView(product, VariantsOf(u.rows, id)))
    ensures old(db.Valid()) ==> db.Valid()
  {
    var outcome := ValidateVariants(field);
    if outcome.Reject? {
      return Error(400, outcome.message);
    }
    if outcome == Throw {
      return Error(500, "Error updating product");
    }
    var variants := Inputs(field.elements);
    var existingProduct := FindProduct(db.products, id);
    if existingProduct.None? {
      return Error(404, "Product not found");
    }
    ghost var storedProducts := db.products;
    db.PatchProduct(id, body);
    FindUpdatedProduct(storedProducts, id, body);
    if old(db.Valid()) {
      assert ProductIds(db.products) == ProductIds(storedProducts);
      ReconcileUnique(old(db.variants), id, variants);
    }

    var stored := db.variants;
    DeleteUnsubmitted(db, id, variants);
    var failed := UpsertVariants(db, id, variants, Taken(stored, variants));
    if failed {
      return Error(500, "Error updating product");
    }
    var updatedProduct := FindProduct(db.products, id);
    reply := Ok(200, ProductView(updatedProduct.value, VariantsOf(db.variants, id)));
  }

  /** The delete loop of `updateProduct`: every existing variant of product
      `pid` that no submitted variant names is deleted. */
  method DeleteUnsubmitted(db: Database, pid: string, variants: seq<VariantInput>)
    modifies db
    ensures db.variants == AfterDeletes(old(db.variants), pid, variants)
    ensures db.products == old(db.products) && db.orderLines == old(db.orderLines) && db.wishlist == old(db.wishlist)
  {
    var stored := db.variants;
    var existingVariants := VariantsOf(stored, pid);
    assert existingVariants[..0] == [];
    RemoveNoIds(stored);
    for i := 0 to |existingVariants|
      invariant db.variants == RemoveIds(stored, DeletedIds(existingVariants[..i], variants))
      invariant db.products == old(db.products) && db.orderLines == old(db.orderLines) && db.wishlist == old(db.wishlist)
    {
      var existingVariant := existingVariants[i];
      var stillExists := Submitted(variants, existingVariant.id);
      DeletedIdsStep(existingVariants, variants, i);
      ghost var deleted := DeletedIds(existingVariants[..i], variants);
      if !stillExists {
        RemoveIdsTwice(stored, deleted, existingVariant.id);
        db.DeleteVariant(existingVariant.id);
        assert DeletedIds(existingVariants[..i + 1], variants) == deleted + {existingVariant.id};
      } else {
        assert DeletedIds(existingVariants[..i + 1], variants) == deleted;
      }
    }
    assert existingVariants[..|existingVariants|] == existingVariants;
  }

  /** The update-or-create loop of `updateProduct`; `failed` is set when a
      call throws, which ends the loop with the earlier writes kept. */
  method UpsertVariants(db: Database, pid: string, variants: seq<VariantInput>, taken: seq<string>)
    returns (failed: bool)
    modifies db
    ensures UpsertAll(old(db.variants), variants, pid, taken) == Upserted(db.variants, failed)
    ensures db.products == old(db.products) && db.orderLines == old(db.orderLines) && db.wishlist == old(db.wishlist)
  {
    ghost var start := db.variants;
    assert variants[..0] == [];
    for i := 0 to |variants|
      invariant UpsertAll(start, variants[..i], pid, taken) == Upserted(db.variants, false)
      invariant db.products == old(db.products) && db.orderLines == old(db.orderLines) && db.wishlist == old(db.wishlist)
    {
      var variant := variants[i];
      assert variants[..i + 1][..i] == variants[..i];
      if Truthy(variant.id) {
        if !(variant.id.Str? && HasVariant(db.variants, variant.id.s)) {
          UpsertFailedStays(start, variants, pid, taken, i + 1);
          return true;
        }
        db.UpdateVariant(VariantRow(variant.id.s, pid, variant.name, variant.price, variant.inStock));
      } else {
        var row := VariantRow(FreshId(taken + VariantIds(db.variants)), pid, variant.name, variant.price, variant.inStock);
        db.InsertVariants([row]);
      }
    }
    assert variants[..|variants|] == variants;
    return false;
  }

  // ------------------------------------------------------------------ delete

  /** The variant that stops a delete, and whether an order line (rather than
      a wishlist item) refers to it. */
  datatype Blocker = Blocker(variant: VariantRow, inOrders: bool)

  predicate InOrders(lines: seq<OrderLineRow>, vid: string) {
    exists k :: 0 <= k < |lines| && lines[k].productVariantId == vid
  }

  predicate InWishlists(items: seq<WishlistRow>, vid: string) {
    exists k :: 0 <= k < |items| && items[k].productVariantId == vid
  }

  predicate Referenced(v: VariantRow, lines: seq<OrderLineRow>, items: seq<WishlistRow>) {
    InOrders(lines, v.id) || InWishlists(items, v.id)
  }

  /** The guard loop: the first variant, in list order, that some order line
      refers to, or failing that some wishlist item. */
  function FirstBlocker(vs: seq<VariantRow>, lines: seq<OrderLineRow>, items: seq<WishlistRow>): Option<Blocker> {
    if vs == [] then None
    else if InOrders(lines, vs[0].id) then Some(Blocker(vs[0], true))
    else if InWishlists(items, vs[0].id) then Some(Blocker(vs[0], false))
    else FirstBlocker(vs[1..], lines, items)
  }

  /** The 400 message naming the blocking variant. */
  function BlockMessage(b: Blocker): string {
    if b.inOrders then "Cannot delete product because variant '" + Display(b.variant.name) + "' is referenced in customer orders."
    else "Cannot delete product because variant '" + Display(b.variant.name) + "' is referenced in wishlists."
  }

  /** Nothing blocks exactly when no variant is referenced. */
  lemma {:induction false} FirstBlockerNone(vs: seq<VariantRow>, lines: seq<OrderLineRow>, items: seq<WishlistRow>)
    ensures FirstBlocker(vs, lines, items).None? <==> forall k :: 0 <= k < |vs| ==> !Referenced(vs[k], lines, items)
    decreases |vs|
  {
    if vs != [] {
      FirstBlockerNone(vs[1..], lines, items);
      assert forall k :: 1 <= k < |vs| ==> vs[1..][k - 1] == vs[k];
    }
  }

  /** The first referenced variant in list order blocks, and for that variant
      an order line is reported before a wishlist item. */
  lemma {:induction false} FirstBlockerAt(vs: seq<VariantRow>, lines: seq<OrderLineRow>, items: seq<WishlistRow>, k: nat)
    requires k < |vs| && Referenced(vs[k], lines, items)
    requires forall j :: 0 <= j < k ==> !Referenced(vs[j], lines, items)
    ensures FirstBlocker(vs, lines, items) == Some(Blocker(vs[k], InOrders(lines, vs[k].id)))
    decreases k
  {
    if k > 0 {
      assert !Referenced(vs[0], lines, items);
      assert forall j :: 0 <= j < k - 1 ==> vs[1..][j] == vs[j + 1];
      FirstBlockerAt(vs[1..], lines, items, k - 1);
    }
  }

  /** Every order line and wishlist item refers to a stored variant. */
  predicate ReferencesResolve(variants: seq<VariantRow>, lines: seq<OrderLineRow>, items: seq<WishlistRow>) {
    (forall k :: 0 <= k < |lines| ==> HasVariant(variants, lines[k].productVariantId)) &&
    (forall k :: 0 <= k < |items| ==> HasVariant(variants, items[k].productVariantId))
  }

  /** The guard is what keeps the cascade safe: when nothing blocks, removing
      the product's variants leaves no order line or wishlist item dangling. */
  lemma DeleteKeepsReferences(variants: seq<VariantRow>, lines: seq<OrderLineRow>, items: seq<WishlistRow>, pid: string)
    requires ReferencesResolve(variants, lines, items)
    requires FirstBlocker(VariantsOf(variants, pid), lines, items).None?
    ensures ReferencesResolve(WithoutProduct(variants, pid), lines, items)
  {
    var vs := VariantsOf(variants, pid);
    var rest := WithoutProduct(variants, pid);
    FirstBlockerNone(vs, lines, items);
    VariantsOfSpec(variants, pid);
    WithoutProductSpec(variants, pid);
    forall vid | HasVariant(variants, vid) && (InOrders(lines, vid) || InWishlists(items, vid))
      ensures HasVariant(rest, vid)
    {
      var j :| 0 <= j < |variants| && variants[j].id == vid;
      var v := variants[j];
      assert v.productId != pid;
      assert v in rest;
      var m :| 0 <= m < |rest| && rest[m] == v;
    }
    forall k | 0 <= k < |lines| ensures HasVariant(rest, lines[k].productVariantId) {
      assert InOrders(lines, lines[k].productVariantId);
    }
    forall k | 0 <= k < |items| ensures HasVariant(rest, items[k].productVariantId) {
      assert InWishlists(items, items[k].productVariantId);
    }
  }

  /** `findMany(...).length > 0` on order lines is `InOrders`. */
  lemma OrderLinesFound(lines: seq<OrderLineRow>, vid: string)
    ensures |OrderLinesFor(lines, vid)| > 0 <==> InOrders(lines, vid)
  {
    var found := OrderLinesFor(lines, vid);
    if |found| > 0 {
      assert found[0] in lines;
      var k :| 0 <= k < |lines| && lines[k] == found[0];
    }
    if InOrders(lines, vid) {
      var k :| 0 <= k < |lines| && lines[k].productVariantId == vid;
      assert lines[k] in found;
    }
  }

  lemma WishlistFound(items: seq<WishlistRow>, vid: string)
    ensures |WishlistFor(items, vid)| > 0 <==> InWishlists(items, vid)
  {
    var found := WishlistFor(items, vid);
    if |found| > 0 {
      assert found[0] in items;
      var k :| 0 <= k < |items| && items[k] == found[0];
    }
    if InWishlists(items, vid) {
      var k :| 0 <= k < |items| && items[k].productVariantId == vid;
      assert items[k] in found;
    }
  }

  /** `deleteProduct`: the guard loop over the product's variants, then the
      cascading delete, which throws (500) when there is no such product. */
  method DeleteProduct(db: Database, id: string) returns (reply: Reply<ProductView>)
    modifies db
    ensures var b := FirstBlocker(VariantsOf(old(db.variants), id), old(db.orderLines), old(db.wishlist));
            b.Some? ==> reply == Error(400, BlockMessage(b.value)) && unchanged(db)
    ensures var b := FirstBlocker(VariantsOf(old(db.variants), id), old(db.orderLines), old(db.wishlist));
            b.None? && FindProduct(old(db.products), id).None? ==>
              reply == Error(500, "Error deleting product") && unchanged(db)
    ensures var b := FirstBlocker(VariantsOf(old(db.variants), id), old(db.orderLines), old(db.wishlist));
            b.None? && FindProduct(old(db.products), id).Some? ==>
              reply == NoContent &&
              db.products == RemoveProduct(old(db.products), id) && db.variants == WithoutProduct(old(db.variants), id) &&
              db.orderLines == old(db.orderLines) && db.wishlist == old(db.wishlist)
    ensures old(db.Valid()) ==> db.Valid()
  {
    var productVariants := VariantsOf(db.variants, id);
    for i := 0 to |productVariants|
      invariant unchanged(db)
      invariant FirstBlocker(productVariants, db.orderLines, db.wishlist) ==
                FirstBlocker(productVariants[i..], db.orderLines, db.wishlist)
    {
      var variant := productVariants[i];
      assert productVariants[i..][0] == variant;
      var relatedOrderProductItems := OrderLinesFor(db.orderLines, variant.id);
      OrderLinesFound(db.orderLines, variant.id);
      if |relatedOrderProductItems| > 0 {
        return Error(400, BlockMessage(Blocker(variant, true)));
      }
      var relatedWishlistItems := WishlistFor(db.wishlist, variant.id);
      WishlistFound(db.wishlist, variant.id);
      if |relatedWishlistItems| > 0 {
        return Error(400, BlockMessage(Blocker(variant, false)));
      }
      assert productVariants[i..][1..] == productVariants[i + 1..];
    }
    if FindProduct(db.products, id).None? {
      return Error(500, "Error deleting product");
    }
    if db.Valid() {
      RemoveProductUnique(db.products, id);
      WithoutProductUnique(db.variants, id);
    }
    db.DeleteProductCascade(id);
    reply := NoContent;
  }
}
