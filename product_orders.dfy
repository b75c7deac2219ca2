/** controllers/customer_order_product.js: the order-line handlers. The heart
    is `getAllProductOrders`, which walks the flat order-line rows, looks up
    each line's variant (with its product), and groups the lines by order in
    a `Map`, whose insertion order is the order of the result. */
module ProductOrders {
  import opened JsSemantics
  import opened Store

  /** The order columns the listing selects, all but the order's id. */
  datatype OrderDetails = OrderDetails(name: JsValue, lastname: JsValue, phone: JsValue, email: JsValue,
                                       company: JsValue, adress: JsValue, apartment: JsValue, postalCode: JsValue,
                                       dateTime: JsValue, status: JsValue, total: JsValue)

  /** One row of the listing's `findMany`: the order (id and details), the
      line's variant id and its quantity. */
  datatype OrderRow = OrderRow(orderId: string, details: OrderDetails, productVariantId: string, quantity: JsValue)

  /** A variant with its product included. */
  datatype VariantWithProduct = VariantWithProduct(variant: VariantRow, product: ProductRow)

  /** The per-row `findUnique` on variants: a record, null, or a throw. */
  datatype Lookup = Found(record: VariantWithProduct) | NotFound | LookupFailed

  /** `{ ...product, quantity }`: the looked-up record (nothing when it was
      null) with the row's own quantity. */
  datatype ProductEntry = ProductEntry(record: Option<VariantWithProduct>, quantity: JsValue)

  /** `{ customerOrderId, customerOrder, products }` */
  datatype OrderGroup = OrderGroup(customerOrderId: string, customerOrder: OrderDetails, products: seq<ProductEntry>)

  // ------------------------------------------------------------ specification

  function EntryOf(l: Lookup, quantity: JsValue): ProductEntry {
    ProductEntry(if l.Found? then Some(l.record) else None, quantity)
  }

  function RowEntry(row: OrderRow, lookup: string -> Lookup): ProductEntry {
    EntryOf(lookup(row.productVariantId), row.quantity)
  }

  predicate Occurs(rows: seq<OrderRow>, id: string) {
    exists k :: 0 <= k < |rows| && rows[k].orderId == id
  }

  predicate AnyLookupFails(rows: seq<OrderRow>, lookup: string -> Lookup) {
    exists k :: 0 <= k < |rows| && lookup(rows[k].productVariantId).LookupFailed?
  }

  /** The map's keys in insertion order: each order id, once, where it first occurs. */
  function GroupKeys(rows: seq<OrderRow>): (keys: seq<string>)
    ensures forall id :: id in keys <==> Occurs(rows, id)
  {
    if rows == [] then []
    else
      var prefix := rows[..|rows| - 1];
      var keys := GroupKeys(prefix);
      var id := rows[|rows| - 1].orderId;
      assert forall k :: 0 <= k < |prefix| ==> prefix[k] == rows[k];
      if id in keys then keys else keys + [id]
  }

  /** The entries of the rows of order `id`, in row order. */
  function EntriesFor(rows: seq<OrderRow>, id: string, lookup: string -> Lookup): seq<ProductEntry> {
    if rows == [] then []
    else
      var last := rows[|rows| - 1];
      EntriesFor(rows[..|rows| - 1], id, lookup) + (if last.orderId == id then [RowEntry(last, lookup)] else [])
  }

  /** The details of the first row of order `id`. */
  function FirstDetails(rows: seq<OrderRow>, id: string): OrderDetails
    requires Occurs(rows, id)
  {
    var prefix := rows[..|rows| - 1];
    if Occurs(prefix, id) then FirstDetails(prefix, id)
    else rows[|rows| - 1].details
  }

  /** The index of the first row of order `id`. */
  function FirstIndex(rows: seq<OrderRow>, id: string): (i: nat)
    requires Occurs(rows, id)
    ensures i < |rows| && rows[i].orderId == id
    ensures forall j :: 0 <= j < i ==> rows[j].orderId != id
  {
    if rows[0].orderId == id then 0
    else
      assert forall k :: 1 <= k < |rows| ==> rows[1..][k - 1] == rows[k];
      1 + FirstIndex(rows[1..], id)
  }

  function GroupOf(rows: seq<OrderRow>, id: string, lookup: string -> Lookup): OrderGroup
    requires Occurs(rows, id)
  {
    OrderGroup(id, FirstDetails(rows, id), EntriesFor(rows, id, lookup))
  }

  /** The groups for `keys`, in the order of `keys`. */
  function GroupsFor(rows: seq<OrderRow>, keys: seq<string>, lookup: string -> Lookup): (groups: seq<OrderGroup>)
    requires forall k :: 0 <= k < |keys| ==> Occurs(rows, keys[k])
    ensures |groups| == |keys|
    ensures forall k :: 0 <= k < |keys| ==> groups[k] == GroupOf(rows, keys[k], lookup)
  {
    if keys == [] then []
    else GroupsFor(rows, keys[..|keys| - 1], lookup) + [GroupOf(rows, keys[|keys| - 1], lookup)]
  }

  /** The listing's result: one group per order id, in order of first occurrence. */
  function Grouped(rows: seq<OrderRow>, lookup: string -> Lookup): seq<OrderGroup> {
    GroupsFor(rows, GroupKeys(rows), lookup)
  }

  // ------------------------------------------------------------------ listing

  /** Scanning one more row adds its id to the keys when it is new. */
  lemma KeysStep(rows: seq<OrderRow>, i: nat)
    requires i < |rows|
    ensures GroupKeys(rows[..i + 1]) ==
              if rows[i].orderId in GroupKeys(rows[..i]) then GroupKeys(rows[..i]) else GroupKeys(rows[..i]) + [rows[i].orderId]
  {
    assert rows[..i + 1][..i] == rows[..i];
  }

  /** Scanning one more row gives its entry to its own order and to no other. */
  lemma EntriesStep(rows: seq<OrderRow>, i: nat, id: string, lookup: string -> Lookup)
    requires i < |rows|
    ensures EntriesFor(rows[..i + 1], id, lookup) ==
              EntriesFor(rows[..i], id, lookup) + (if rows[i].orderId == id then [RowEntry(rows[i], lookup)] else [])
  {
    assert rows[..i + 1][..i] == rows[..i];
  }

  /** Scanning one more row keeps the details of the orders already seen. */
  lemma DetailsStep(rows: seq<OrderRow>, i: nat, id: string)
    requires i < |rows| && Occurs(rows[..i + 1], id)
    ensures Occurs(rows[..i], id) ==> FirstDetails(rows[..i + 1], id) == FirstDetails(rows[..i], id)
    ensures !Occurs(rows[..i], id) ==> FirstDetails(rows[..i + 1], id) == rows[i].details
  {
    assert rows[..i + 1][..i] == rows[..i];
  }

  /** The listing's state after the first `i` rows: the keys in insertion
      order and, under each key, the group of those rows. */
  predicate Scanned(rows: seq<OrderRow>, i: nat, keys: seq<string>, groups: map<string, OrderGroup>, lookup: string -> Lookup)
    requires i <= |rows|
  {
    keys == GroupKeys(rows[..i]) &&
    groups.Keys == (set id | id in keys) &&
    forall id :: id in keys ==> groups[id] == GroupOf(rows[..i], id, lookup)
  }

  /** One turn of the listing loop keeps `Scanned`. */
  lemma ListingStep(rows: seq<OrderRow>, i: nat, keys: seq<string>, groups: map<string, OrderGroup>,
                    keys': seq<string>, groups': map<string, OrderGroup>, lookup: string -> Lookup)
    requires i < |rows| && Scanned(rows, i, keys, groups, lookup)
    requires var id := rows[i].orderId;
      id in groups ==>
        keys' == keys && groups' == groups[id := groups[id].(products := groups[id].products + [RowEntry(rows[i], lookup)])]
    requires var id := rows[i].orderId;
      id !in groups ==>
        keys' == keys + [id] && groups' == groups[id := OrderGroup(id, rows[i].details, [RowEntry(rows[i], lookup)])]
    ensures Scanned(rows, i + 1, keys', groups', lookup)
  {
    var id := rows[i].orderId;
    KeysStep(rows, i);
    assert keys' == GroupKeys(rows[..i + 1]);
    assert groups'.Keys == (set x | x in keys');
    forall x | x in keys' ensures groups'[x] == GroupOf(rows[..i + 1], x, lookup) {
      EntriesStep(rows, i, x, lookup);
      DetailsStep(rows, i, x);
      if x == id && id !in groups {
        EntriesForAbsent(rows[..i], id, lookup);
      }
    }
  }

  /** At the end of the loop the map, read in key order, is `Grouped`. */
  lemma ListingDone(rows: seq<OrderRow>, keys: seq<string>, groups: map<string, OrderGroup>, lookup: string -> Lookup)
    requires Scanned(rows, |rows|, keys, groups, lookup)
    ensures seq(|keys|, k requires 0 <= k < |keys| && keys[k] in groups => groups[keys[k]]) == Grouped(rows, lookup)
  {
    assert rows[..|rows|] == rows;
  }

  /** The loop body's map update: the entry joins its order's group, or
      starts a new group, keyed last, with the row's order details. */
  method AddToGroup(keys: seq<string>, groups: map<string, OrderGroup>, order: OrderRow, entry: ProductEntry)
    returns (keys': seq<string>, groups': map<string, OrderGroup>)
    ensures order.orderId in groups ==>
              keys' == keys && groups' == groups[order.orderId := groups[order.orderId].(products := groups[order.orderId].products + [entry])]
    ensures order.orderId !in groups ==>
              keys' == keys + [order.orderId] && groups' == groups[order.orderId := OrderGroup(order.orderId, order.details, [entry])]
  {
    var id := order.orderId;
    keys', groups' := keys, groups;
    if id in groups {
      groups' := groups[id := groups[id].(products := groups[id].products + [entry])];
    } else {
      keys' := keys + [id];
      groups' := groups[id := OrderGroup(id, order.details, [entry])];
    }
  }

  /** `getAllProductOrders`: any lookup that throws answers 500 with no
      groups; otherwise the groups, in insertion order of the map. */
  method GetAllProductOrders(productOrders: seq<OrderRow>, lookup: string -> Lookup) returns (reply: Reply<seq<OrderGroup>>)
    ensures AnyLookupFails(productOrders, lookup) ==> reply == Error(500, "Error fetching all product orders")
    ensures !AnyLookupFails(productOrders, lookup) ==> reply == Ok(200, Grouped(productOrders, lookup))
  {
    var keys: seq<string> := [];
    var ordersMap: map<string, OrderGroup> := map[];
    for i := 0 to |productOrders|
      invariant Scanned(productOrders, i, keys, ordersMap, lookup)
      invariant forall k :: 0 <= k < i ==> !lookup(productOrders[k].productVariantId).LookupFailed?
    {
      var order := productOrders[i];
      var product := lookup(order.productVariantId);
      if product.LookupFailed? {
        return Error(500, "Error fetching all product orders");
      }
      ghost var keys0, map0 := keys, ordersMap;
      keys, ordersMap := AddToGroup(keys, ordersMap, order, EntryOf(product, order.quantity));
      ListingStep(productOrders, i, keys0, map0, keys, ordersMap, lookup);
    }
    assert productOrders[..|productOrders|] == productOrders;
    var groupedOrders := seq(|keys|, k requires 0 <= k < |keys| && keys[k] in ordersMap => ordersMap[keys[k]]);
    ListingDone(productOrders, keys, ordersMap, lookup);
    reply := Ok(200, groupedOrders);
  }

  // ------------------------------------------------------------- properties

  /** Each order id appears in exactly one group. */
  lemma {:induction false} GroupKeysUnique(rows: seq<OrderRow>)
    ensures Unique(GroupKeys(rows))
    decreases |rows|
  {
    if rows != [] {
      var prefix := rows[..|rows| - 1];
      GroupKeysUnique(prefix);
      var keys := GroupKeys(prefix);
      var id := rows[|rows| - 1].orderId;
      if id !in keys {
        UniqueAppend(keys, [id]);
      }
    }
  }

  lemma FirstIndexPrefix(rows: seq<OrderRow>, n: nat, id: string)
    requires n <= |rows| && Occurs(rows[..n], id)
    ensures Occurs(rows, id) && FirstIndex(rows, id) == FirstIndex(rows[..n], id)
  {
    var i := FirstIndex(rows[..n], id);
    assert rows[..n][i] == rows[i];
    assert forall j :: 0 <= j < i ==> rows[..n][j] == rows[j];
    assert forall j :: 0 <= j < n ==> rows[..n][j] == rows[j];
  }

  /** Groups come in the order in which their ids first occur among the rows. */
  lemma {:induction false} GroupKeysOrder(rows: seq<OrderRow>)
    ensures forall a, b :: 0 <= a < b < |GroupKeys(rows)| ==>
              FirstIndex(rows, GroupKeys(rows)[a]) < FirstIndex(rows, GroupKeys(rows)[b])
    decreases |rows|
  {
    if rows != [] {
      var n := |rows| - 1;
      var prefix := rows[..n];
      GroupKeysOrder(prefix);
      var keys := GroupKeys(prefix);
      var all := GroupKeys(rows);
      forall a, b | 0 <= a < b < |all| ensures FirstIndex(rows, all[a]) < FirstIndex(rows, all[b]) {
        FirstIndexPrefix(rows, n, all[a]);
        if b < |keys| {
          FirstIndexPrefix(rows, n, all[b]);
        } else {
          assert all[b] == rows[n].orderId && !Occurs(prefix, all[b]);
          assert forall j :: 0 <= j < n ==> prefix[j] == rows[j];
        }
      }
    }
  }

  /** A group's details are those of the first row with its id. */
  lemma {:induction false} FirstDetailsSpec(rows: seq<OrderRow>, id: string)
    requires Occurs(rows, id)
    ensures FirstDetails(rows, id) == rows[FirstIndex(rows, id)].details
    decreases |rows|
  {
    var n := |rows| - 1;
    var prefix := rows[..n];
    if Occurs(prefix, id) {
      FirstDetailsSpec(prefix, id);
      FirstIndexPrefix(rows, n, id);
      assert prefix[FirstIndex(prefix, id)] == rows[FirstIndex(prefix, id)];
    } else {
      assert forall j :: 0 <= j < n ==> prefix[j] == rows[j];
    }
  }

  /** Row `j` of order `id` contributes its entry at the position given by the
      number of earlier rows of that order, so a group keeps its rows' order. */
  lemma {:induction false} EntryAt(rows: seq<OrderRow>, id: string, lookup: string -> Lookup, j: nat)
    requires j < |rows| && rows[j].orderId == id
    ensures |EntriesFor(rows[..j], id, lookup)| < |EntriesFor(rows, id, lookup)|
    ensures EntriesFor(rows, id, lookup)[|EntriesFor(rows[..j], id, lookup)|] == RowEntry(rows[j], lookup)
    decreases |rows|
  {
    var n := |rows| - 1;
    var prefix := rows[..n];
    if j < n {
      assert prefix[..j] == rows[..j];
      assert prefix[j] == rows[j];
      EntryAt(prefix, id, lookup, j);
    } else {
      assert rows[..j] == prefix;
    }
  }

  /** An id with no rows has no entries. */
  lemma {:induction false} EntriesForAbsent(rows: seq<OrderRow>, id: string, lookup: string -> Lookup)
    requires !Occurs(rows, id)
    ensures EntriesFor(rows, id, lookup) == []
    decreases |rows|
  {
    if rows != [] {
      var prefix := rows[..|rows| - 1];
      assert forall k :: 0 <= k < |prefix| ==> prefix[k] == rows[k];
      EntriesForAbsent(prefix, id, lookup);
    }
  }

  /** The number of products over all groups. */
  function TotalProducts(groups: seq<OrderGroup>): nat {
    if groups == [] then 0
    else TotalProducts(groups[..|groups| - 1]) + |groups[|groups| - 1].products|
  }

  /** The number of entries the rows give the ids in `keys`. */
  function EntryCount(rows: seq<OrderRow>, keys: seq<string>, lookup: string -> Lookup): nat {
    if keys == [] then 0
    else EntryCount(rows, keys[..|keys| - 1], lookup) + |EntriesFor(rows, keys[|keys| - 1], lookup)|
  }

  lemma {:induction false} TotalIsEntryCount(rows: seq<OrderRow>, keys: seq<string>, lookup: string -> Lookup)
    requires forall k :: 0 <= k < |keys| ==> Occurs(rows, keys[k])
    ensures TotalProducts(GroupsFor(rows, keys, lookup)) == EntryCount(rows, keys, lookup)
    decreases |keys|
  {
    if keys != [] {
      var n := |keys| - 1;
      var groups := GroupsFor(rows, keys, lookup);
      assert groups[..n] == GroupsFor(rows, keys[..n], lookup);
      TotalIsEntryCount(rows, keys[..n], lookup);
    }
  }

  /** One more row adds one entry to the count of a key list that holds its id once. */
  lemma {:induction false} EntryCountStep(rows: seq<OrderRow>, row: OrderRow, keys: seq<string>, lookup: string -> Lookup)
    requires Unique(keys)
    ensures EntryCount(rows + [row], keys, lookup) == EntryCount(rows, keys, lookup) + (if row.orderId in keys then 1 else 0)
    decreases |keys|
  {
    if keys != [] {
      var n := |keys| - 1;
      assert (rows + [row])[..|rows|] == rows;
      assert Unique(keys[..n]);
      EntryCountStep(rows, row, keys[..n], lookup);
      assert row.orderId in keys <==> row.orderId in keys[..n] || row.orderId == keys[n];
      if row.orderId == keys[n] {
        assert row.orderId !in keys[..n];
      }
    }
  }

  lemma {:induction false} EntryCountAll(rows: seq<OrderRow>, lookup: string -> Lookup)
    ensures EntryCount(rows, GroupKeys(rows), lookup) == |rows|
    decreases |rows|
  {
    if rows != [] {
      var n := |rows| - 1;
      var prefix := rows[..n];
      var row := rows[n];
      var keys := GroupKeys(prefix);
      assert rows == prefix + [row];
      EntryCountAll(prefix, lookup);
      GroupKeysUnique(prefix);
      EntryCountStep(prefix, row, keys, lookup);
      if row.orderId !in keys {
        assert !Occurs(prefix, row.orderId);
        EntriesForAbsent(prefix, row.orderId, lookup);
        assert (keys + [row.orderId])[..|keys|] == keys;
      }
    }
  }

  /** No row is lost or repeated: the groups hold as many products as there are rows. */
  lemma ProductsConserved(rows: seq<OrderRow>, lookup: string -> Lookup)
    ensures TotalProducts(Grouped(rows, lookup)) == |rows|
  {
    TotalIsEntryCount(rows, GroupKeys(rows), lookup);
    EntryCountAll(rows, lookup);
  }

  // --------------------------------------------------------- delete, update

  /** `deleteProductOrder`: every line of order `id` goes, every other line
      stays in place; the reply is 204. */
  method DeleteProductOrder(db: Database, id: string) returns (reply: Reply<OrderLineRow>)
    modifies db
    ensures reply == NoContent
    ensures db.orderLines == WithoutOrder(old(db.orderLines), id)
    ensures db.products == old(db.products) && db.variants == old(db.variants) && db.wishlist == old(db.wishlist)
    ensures old(db.Valid()) ==> db.Valid()
  {
    if db.Valid() {
      WithoutOrderUnique(db.orderLines, id);
    }
    db.DeleteOrderLines(id);
    reply := NoContent;
  }

  /** The body of an update: an absent (undefined) field leaves the column as it is. */
  datatype LinePatch = LinePatch(customerOrderId: Option<string>, productVariantId: Option<string>, quantity: JsValue)

  function Patched(line: OrderLineRow, patch: LinePatch): (r: OrderLineRow)
    ensures r.id == line.id
    ensures patch == LinePatch(None, None, Undefined) ==> r == line
  {
    OrderLineRow(line.id,
                 if patch.customerOrderId.Some? then patch.customerOrderId.value else line.customerOrderId,
                 if patch.productVariantId.Some? then patch.productVariantId.value else line.productVariantId,
                 Keep(line.quantity, patch.quantity))
  }

  /** `updateProductOrder`: 404 and no change when there is no line `id`;
      otherwise that line is patched, the others are left alone, and the reply
      is the patched line. */
  method UpdateProductOrder(db: Database, id: string, patch: LinePatch) returns (reply: Reply<OrderLineRow>)
    modifies db
    ensures FindLine(old(db.orderLines), id).None? ==> reply == Error(404, "Order not found") && unchanged(db)
    ensures FindLine(old(db.orderLines), id).Some? ==>
              var updated := Patched(FindLine(old(db.orderLines), id).value, patch);
              reply == Ok(200, updated) && db.orderLines == SetLine(old(db.orderLines), updated) &&
              db.products == old(db.products) && db.variants == old(db.variants) && db.wishlist == old(db.wishlist)
    ensures old(db.Valid()) ==> db.Valid()
  {
    var existingOrder := FindLine(db.orderLines, id);
    if existingOrder.None? {
      return Error(404, "Order not found");
    }
    var updatedOrder := Patched(existingOrder.value, patch);
    ghost var lines := db.orderLines;
    db.UpdateOrderLine(updatedOrder);
    assert OrderLineIds(db.orderLines) == OrderLineIds(lines);
    reply := Ok(200, updatedOrder);
  }
}
