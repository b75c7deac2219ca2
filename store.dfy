/** The relational store behind the controllers, as in-memory tables: products,
    product variants, order lines (`customer_order_product`) and wishlist items.
    Each table is a sequence of rows in the store's own order; the handlers
    read and rewrite them step by step, one store call at a time. */
module Store {
  import opened JsSemantics

  /** The writable columns of a product, as the request body supplies them. */
  datatype ProductData = ProductData(slug: JsValue, title: JsValue, mainImage: JsValue, rating: JsValue,
                                     description: JsValue, manufacturer: JsValue, categoryId: JsValue)

  datatype ProductRow = ProductRow(id: string, data: ProductData)

  datatype VariantRow = VariantRow(id: string, productId: string, name: JsValue, price: JsValue, inStock: JsValue)

  datatype OrderLineRow = OrderLineRow(id: string, customerOrderId: string, productVariantId: string, quantity: JsValue)

  datatype WishlistRow = WishlistRow(id: string, userId: string, productVariantId: string)

  /** What a handler sends back: a status with a JSON body, a status with
      `{ error: message }`, or an empty 204. */
  datatype Reply<T> = Ok(status: int, body: T) | Error(status: int, message: string) | NoContent

  // ------------------------------------------------------------- identifiers

  /** One key column of a table, in row order. */
  function Ids<T>(rows: seq<T>, key: T -> string): (ids: seq<string>)
    ensures |ids| == |rows| && forall k :: 0 <= k < |rows| ==> ids[k] == key(rows[k])
  {
    seq(|rows|, k requires 0 <= k < |rows| => key(rows[k]))
  }

  function ProductIds(rows: seq<ProductRow>): seq<string> {
    Ids(rows, (r: ProductRow) => r.id)
  }

  function VariantIds(rows: seq<VariantRow>): seq<string> {
    Ids(rows, (r: VariantRow) => r.id)
  }

  /** The product ids the variants point at. */
  function VariantOwners(rows: seq<VariantRow>): seq<string> {
    Ids(rows, (r: VariantRow) => r.productId)
  }

  function OrderLineIds(rows: seq<OrderLineRow>): seq<string> {
    Ids(rows, (r: OrderLineRow) => r.id)
  }

  function WishlistIds(rows: seq<WishlistRow>): seq<string> {
    Ids(rows, (r: WishlistRow) => r.id)
  }

  predicate Unique(ids: seq<string>) {
    forall i, j :: 0 <= i < j < |ids| ==> ids[i] != ids[j]
  }

  /** The length of the longest id in `ids`. */
  function Longest(ids: seq<string>): (n: nat)
    ensures forall k :: 0 <= k < |ids| ==> |ids[k]| <= n
  {
    if ids == [] then 0
    else
      var m := Longest(ids[..|ids| - 1]);
      if |ids[|ids| - 1]| > m then |ids[|ids| - 1]| else m
  }

  /** An id the store hands out for a new row: one that differs from every id
      in `taken`. */
  function FreshId(taken: seq<string>): (id: string)
    ensures id !in taken
  {
    seq(Longest(taken) + 1, _ => 'x')
  }

  // ------------------------------------------------------------------ tables

  /** The variants of product `pid`, in table order. */
  function VariantsOf(rows: seq<VariantRow>, pid: string): seq<VariantRow> {
    if rows == [] then []
    else
      var last := rows[|rows| - 1];
      VariantsOf(rows[..|rows| - 1], pid) + (if last.productId == pid then [last] else [])
  }

  lemma {:induction false} VariantsOfSpec(rows: seq<VariantRow>, pid: string)
    ensures forall r :: r in VariantsOf(rows, pid) <==> r in rows && r.productId == pid
    decreases |rows|
  {
    if rows != [] {
      var prefix := rows[..|rows| - 1];
      VariantsOfSpec(prefix, pid);
      assert rows == prefix + [rows[|rows| - 1]];
    }
  }

  /** The rows left after deleting every row whose id is in `ids`. */
  function RemoveIds(rows: seq<VariantRow>, ids: set<string>): seq<VariantRow> {
    if rows == [] then []
    else
      var last := rows[|rows| - 1];
      RemoveIds(rows[..|rows| - 1], ids) + (if last.id in ids then [] else [last])
  }

  lemma {:induction false} RemoveIdsSpec(rows: seq<VariantRow>, ids: set<string>)
    ensures forall r :: r in RemoveIds(rows, ids) <==> r in rows && r.id !in ids
    decreases |rows|
  {
    if rows != [] {
      var prefix := rows[..|rows| - 1];
      RemoveIdsSpec(prefix, ids);
      assert rows == prefix + [rows[|rows| - 1]];
    }
  }

  /** Deleting no ids leaves the table as it is. */
  lemma {:induction false} RemoveNoIds(rows: seq<VariantRow>)
    ensures RemoveIds(rows, {}) == rows
    decreases |rows|
  {
    if rows != [] {
      RemoveNoIds(rows[..|rows| - 1]);
    }
  }

  /** Deleting one more id after a batch is deleting the larger batch. */
  lemma {:induction false} RemoveIdsTwice(rows: seq<VariantRow>, ids: set<string>, id: string)
    ensures RemoveIds(RemoveIds(rows, ids), {id}) == RemoveIds(rows, ids + {id})
    decreases |rows|
  {
    if rows != [] {
      var prefix := rows[..|rows| - 1];
      RemoveIdsTwice(prefix, ids, id);
      var kept := RemoveIds(prefix, ids);
      var last := rows[|rows| - 1];
      if last.id !in ids {
        assert RemoveIds(rows, ids) == kept + [last];
        assert (kept + [last])[..|kept|] == kept;
        assert RemoveIds(kept + [last], {id}) ==
               RemoveIds(kept, {id}) + (if last.id in {id} then [] else [last]);
      } else {
        assert last.id in ids + {id};
        assert RemoveIds(rows, ids) == kept;
      }
    }
  }

  /** The rows after an update by key: the row whose key is that of `row` is replaced by `row`. */
  function SetByKey<T>(rows: seq<T>, row: T, key: T -> string): (r: seq<T>)
    ensures |r| == |rows|
    ensures forall k :: 0 <= k < |rows| ==> r[k] == if key(rows[k]) == key(row) then row else rows[k]
  {
    seq(|rows|, k requires 0 <= k < |rows| => if key(rows[k]) == key(row) then row else rows[k])
  }

  /** `productVariant.update` by id. */
  function SetRow(rows: seq<VariantRow>, row: VariantRow): seq<VariantRow> {
    SetByKey(rows, row, (r: VariantRow) => r.id)
  }

  /** The variants that do not belong to product `pid`: what the cascade of a
      product delete leaves. */
  function WithoutProduct(rows: seq<VariantRow>, pid: string): seq<VariantRow> {
    if rows == [] then []
    else
      var last := rows[|rows| - 1];
      WithoutProduct(rows[..|rows| - 1], pid) + (if last.productId == pid then [] else [last])
  }

  lemma {:induction false} WithoutProductSpec(rows: seq<VariantRow>, pid: string)
    ensures forall r :: r in WithoutProduct(rows, pid) <==> r in rows && r.productId != pid
    decreases |rows|
  {
    if rows != [] {
      var prefix := rows[..|rows| - 1];
      WithoutProductSpec(prefix, pid);
      assert rows == prefix + [rows[|rows| - 1]];
    }
  }

  function RemoveProduct(rows: seq<ProductRow>, pid: string): seq<ProductRow> {
    if rows == [] then []
    else
      var last := rows[|rows| - 1];
      RemoveProduct(rows[..|rows| - 1], pid) + (if last.id == pid then [] else [last])
  }

  lemma {:induction false} RemoveProductSpec(rows: seq<ProductRow>, pid: string)
    ensures forall r :: r in RemoveProduct(rows, pid) <==> r in rows && r.id != pid
    decreases |rows|
  {
    if rows != [] {
      var prefix := rows[..|rows| - 1];
      RemoveProductSpec(prefix, pid);
      assert rows == prefix + [rows[|rows| - 1]];
    }
  }

  /** `findUnique` on products: the row with id `pid`, if any. */
  function FindProduct(rows: seq<ProductRow>, pid: string): (r: Option<ProductRow>)
    ensures r.Some? ==> r.value in rows && r.value.id == pid
    ensures r.None? <==> forall k :: 0 <= k < |rows| ==> rows[k].id != pid
  {
    if rows == [] then None
    else if rows[0].id == pid then Some(rows[0])
    else
      assert forall k :: 1 <= k < |rows| ==> rows[1..][k - 1] == rows[k];
      FindProduct(rows[1..], pid)
  }

  /** A product appended under a new id is the one found under that id. */
  lemma {:induction false} FindAppendedProduct(rows: seq<ProductRow>, row: ProductRow)
    requires forall k :: 0 <= k < |rows| ==> rows[k].id != row.id
    ensures FindProduct(rows + [row], row.id) == Some(row)
    decreases |rows|
  {
    if rows != [] {
      assert (rows + [row])[1..] == rows[1..] + [row];
      FindAppendedProduct(rows[1..], row);
    }
  }

  /** A product update: an undefined field in the data leaves the column as it is. */
  function Keep(stored: JsValue, given: JsValue): JsValue {
    if given.Undefined? then stored else given
  }

  function Overlay(stored: ProductData, patch: ProductData): ProductData {
    ProductData(Keep(stored.slug, patch.slug), Keep(stored.title, patch.title), Keep(stored.mainImage, patch.mainImage),
                Keep(stored.rating, patch.rating), Keep(stored.description, patch.description),
                Keep(stored.manufacturer, patch.manufacturer), Keep(stored.categoryId, patch.categoryId))
  }

  /** The products after updating the row with id `pid` by `patch`. */
  function UpdateProductRow(rows: seq<ProductRow>, pid: string, patch: ProductData): (r: seq<ProductRow>)
    ensures |r| == |rows|
    ensures forall k :: 0 <= k < |rows| ==>
              r[k] == if rows[k].id == pid then ProductRow(pid, Overlay(rows[k].data, patch)) else rows[k]
  {
    seq(|rows|, k requires 0 <= k < |rows| =>
      if rows[k].id == pid then ProductRow(pid, Overlay(rows[k].data, patch)) else rows[k])
  }

  /** After the update, looking the product up finds it with the patched data. */
  lemma {:induction false} FindUpdatedProduct(rows: seq<ProductRow>, pid: string, patch: ProductData)
    requires FindProduct(rows, pid).Some?
    ensures FindProduct(UpdateProductRow(rows, pid, patch), pid) ==
            Some(ProductRow(pid, Overlay(FindProduct(rows, pid).value.data, patch)))
    decreases |rows|
  {
    if rows[0].id != pid {
      assert UpdateProductRow(rows, pid, patch)[1..] == UpdateProductRow(rows[1..], pid, patch);
      FindUpdatedProduct(rows[1..], pid, patch);
    }
  }

  /** `findMany` on order lines by variant id. */
  function OrderLinesFor(lines: seq<OrderLineRow>, vid: string): (r: seq<OrderLineRow>)
    ensures forall l :: l in r <==> l in lines && l.productVariantId == vid
  {
    if lines == [] then []
    else
      var last := lines[|lines| - 1];
      assert lines == lines[..|lines| - 1] + [last];
      OrderLinesFor(lines[..|lines| - 1], vid) + (if last.productVariantId == vid then [last] else [])
  }

  /** `findMany` on wishlist items by variant id. */
  function WishlistFor(items: seq<WishlistRow>, vid: string): (r: seq<WishlistRow>)
    ensures forall w :: w in r <==> w in items && w.productVariantId == vid
  {
    if items == [] then []
    else
      var last := items[|items| - 1];
      assert items == items[..|items| - 1] + [last];
      WishlistFor(items[..|items| - 1], vid) + (if last.productVariantId == vid then [last] else [])
  }

  /** `findUnique` on order lines: the line with id `id`, if any. */
  function FindLine(lines: seq<OrderLineRow>, id: string): (r: Option<OrderLineRow>)
    ensures r.Some? ==> r.value in lines && r.value.id == id
    ensures r.None? <==> forall k :: 0 <= k < |lines| ==> lines[k].id != id
  {
    if lines == [] then None
    else if lines[0].id == id then Some(lines[0])
    else
      assert forall k :: 1 <= k < |lines| ==> lines[1..][k - 1] == lines[k];
      FindLine(lines[1..], id)
  }

  /** `customer_order_product.update` by id. */
  function SetLine(lines: seq<OrderLineRow>, line: OrderLineRow): seq<OrderLineRow> {
    SetByKey(lines, line, (r: OrderLineRow) => r.id)
  }

  /** The order lines left by `deleteMany({ where: { customerOrderId } })`. */
  function WithoutOrder(lines: seq<OrderLineRow>, orderId: string): seq<OrderLineRow> {
    if lines == [] then []
    else
      var last := lines[|lines| - 1];
      WithoutOrder(lines[..|lines| - 1], orderId) + (if last.customerOrderId == orderId then [] else [last])
  }

  // ------------------------------------------------------------- uniqueness

  lemma UniqueAppend(ids: seq<string>, more: seq<string>)
    requires Unique(ids) && Unique(more)
    requires forall k :: 0 <= k < |more| ==> more[k] !in ids
    ensures Unique(ids + more)
  {
    forall i, j | 0 <= i < j < |ids + more| ensures (ids + more)[i] != (ids + more)[j] {
      if i < |ids| && j >= |ids| {
        assert (ids + more)[j] == more[j - |ids|];
      }
    }
  }

  lemma {:induction false} RemoveIdsUnique(rows: seq<VariantRow>, ids: set<string>)
    requires Unique(VariantIds(rows))
    ensures Unique(VariantIds(RemoveIds(rows, ids)))
    decreases |rows|
  {
    if rows != [] {
      var prefix := rows[..|rows| - 1];
      var last := rows[|rows| - 1];
      assert VariantIds(prefix) == VariantIds(rows)[..|rows| - 1];
      RemoveIdsUnique(prefix, ids);
      RemoveIdsSpec(prefix, ids);
      var kept := RemoveIds(prefix, ids);
      forall k | 0 <= k < |kept| ensures kept[k].id != last.id {
        assert kept[k] in prefix;
        var j :| 0 <= j < |prefix| && prefix[j] == kept[k];
        assert VariantIds(rows)[j] == kept[k].id;
      }
      if last.id !in ids {
        assert VariantIds(kept + [last]) == VariantIds(kept) + [last.id];
        UniqueAppend(VariantIds(kept), [last.id]);
      }
    }
  }

  lemma {:induction false} WithoutProductUnique(rows: seq<VariantRow>, pid: string)
    requires Unique(VariantIds(rows))
    ensures Unique(VariantIds(WithoutProduct(rows, pid)))
    decreases |rows|
  {
    if rows != [] {
      var prefix := rows[..|rows| - 1];
      var last := rows[|rows| - 1];
      assert VariantIds(prefix) == VariantIds(rows)[..|rows| - 1];
      WithoutProductUnique(prefix, pid);
      WithoutProductSpec(prefix, pid);
      var kept := WithoutProduct(prefix, pid);
      forall k | 0 <= k < |kept| ensures kept[k].id != last.id {
        assert kept[k] in prefix;
        var j :| 0 <= j < |prefix| && prefix[j] == kept[k];
        assert VariantIds(rows)[j] == kept[k].id;
      }
      if last.productId != pid {
        assert VariantIds(kept + [last]) == VariantIds(kept) + [last.id];
        UniqueAppend(VariantIds(kept), [last.id]);
      }
    }
  }

  lemma {:induction false} RemoveProductUnique(rows: seq<ProductRow>, pid: string)
    requires Unique(ProductIds(rows))
    ensures Unique(ProductIds(RemoveProduct(rows, pid)))
    decreases |rows|
  {
    if rows != [] {
      var prefix := rows[..|rows| - 1];
      var last := rows[|rows| - 1];
      assert ProductIds(prefix) == ProductIds(rows)[..|rows| - 1];
      RemoveProductUnique(prefix, pid);
      RemoveProductSpec(prefix, pid);
      var kept := RemoveProduct(prefix, pid);
      forall k | 0 <= k < |kept| ensures kept[k].id != last.id {
        assert kept[k] in prefix;
        var j :| 0 <= j < |prefix| && prefix[j] == kept[k];
        assert ProductIds(rows)[j] == kept[k].id;
      }
      if last.id != pid {
        assert ProductIds(kept + [last]) == ProductIds(kept) + [last.id];
        UniqueAppend(ProductIds(kept), [last.id]);
      }
    }
  }

  lemma {:induction false} WithoutOrderUnique(lines: seq<OrderLineRow>, orderId: string)
    requires Unique(OrderLineIds(lines))
    ensures Unique(OrderLineIds(WithoutOrder(lines, orderId)))
    decreases |lines|
  {
    if lines != [] {
      var prefix := lines[..|lines| - 1];
      var last := lines[|lines| - 1];
      assert OrderLineIds(prefix) == OrderLineIds(lines)[..|lines| - 1];
      WithoutOrderUnique(prefix, orderId);
      WithoutOrderMembers(prefix, orderId);
      var kept := WithoutOrder(prefix, orderId);
      forall k | 0 <= k < |kept| ensures kept[k].id != last.id {
        assert kept[k] in prefix;
        var j :| 0 <= j < |prefix| && prefix[j] == kept[k];
        assert OrderLineIds(lines)[j] == kept[k].id;
      }
      if last.customerOrderId != orderId {
        assert OrderLineIds(kept + [last]) == OrderLineIds(kept) + [last.id];
        UniqueAppend(OrderLineIds(kept), [last.id]);
      }
    }
  }

  /** Deleting the lines of an order removes exactly the lines of that order. */
  lemma {:induction false} WithoutOrderMembers(lines: seq<OrderLineRow>, orderId: string)
    ensures forall l :: l in WithoutOrder(lines, orderId) <==> l in lines && l.customerOrderId != orderId
    decreases |lines|
  {
    if lines != [] {
      var prefix := lines[..|lines| - 1];
      WithoutOrderMembers(prefix, orderId);
      assert lines == prefix + [lines[|lines| - 1]];
    }
  }

  /** The store. Its tables are the state every write handler changes. */
  class Database {
    var products: seq<ProductRow>
    var variants: seq<VariantRow>
    var orderLines: seq<OrderLineRow>
    var wishlist: seq<WishlistRow>

    /** Primary keys are unique in every table. */
    predicate Valid()
      reads this
    {
      Unique(ProductIds(products)) && Unique(VariantIds(variants)) && Unique(OrderLineIds(orderLines)) &&
      Unique(WishlistIds(wishlist))
    }

    constructor ()
      ensures products == [] && variants == [] && orderLines == [] && wishlist == []
      ensures Valid()
    {
      products := [];
      variants := [];
      orderLines := [];
      wishlist := [];
    }

    /** `prisma.product.create` */
    method InsertProduct(row: ProductRow)
      modifies this
      ensures products == old(products) + [row]
      ensures variants == old(variants) && orderLines == old(orderLines) && wishlist == old(wishlist)
    {
      products := products + [row];
    }

    /** `prisma.product.update({ where: { id }, data })` */
    method PatchProduct(pid: string, patch: ProductData)
      modifies this
      ensures products == UpdateProductRow(old(products), pid, patch)
      ensures variants == old(variants) && orderLines == old(orderLines) && wishlist == old(wishlist)
    {
      products := UpdateProductRow(products, pid, patch);
    }

    /** `prisma.product.delete({ where: { id } })`; the variants of the
        product go with it (the relation cascades on delete). */
    method DeleteProductCascade(pid: string)
      modifies this
      ensures products == RemoveProduct(old(products), pid) && variants == WithoutProduct(old(variants), pid)
      ensures orderLines == old(orderLines) && wishlist == old(wishlist)
    {
      products := RemoveProduct(products, pid);
      variants := WithoutProduct(variants, pid);
    }

    /** `prisma.productVariant.createMany` and `create` */
    method InsertVariants(rows: seq<VariantRow>)
      modifies this
      ensures variants == old(variants) + rows
      ensures products == old(products) && orderLines == old(orderLines) && wishlist == old(wishlist)
    {
      variants := variants + rows;
    }

    /** `prisma.productVariant.update({ where: { id: row.id }, data })` */
    method UpdateVariant(row: VariantRow)
      modifies this
      ensures variants == SetRow(old(variants), row)
      ensures products == old(products) && orderLines == old(orderLines) && wishlist == old(wishlist)
    {
      variants := SetRow(variants, row);
    }

    /** `prisma.customer_order_product.deleteMany({ where: { customerOrderId } })` */
    method DeleteOrderLines(orderId: string)
      modifies this
      ensures orderLines == WithoutOrder(old(orderLines), orderId)
      ensures products == old(products) && variants == old(variants) && wishlist == old(wishlist)
    {
      orderLines := WithoutOrder(orderLines, orderId);
    }

    /** `prisma.customer_order_product.update({ where: { id: line.id }, data })` */
    method UpdateOrderLine(line: OrderLineRow)
      modifies this
      ensures orderLines == SetLine(old(orderLines), line)
      ensures products == old(products) && variants == old(variants) && wishlist == old(wishlist)
    {
      orderLines := SetLine(orderLines, line);
    }

    /** `prisma.productVariant.delete({ where: { id } })` */
    method DeleteVariant(id: string)
      modifies this
      ensures variants == RemoveIds(old(variants), {id})
      ensures products == old(products) && orderLines == old(orderLines) && wishlist == old(wishlist)
    {
      variants := RemoveIds(variants, {id});
    }
  }
}
