/** The rules `createProduct` and `updateProduct` apply to the submitted
    `variants` list: the validation both handlers run first, and the
    reconciliation `updateProduct` performs against the variants already
    stored for the product (delete the unsubmitted ones, then overwrite or
    create one variant per submitted element, in list order). */
module ProductVariants {
  import opened JsSemantics
  import opened Store

  /** One element of the submitted `variants` array: its `id`, `name`, `price`
      and `inStock` properties. An element that is a number, string or boolean
      reads as all four undefined. */
  datatype VariantInput = VariantInput(id: JsValue, name: JsValue, price: JsValue, inStock: JsValue)

  /** An array element: an object, or `null`/`undefined`, on which reading
      `.name` throws. */
  datatype VariantElement = Missing | Element(input: VariantInput)

  /** The body's `variants` property: anything that is not an array, or an array. */
  datatype VariantsField = NotAnArray | AnArray(elements: seq<VariantElement>)

  /** The outcome of validating one element or the whole list: it passes, it
      is refused with a 400 message, or the check itself throws. */
  datatype Check = Pass | Reject(message: string) | Throw

  // -------------------------------------------------------------- validation

  /** The three tests on one element, in source order: a falsy `name`, then a
      `price` that is undefined or null, then an `inStock` that is undefined or
      null. A price of 0 and an `inStock` of false pass. */
  function CheckElement(e: VariantElement): (c: Check)
    ensures c == Throw <==> e.Missing?
    ensures c == Pass <==> e.Element? && Truthy(e.input.name) && !Nullish(e.input.price) && !Nullish(e.input.inStock)
    ensures e.Element? && !Truthy(e.input.name) ==> c == Reject("Name field is required in variant")
    ensures e.Element? && Truthy(e.input.name) && Nullish(e.input.price) ==> c == Reject("Price field is required in variant")
    ensures e.Element? && Truthy(e.input.name) && !Nullish(e.input.price) && Nullish(e.input.inStock) ==>
              c == Reject("inStock field is required in variant")
  {
    match e
    case Missing => Throw
    case Element(v) =>
      if !Truthy(v.name) then Reject("Name field is required in variant")
      else if Nullish(v.price) then Reject("Price field is required in variant")
      else if Nullish(v.inStock) then Reject("inStock field is required in variant")
      else Pass
  }

  /** The outcome of the first element that does not pass, in list order. */
  function FirstFailure(es: seq<VariantElement>): Check {
    if es == [] then Pass
    else if CheckElement(es[0]) != Pass then CheckElement(es[0])
    else FirstFailure(es[1..])
  }

  /** Validation of the whole field: a missing, non-array or empty list is
      refused before any element is looked at. */
  function Validation(field: VariantsField): Check {
    match field
    case NotAnArray => Reject("Product variants are required")
    case AnArray(es) => if |es| == 0 then Reject("Product variants are required") else FirstFailure(es)
  }

  /** The list passes exactly when it is a non-empty array whose every element passes. */
  lemma {:induction false} FirstFailurePass(es: seq<VariantElement>)
    ensures FirstFailure(es) == Pass <==> forall k :: 0 <= k < |es| ==> CheckElement(es[k]) == Pass
    decreases |es|
  {
    if es != [] {
      FirstFailurePass(es[1..]);
      assert forall k :: 1 <= k < |es| ==> es[1..][k - 1] == es[k];
    }
  }

  /** The first failing element, in list order, decides the outcome. */
  lemma {:induction false} FirstFailureAt(es: seq<VariantElement>, k: nat)
    requires k < |es| && CheckElement(es[k]) != Pass
    requires forall j :: 0 <= j < k ==> CheckElement(es[j]) == Pass
    ensures FirstFailure(es) == CheckElement(es[k])
    decreases k
  {
    if k > 0 {
      assert CheckElement(es[0]) == Pass;
      assert forall j :: 0 <= j < k - 1 ==> es[1..][j] == es[j + 1];
      FirstFailureAt(es[1..], k - 1);
    }
  }

  /** A non-empty array passes exactly when every element passes; anything
      else is refused with "Product variants are required" before any
      element is read. */
  lemma ValidationPass(field: VariantsField)
    ensures Validation(field) == Pass <==>
              field.AnArray? && |field.elements| > 0 &&
              forall k :: 0 <= k < |field.elements| ==> CheckElement(field.elements[k]) == Pass
    ensures field.NotAnArray? || |field.elements| == 0 ==> Validation(field) == Reject("Product variants are required")
  {
    if field.AnArray? {
      FirstFailurePass(field.elements);
    }
  }

  /** The validation loop shared by `createProduct` and `updateProduct`. */
  method ValidateVariants(field: VariantsField) returns (outcome: Check)
    ensures outcome == Validation(field)
  {
    if field.NotAnArray? || |field.elements| == 0 {
      return Reject("Product variants are required");
    }
    var es := field.elements;
    for i := 0 to |es|
      invariant FirstFailure(es) == FirstFailure(es[i..])
    {
      var element := es[i];
      if element.Missing? {
        return Throw;
      }
      if !Truthy(element.input.name) {
        return Reject("Name field is required in variant");
      }
      if Nullish(element.input.price) {
        return Reject("Price field is required in variant");
      }
      if Nullish(element.input.inStock) {
        return Reject("inStock field is required in variant");
      }
      assert es[i..][1..] == es[i + 1..];
    }
    return Pass;
  }

  /** The submitted variants, once validation has passed. */
  function Inputs(es: seq<VariantElement>): (inputs: seq<VariantInput>)
    ensures |inputs| == |es|
    ensures forall k :: 0 <= k < |es| && es[k].Element? ==> inputs[k] == es[k].input
  {
    seq(|es|, k requires 0 <= k < |es| =>
      match es[k]
      case Element(v) => v
      case Missing => VariantInput(Undefined, Undefined, Undefined, Undefined))
  }

  // ---------------------------------------------------------------- creation

  /** The rows `createMany` adds for a new product `pid`: one per submitted
      variant, in order, each with a fresh id. */
  function NewVariants(pid: string, inputs: seq<VariantInput>, taken: seq<string>): (rows: seq<VariantRow>)
    ensures |rows| == |inputs|
    ensures forall k :: 0 <= k < |rows| ==>
              rows[k].productId == pid && rows[k].id !in taken &&
              rows[k].name == inputs[k].name && rows[k].price == inputs[k].price && rows[k].inStock == inputs[k].inStock
    ensures Unique(VariantIds(rows))
  {
    if inputs == [] then []
    else
      var before := NewVariants(pid, inputs[..|inputs| - 1], taken);
      var v := inputs[|inputs| - 1];
      var id := FreshId(taken + VariantIds(before));
      assert forall k :: 0 <= k < |before| ==> before[k].id != id by {
        assert forall k :: 0 <= k < |before| ==> VariantIds(before)[k] in taken + VariantIds(before);
      }
      before + [VariantRow(id, pid, v.name, v.price, v.inStock)]
  }

  // ---------------------------------------------------------- reconciliation

  /** `variants.some((v) => v.id === id)` */
  predicate Submitted(inputs: seq<VariantInput>, id: string) {
    exists k :: 0 <= k < |inputs| && inputs[k].id == Str(id)
  }

  /** The string ids among the submitted variants. */
  function SubmittedIds(inputs: seq<VariantInput>): (ids: seq<string>)
    ensures forall k :: 0 <= k < |inputs| && inputs[k].id.Str? ==> inputs[k].id.s in ids
  {
    if inputs == [] then []
    else
      var last := |inputs| - 1;
      assert forall k :: 0 <= k < last ==> inputs[..last][k] == inputs[k];
      SubmittedIds(inputs[..last]) + (if inputs[last].id.Str? then [inputs[last].id.s] else [])
  }

  /** The ids the delete loop removes: those of the existing variants that no
      submitted variant names. */
  function DeletedIds(existing: seq<VariantRow>, inputs: seq<VariantInput>): set<string> {
    if existing == [] then {}
    else
      var last := existing[|existing| - 1];
      DeletedIds(existing[..|existing| - 1], inputs) + (if Submitted(inputs, last.id) then {} else {last.id})
  }

  lemma {:induction false} DeletedIdsSpec(existing: seq<VariantRow>, inputs: seq<VariantInput>, id: string)
    ensures id in DeletedIds(existing, inputs) <==>
              !Submitted(inputs, id) && exists k :: 0 <= k < |existing| && existing[k].id == id
    decreases |existing|
  {
    if existing != [] {
      var last := |existing| - 1;
      DeletedIdsSpec(existing[..last], inputs, id);
      assert forall k :: 0 <= k < last ==> existing[..last][k] == existing[k];
    }
  }

  /** One more pass of the delete loop adds the id of that existing variant
      when no submitted variant names it. */
  lemma DeletedIdsStep(existing: seq<VariantRow>, inputs: seq<VariantInput>, i: nat)
    requires i < |existing|
    ensures DeletedIds(existing[..i + 1], inputs) ==
            DeletedIds(existing[..i], inputs) + (if Submitted(inputs, existing[i].id) then {} else {existing[i].id})
  {
    assert existing[..i + 1][..i] == existing[..i];
  }

  /** The variant table after the delete loop of `updateProduct` for product `pid`. */
  function AfterDeletes(rows: seq<VariantRow>, pid: string, inputs: seq<VariantInput>): seq<VariantRow> {
    RemoveIds(rows, DeletedIds(VariantsOf(rows, pid), inputs))
  }

  /** A row survives the delete loop unless it belongs to the product and no
      submitted variant names it; with unique ids, no other row is touched. */
  lemma AfterDeletesSpec(rows: seq<VariantRow>, pid: string, inputs: seq<VariantInput>, r: VariantRow)
    requires r in rows
    ensures r.productId == pid ==> (r in AfterDeletes(rows, pid, inputs) <==> Submitted(inputs, r.id))
    ensures Unique(VariantIds(rows)) && r.productId != pid ==> r in AfterDeletes(rows, pid, inputs)
  {
    var existing := VariantsOf(rows, pid);
    RemoveIdsSpec(rows, DeletedIds(existing, inputs));
    DeletedIdsSpec(existing, inputs, r.id);
    VariantsOfSpec(rows, pid);
    if r.productId == pid {
      assert r in existing;
    } else if Unique(VariantIds(rows)) {
      forall k | 0 <= k < |existing| ensures existing[k].id != r.id {
        var s := existing[k];
        assert s in rows && s.productId == pid;
        var i :| 0 <= i < |rows| && rows[i] == s;
        var j :| 0 <= j < |rows| && rows[j] == r;
        assert VariantIds(rows)[i] == s.id && VariantIds(rows)[j] == r.id;
      }
    }
  }

  /** Rows whose id is submitted are never deleted. */
  lemma AfterDeletesKeepsSubmitted(rows: seq<VariantRow>, pid: string, inputs: seq<VariantInput>, r: VariantRow)
    requires r in rows && Submitted(inputs, r.id)
    ensures r in AfterDeletes(rows, pid, inputs)
  {
    RemoveIdsSpec(rows, DeletedIds(VariantsOf(rows, pid), inputs));
    DeletedIdsSpec(VariantsOf(rows, pid), inputs, r.id);
  }

  /** Every row the delete loop keeps was there before. */
  lemma AfterDeletesSubset(rows: seq<VariantRow>, pid: string, inputs: seq<VariantInput>, r: VariantRow)
    requires r in AfterDeletes(rows, pid, inputs)
    ensures r in rows
    ensures r.productId == pid ==> Submitted(inputs, r.id)
  {
    var existing := VariantsOf(rows, pid);
    RemoveIdsSpec(rows, DeletedIds(existing, inputs));
    DeletedIdsSpec(existing, inputs, r.id);
    VariantsOfSpec(rows, pid);
    if r.productId == pid {
      assert r in existing;
    }
  }

  predicate HasVariant(rows: seq<VariantRow>, id: string) {
    exists k :: 0 <= k < |rows| && rows[k].id == id
  }

  /** The table after the update or create call for one submitted variant.
      A truthy id must name a stored row, or the call throws. */
  datatype Upserted = Upserted(rows: seq<VariantRow>, failed: bool)

  function UpsertStep(rows: seq<VariantRow>, v: VariantInput, pid: string, taken: seq<string>): Upserted {
    if Truthy(v.id) then
      if v.id.Str? && HasVariant(rows, v.id.s) then
        Upserted(SetRow(rows, VariantRow(v.id.s, pid, v.name, v.price, v.inStock)), false)
      else Upserted(rows, true)
    else
      Upserted(rows + [VariantRow(FreshId(taken + VariantIds(rows)), pid, v.name, v.price, v.inStock)], false)
  }

  /** The update-or-create loop over the submitted variants; it stops at the
      first call that throws, keeping the writes made before it. */
  function UpsertAll(start: seq<VariantRow>, inputs: seq<VariantInput>, pid: string, taken: seq<string>): Upserted {
    if inputs == [] then Upserted(start, false)
    else
      var before := UpsertAll(start, inputs[..|inputs| - 1], pid, taken);
      if before.failed then before else UpsertStep(before.rows, inputs[|inputs| - 1], pid, taken)
  }

  /** The whole reconciliation: delete, then update or create. New ids avoid
      every id stored at the start and every submitted id. */
  function Reconciled(rows: seq<VariantRow>, pid: string, inputs: seq<VariantInput>): Upserted {
    UpsertAll(AfterDeletes(rows, pid, inputs), inputs, pid, VariantIds(rows) + SubmittedIds(inputs))
  }

  /** The number of submitted variants without a truthy id: the ones created. */
  function NewCount(inputs: seq<VariantInput>): nat {
    if inputs == [] then 0
    else NewCount(inputs[..|inputs| - 1]) + (if Truthy(inputs[|inputs| - 1].id) then 0 else 1)
  }

  /** The last submitted variant whose truthy id is `id`. */
  function LastWith(inputs: seq<VariantInput>, id: string): Option<VariantInput> {
    if inputs == [] then None
    else
      var v := inputs[|inputs| - 1];
      if Truthy(v.id) && v.id == Str(id) then Some(v) else LastWith(inputs[..|inputs| - 1], id)
  }

  /** A stored row after the update calls: the last submitted variant that
      names it overwrites its fields and moves it to product `pid`. */
  function Applied(r: VariantRow, inputs: seq<VariantInput>, pid: string): VariantRow {
    match LastWith(inputs, r.id)
    case None => r
    case Some(v) => VariantRow(r.id, pid, v.name, v.price, v.inStock)
  }

  /** Of several submitted variants with the same id, the last one wins. */
  lemma {:induction false} LastWithSpec(inputs: seq<VariantInput>, j: nat)
    requires j < |inputs| && Truthy(inputs[j].id) && inputs[j].id.Str?
    requires forall k :: j < k < |inputs| ==> inputs[k].id != inputs[j].id
    ensures LastWith(inputs, inputs[j].id.s) == Some(inputs[j])
    decreases |inputs|
  {
    var last := |inputs| - 1;
    if j < last {
      assert forall k :: j < k < last ==> inputs[..last][k] == inputs[k];
      LastWithSpec(inputs[..last], j);
    }
  }

  /** Only a submitted id can select a submitted variant. */
  lemma {:induction false} LastWithSubmitted(inputs: seq<VariantInput>, id: string)
    ensures LastWith(inputs, id).Some? ==> Submitted(inputs, id)
    decreases |inputs|
  {
    if inputs != [] {
      var last := |inputs| - 1;
      LastWithSubmitted(inputs[..last], id);
      if LastWith(inputs[..last], id).Some? && !(Truthy(inputs[last].id) && inputs[last].id == Str(id)) {
        var k :| 0 <= k < last && inputs[..last][k].id == Str(id);
        assert inputs[k].id == Str(id);
      }
    }
  }

  /** Every submitted string id is in `taken`. */
  predicate CoversSubmitted(inputs: seq<VariantInput>, taken: seq<string>) {
    forall k :: 0 <= k < |inputs| && inputs[k].id.Str? ==> inputs[k].id.s in taken
  }

  lemma CoversPrefix(inputs: seq<VariantInput>, taken: seq<string>, n: nat)
    requires n <= |inputs| && CoversSubmitted(inputs, taken)
    ensures CoversSubmitted(inputs[..n], taken)
  {
    assert forall k :: 0 <= k < n ==> inputs[..n][k] == inputs[k];
  }

  /** The stored rows keep their positions and ids; each becomes `Applied` of
      itself. Created rows come after them. */
  lemma {:induction false} UpsertKept(start: seq<VariantRow>, inputs: seq<VariantInput>, pid: string, taken: seq<string>)
    requires CoversSubmitted(inputs, taken)
    ensures var u := UpsertAll(start, inputs, pid, taken);
            !u.failed ==> |u.rows| == |start| + NewCount(inputs) &&
                          forall k :: 0 <= k < |start| ==> u.rows[k] == Applied(start[k], inputs, pid)
    decreases |inputs|
  {
    if inputs != [] {
      var last := |inputs| - 1;
      var prefix := inputs[..last];
      CoversPrefix(inputs, taken, last);
      UpsertKept(start, prefix, pid, taken);
      var before := UpsertAll(start, prefix, pid, taken);
      var v := inputs[last];
      if !before.failed {
        forall k | 0 <= k < |start|
          ensures LastWith(inputs, start[k].id) ==
                  if Truthy(v.id) && v.id == Str(start[k].id) then Some(v) else LastWith(prefix, start[k].id)
        {
        }
        if Truthy(v.id) && v.id.Str? && HasVariant(before.rows, v.id.s) {
          var row := VariantRow(v.id.s, pid, v.name, v.price, v.inStock);
          forall k | 0 <= k < |start| ensures SetRow(before.rows, row)[k] == Applied(start[k], inputs, pid) {
            assert before.rows[k] == Applied(start[k], prefix, pid);
          }
        }
      }
    }
  }

  /** Every row after the stored ones was created by this loop: it belongs to
      `pid` and its id is not in `taken`. */
  lemma {:induction false} UpsertTail(start: seq<VariantRow>, inputs: seq<VariantInput>, pid: string, taken: seq<string>)
    requires CoversSubmitted(inputs, taken)
    ensures var u := UpsertAll(start, inputs, pid, taken);
            !u.failed ==> forall k :: |start| <= k < |u.rows| ==> u.rows[k].productId == pid && u.rows[k].id !in taken
    decreases |inputs|
  {
    if inputs != [] {
      var last := |inputs| - 1;
      var prefix := inputs[..last];
      CoversPrefix(inputs, taken, last);
      UpsertTail(start, prefix, pid, taken);
      UpsertKept(start, prefix, pid, taken);
      var before := UpsertAll(start, prefix, pid, taken);
      var v := inputs[last];
      if !before.failed && Truthy(v.id) && v.id.Str? && HasVariant(before.rows, v.id.s) {
        assert v.id.s in taken;
      }
    }
  }

  /** One update-or-create call leaves a row whose id is not in `taken` where it was. */
  lemma UpsertStepKeeps(rows: seq<VariantRow>, v: VariantInput, pid: string, taken: seq<string>, k: nat)
    requires k < |rows| && rows[k].id !in taken
    requires v.id.Str? ==> v.id.s in taken
    ensures var u := UpsertStep(rows, v, pid, taken);
            !u.failed ==> k < |u.rows| && u.rows[k] == rows[k]
  {
  }

  /** A call for a variant without a truthy id appends one row, with an id not in `taken`. */
  lemma UpsertStepCreates(rows: seq<VariantRow>, v: VariantInput, pid: string, taken: seq<string>)
    requires !Truthy(v.id)
    ensures var u := UpsertStep(rows, v, pid, taken);
            !u.failed && |u.rows| == |rows| + 1 && u.rows[..|rows|] == rows &&
            u.rows[|rows|].id !in taken &&
            u.rows[|rows|] == VariantRow(u.rows[|rows|].id, pid, v.name, v.price, v.inStock)
  {
    var id := FreshId(taken + VariantIds(rows));
    assert id !in taken + VariantIds(rows);
  }

  /** The variant submitted without an id at position `i` is created at
      position |start| + (the number created before it), with the submitted
      fields, product `pid`, and an id no one else holds. */
  lemma {:induction false} UpsertCreated(start: seq<VariantRow>, inputs: seq<VariantInput>, pid: string,
                                         taken: seq<string>, i: nat)
    requires CoversSubmitted(inputs, taken)
    requires i < |inputs| && !Truthy(inputs[i].id)
    ensures var u := UpsertAll(start, inputs, pid, taken);
            var k := |start| + NewCount(inputs[..i]);
            !u.failed ==> k < |u.rows| && u.rows[k].id !in taken &&
                          u.rows[k] == VariantRow(u.rows[k].id, pid, inputs[i].name, inputs[i].price, inputs[i].inStock)
    decreases |inputs|
  {
    var last := |inputs| - 1;
    var prefix := inputs[..last];
    CoversPrefix(inputs, taken, last);
    var before := UpsertAll(start, prefix, pid, taken);
    if !before.failed {
      var k := |start| + NewCount(inputs[..i]);
      if i < last {
        assert prefix[..i] == inputs[..i];
        UpsertCreated(start, prefix, pid, taken, i);
        UpsertStepKeeps(before.rows, inputs[last], pid, taken, k);
      } else {
        assert inputs[..i] == prefix;
        UpsertKept(start, prefix, pid, taken);
        UpsertStepCreates(before.rows, inputs[last], pid, taken);
      }
    }
  }

  /** The loop succeeds exactly when every truthy submitted id is a string
      naming a stored row. */
  lemma {:induction false} UpsertSucceeds(start: seq<VariantRow>, inputs: seq<VariantInput>, pid: string, taken: seq<string>)
    requires CoversSubmitted(inputs, taken)
    ensures !UpsertAll(start, inputs, pid, taken).failed <==>
              forall k :: 0 <= k < |inputs| && Truthy(inputs[k].id) ==> inputs[k].id.Str? && HasVariant(start, inputs[k].id.s)
    decreases |inputs|
  {
    if inputs != [] {
      var last := |inputs| - 1;
      var prefix := inputs[..last];
      CoversPrefix(inputs, taken, last);
      UpsertSucceeds(start, prefix, pid, taken);
      assert forall k :: 0 <= k < last ==> prefix[k] == inputs[k];
      var before := UpsertAll(start, prefix, pid, taken);
      var v := inputs[last];
      if !before.failed && Truthy(v.id) && v.id.Str? {
        assert v.id.s in taken;
        UpsertKept(start, prefix, pid, taken);
        UpsertTail(start, prefix, pid, taken);
        HasVariantKept(start, before.rows, prefix, pid, taken, v.id.s);
      }
    }
  }

  /** A submitted id names a row after some update calls exactly when it
      named a stored row. */
  lemma HasVariantKept(start: seq<VariantRow>, rows: seq<VariantRow>, inputs: seq<VariantInput>, pid: string,
                       taken: seq<string>, id: string)
    requires id in taken && |rows| >= |start|
    requires forall k :: 0 <= k < |start| ==> rows[k] == Applied(start[k], inputs, pid)
    requires forall k :: |start| <= k < |rows| ==> rows[k].id !in taken
    ensures HasVariant(rows, id) <==> HasVariant(start, id)
  {
    if HasVariant(rows, id) {
      var k :| 0 <= k < |rows| && rows[k].id == id;
      assert rows[k].id == start[k].id;
    }
    if HasVariant(start, id) {
      var k :| 0 <= k < |start| && start[k].id == id;
      assert rows[k].id == id;
    }
  }

  /** Once a call has thrown, the later submitted variants change nothing. */
  lemma {:induction false} UpsertFailedStays(start: seq<VariantRow>, inputs: seq<VariantInput>, pid: string,
                                             taken: seq<string>, n: nat)
    requires n <= |inputs| && UpsertAll(start, inputs[..n], pid, taken).failed
    ensures UpsertAll(start, inputs, pid, taken) == UpsertAll(start, inputs[..n], pid, taken)
    decreases |inputs|
  {
    if n < |inputs| {
      var last := |inputs| - 1;
      assert inputs[..last][..n] == inputs[..n];
      UpsertFailedStays(start, inputs[..last], pid, taken, n);
    } else {
      assert inputs[..n] == inputs;
    }
  }

  /** A submitted variant with a truthy string id is found by `LastWith`. */
  lemma {:induction false} LastWithFound(inputs: seq<VariantInput>, i: nat)
    requires i < |inputs| && Truthy(inputs[i].id) && inputs[i].id.Str?
    ensures LastWith(inputs, inputs[i].id.s).Some?
    decreases |inputs|
  {
    var last := |inputs| - 1;
    if i < last && !(Truthy(inputs[last].id) && inputs[last].id == inputs[i].id) {
      assert inputs[..last][i] == inputs[i];
      LastWithFound(inputs[..last], i);
    }
  }

  // ------------------------------------------- properties of reconciliation

  /** The ids a reconciliation must not hand out: the stored and the submitted ones. */
  function Taken(rows: seq<VariantRow>, inputs: seq<VariantInput>): seq<string> {
    VariantIds(rows) + SubmittedIds(inputs)
  }

  lemma TakenCovers(rows: seq<VariantRow>, inputs: seq<VariantInput>)
    ensures CoversSubmitted(inputs, Taken(rows, inputs))
    ensures forall r :: r in rows ==> r.id in Taken(rows, inputs)
  {
    forall r | r in rows ensures r.id in Taken(rows, inputs) {
      var j :| 0 <= j < |rows| && rows[j] == r;
      assert VariantIds(rows)[j] == r.id;
    }
  }

  /** The update fails (500, with earlier writes kept) exactly when some
      submitted variant has a truthy id that is not a string naming a stored variant. */
  lemma ReconcileSucceeds(rows: seq<VariantRow>, pid: string, inputs: seq<VariantInput>)
    ensures !Reconciled(rows, pid, inputs).failed <==>
              forall k :: 0 <= k < |inputs| && Truthy(inputs[k].id) ==>
                inputs[k].id.Str? && HasVariant(rows, inputs[k].id.s)
  {
    var a := AfterDeletes(rows, pid, inputs);
    TakenCovers(rows, inputs);
    UpsertSucceeds(a, inputs, pid, Taken(rows, inputs));
    forall k | 0 <= k < |inputs| && Truthy(inputs[k].id) && inputs[k].id.Str?
      ensures HasVariant(a, inputs[k].id.s) <==> HasVariant(rows, inputs[k].id.s)
    {
      var s := inputs[k].id.s;
      if HasVariant(rows, s) {
        var j :| 0 <= j < |rows| && rows[j].id == s;
        AfterDeletesKeepsSubmitted(rows, pid, inputs, rows[j]);
        var m :| 0 <= m < |a| && a[m] == rows[j];
      }
      if HasVariant(a, s) {
        var j :| 0 <= j < |a| && a[j].id == s;
        AfterDeletesSubset(rows, pid, inputs, a[j]);
        var m :| 0 <= m < |rows| && rows[m] == a[j];
      }
    }
  }

  /** Every stored variant of the product that no submitted variant names is
      gone: no row keeps its id. */
  lemma ReconcileDeletes(rows: seq<VariantRow>, pid: string, inputs: seq<VariantInput>, r: VariantRow)
    requires r in rows && r.productId == pid && !Submitted(inputs, r.id)
    ensures var u := Reconciled(rows, pid, inputs);
            !u.failed ==> forall k :: 0 <= k < |u.rows| ==> u.rows[k].id != r.id
  {
    var a := AfterDeletes(rows, pid, inputs);
    var taken := Taken(rows, inputs);
    var u := Reconciled(rows, pid, inputs);
    TakenCovers(rows, inputs);
    UpsertKept(a, inputs, pid, taken);
    UpsertTail(a, inputs, pid, taken);
    if !u.failed {
      forall k | 0 <= k < |u.rows| ensures u.rows[k].id != r.id {
        if k < |a| {
          assert u.rows[k].id == a[k].id;
          AfterDeletesSubset(rows, pid, inputs, a[k]);
          if a[k].id == r.id {
            AfterDeletesSpec(rows, pid, inputs, r);
            RemoveIdsSpec(rows, DeletedIds(VariantsOf(rows, pid), inputs));
            assert a[k] in a;
          }
        }
      }
    }
  }

  /** Each submitted variant with a truthy id ends up as a row with that id,
      belonging to the product, carrying the fields of the last submitted
      variant with that id. */
  lemma ReconcileUpdates(rows: seq<VariantRow>, pid: string, inputs: seq<VariantInput>, i: nat)
    requires i < |inputs| && Truthy(inputs[i].id)
    ensures var u := Reconciled(rows, pid, inputs);
            !u.failed ==>
              (inputs[i].id.Str? && LastWith(inputs, inputs[i].id.s).Some? &&
               var w := LastWith(inputs, inputs[i].id.s).value;
               exists k :: 0 <= k < |u.rows| && u.rows[k] == VariantRow(inputs[i].id.s, pid, w.name, w.price, w.inStock))
  {
    var a := AfterDeletes(rows, pid, inputs);
    var taken := Taken(rows, inputs);
    var u := Reconciled(rows, pid, inputs);
    if !u.failed {
      ReconcileSucceeds(rows, pid, inputs);
      var s := inputs[i].id.s;
      LastWithFound(inputs, i);
      var j :| 0 <= j < |rows| && rows[j].id == s;
      AfterDeletesKeepsSubmitted(rows, pid, inputs, rows[j]);
      var m :| 0 <= m < |a| && a[m] == rows[j];
      TakenCovers(rows, inputs);
      UpsertKept(a, inputs, pid, taken);
      assert u.rows[m] == Applied(a[m], inputs, pid);
    }
  }

  /** Each submitted variant without a truthy id is created, after all kept
      rows and in submission order, with the submitted fields, the product's
      id and an id that no stored or submitted variant has. */
  lemma ReconcileCreates(rows: seq<VariantRow>, pid: string, inputs: seq<VariantInput>, i: nat)
    requires i < |inputs| && !Truthy(inputs[i].id)
    ensures var u := Reconciled(rows, pid, inputs);
            var k := |AfterDeletes(rows, pid, inputs)| + NewCount(inputs[..i]);
            !u.failed ==> k < |u.rows| && !HasVariant(rows, u.rows[k].id) && !Submitted(inputs, u.rows[k].id) &&
                          u.rows[k] == VariantRow(u.rows[k].id, pid, inputs[i].name, inputs[i].price, inputs[i].inStock)
  {
    UpsertCreatesFresh(AfterDeletes(rows, pid, inputs), rows, pid, inputs, i);
  }

  /** `ReconcileCreates` for any table the delete loop may have left. */
  lemma UpsertCreatesFresh(a: seq<VariantRow>, rows: seq<VariantRow>, pid: string, inputs: seq<VariantInput>, i: nat)
    requires i < |inputs| && !Truthy(inputs[i].id)
    ensures var u := UpsertAll(a, inputs, pid, Taken(rows, inputs));
            var k := |a| + NewCount(inputs[..i]);
            !u.failed ==> k < |u.rows| && !HasVariant(rows, u.rows[k].id) && !Submitted(inputs, u.rows[k].id) &&
                          u.rows[k] == VariantRow(u.rows[k].id, pid, inputs[i].name, inputs[i].price, inputs[i].inStock)
  {
    var taken := Taken(rows, inputs);
    var u := UpsertAll(a, inputs, pid, taken);
    TakenCovers(rows, inputs);
    UpsertCreated(a, inputs, pid, taken, i);
    if !u.failed {
      NotTaken(rows, inputs, u.rows[|a| + NewCount(inputs[..i])].id);
    }
  }

  /** An id outside `Taken` is neither stored nor submitted. */
  lemma NotTaken(rows: seq<VariantRow>, inputs: seq<VariantInput>, id: string)
    requires id !in Taken(rows, inputs)
    ensures !HasVariant(rows, id) && !Submitted(inputs, id)
  {
    TakenCovers(rows, inputs);
    forall j | 0 <= j < |rows| ensures rows[j].id != id {
      assert rows[j] in rows;
    }
    forall j | 0 <= j < |inputs| ensures inputs[j].id != Str(id) {
      if inputs[j].id.Str? {
        assert inputs[j].id.s in Taken(rows, inputs);
      }
    }
  }

  /** After a successful update the product's variants are exactly the
      submitted ones: every row of the product was either created by this
      update (it sits after the kept rows) or is named by a submitted variant. */
  lemma ReconcileOnlySubmitted(rows: seq<VariantRow>, pid: string, inputs: seq<VariantInput>)
    ensures var u := Reconciled(rows, pid, inputs);
            !u.failed ==>
              (|u.rows| == |AfterDeletes(rows, pid, inputs)| + NewCount(inputs) &&
               forall k :: 0 <= k < |u.rows| && u.rows[k].productId == pid ==>
                 k >= |AfterDeletes(rows, pid, inputs)| || Submitted(inputs, u.rows[k].id))
  {
    var a := AfterDeletes(rows, pid, inputs);
    var taken := Taken(rows, inputs);
    var u := Reconciled(rows, pid, inputs);
    TakenCovers(rows, inputs);
    UpsertKept(a, inputs, pid, taken);
    if !u.failed {
      forall k | 0 <= k < |a| && u.rows[k].productId == pid ensures Submitted(inputs, u.rows[k].id) {
        LastWithSubmitted(inputs, a[k].id);
        if LastWith(inputs, a[k].id).None? {
          AfterDeletesSubset(rows, pid, inputs, a[k]);
        }
      }
    }
  }

  /** Variants of other products that no submitted variant names are left as
      they were (ids are unique in the table). */
  lemma ReconcileOthersUntouched(rows: seq<VariantRow>, pid: string, inputs: seq<VariantInput>, r: VariantRow)
    requires Unique(VariantIds(rows))
    requires r in rows && r.productId != pid && !Submitted(inputs, r.id)
    ensures var u := Reconciled(rows, pid, inputs);
            !u.failed ==> r in u.rows
  {
    var a := AfterDeletes(rows, pid, inputs);
    var taken := Taken(rows, inputs);
    var u := Reconciled(rows, pid, inputs);
    TakenCovers(rows, inputs);
    UpsertKept(a, inputs, pid, taken);
    AfterDeletesSpec(rows, pid, inputs, r);
    if !u.failed {
      var m :| 0 <= m < |a| && a[m] == r;
      LastWithSubmitted(inputs, r.id);
      assert u.rows[m] == Applied(r, inputs, pid) == r;
    }
  }

  /** Updates keep every id and creations add fresh ones, so ids stay unique. */
  lemma {:induction false} UpsertUnique(start: seq<VariantRow>, inputs: seq<VariantInput>, pid: string, taken: seq<string>)
    requires Unique(VariantIds(start))
    ensures Unique(VariantIds(UpsertAll(start, inputs, pid, taken).rows))
    decreases |inputs|
  {
    if inputs != [] {
      var prefix := inputs[..|inputs| - 1];
      UpsertUnique(start, prefix, pid, taken);
      var before := UpsertAll(start, prefix, pid, taken);
      var v := inputs[|inputs| - 1];
      if !before.failed {
        var rows := before.rows;
        if Truthy(v.id) && v.id.Str? && HasVariant(rows, v.id.s) {
          var row := VariantRow(v.id.s, pid, v.name, v.price, v.inStock);
          assert VariantIds(SetRow(rows, row)) == VariantIds(rows);
        } else if !Truthy(v.id) {
          var id := FreshId(taken + VariantIds(rows));
          var row := VariantRow(id, pid, v.name, v.price, v.inStock);
          assert VariantIds(rows + [row]) == VariantIds(rows) + [id];
          forall k | 0 <= k < |rows| ensures VariantIds(rows)[k] != id {
            assert VariantIds(rows)[k] in taken + VariantIds(rows);
          }
          UniqueAppend(VariantIds(rows), [id]);
        }
      }
    }
  }

  /** Variant ids stay unique through an update, whether it completes or throws midway. */
  lemma ReconcileUnique(rows: seq<VariantRow>, pid: string, inputs: seq<VariantInput>)
    requires Unique(VariantIds(rows))
    ensures Unique(VariantIds(Reconciled(rows, pid, inputs).rows))
  {
    RemoveIdsUnique(rows, DeletedIds(VariantsOf(rows, pid), inputs));
    UpsertUnique(AfterDeletes(rows, pid, inputs), inputs, pid, Taken(rows, inputs));
  }
}
