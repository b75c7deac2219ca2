/** The storefront listing in `getAllProducts`: the raw URL's query part is cut
    into `&`-separated segments, each segment is scanned with `indexOf` and
    `substring` for a filter (type, operator, value) or a sort choice, the
    filters are folded into an object keyed by filter type, and the result is
    turned into the description of one paged catalog query. */
module CatalogQuery {
  import opened JsSemantics

  /** The filter kinds the scanner recognises. */
  datatype FilterType = Price | Rating | Category | InStock | OutOfStock

  function TypeName(t: FilterType): string {
    match t
    case Price => "price"
    case Rating => "rating"
    case Category => "category"
    case InStock => "inStock"
    case OutOfStock => "outOfStock"
  }

  /** The position of each kind's test in the scanner; a later test overwrites an earlier one. */
  function Rank(t: FilterType): nat {
    match t
    case Price => 0
    case Rating => 1
    case Category => 2
    case InStock => 3
    case OutOfStock => 4
  }

  /** The filter type a segment sets on its own: it must mention "filters",
      and of the five names it mentions, the one checked last wins. */
  function SegmentType(seg: string): (t: Option<FilterType>)
    ensures t.None? <==> (!Contains(seg, "filters") ||
              (!Contains(seg, "price") && !Contains(seg, "rating") && !Contains(seg, "category") &&
               !Contains(seg, "inStock") && !Contains(seg, "outOfStock")))
    ensures t.Some? ==> Contains(seg, "filters") && Contains(seg, TypeName(t.value))
  {
    if !Contains(seg, "filters") then None
    else if Contains(seg, "outOfStock") then Some(OutOfStock)
    else if Contains(seg, "inStock") then Some(InStock)
    else if Contains(seg, "category") then Some(Category)
    else if Contains(seg, "rating") then Some(Rating)
    else if Contains(seg, "price") then Some(Price)
    else None
  }

  /** Of the names a "filters" segment mentions, the one checked last wins:
      no name of a later test occurs in it. */
  lemma LaterTestWins(seg: string, k: FilterType)
    requires SegmentType(seg).Some? && Rank(k) > Rank(SegmentType(seg).value)
    ensures !Contains(seg, TypeName(k))
  {
  }

  /** The `filterType` variable after scanning `segs`: it is only ever
      overwritten, so it stays undefined (`None`) until some segment sets a
      type, and a segment that sets none keeps the type left before it. */
  function LastType(segs: seq<string>): Option<FilterType> {
    if segs == [] then None
    else
      var last := |segs| - 1;
      if SegmentType(segs[last]).Some? then SegmentType(segs[last])
      else LastType(segs[..last])
  }

  /** The type stays undefined exactly when no segment sets one. */
  lemma {:induction false} LastTypeUndefined(segs: seq<string>)
    ensures LastType(segs).None? <==> forall j :: 0 <= j < |segs| ==> SegmentType(segs[j]).None?
    decreases |segs|
  {
    if segs != [] {
      var last := |segs| - 1;
      assert forall j :: 0 <= j < last ==> segs[..last][j] == segs[j];
      LastTypeUndefined(segs[..last]);
    }
  }

  /** The type in effect is the one set by the last segment that sets one. */
  lemma {:induction false} LastSetterWins(segs: seq<string>, j: nat)
    requires j < |segs| && SegmentType(segs[j]).Some?
    requires forall k :: j < k < |segs| ==> SegmentType(segs[k]).None?
    ensures LastType(segs) == SegmentType(segs[j])
    decreases |segs|
  {
    var last := |segs| - 1;
    if j < last {
      assert forall k :: j < k < last ==> segs[..last][k] == segs[k];
      LastSetterWins(segs[..last], j);
    }
  }

  /** The key under which a filter lands in the filter object: the type's
      name, or "undefined" when no segment has set a type yet. */
  function TypeKey(t: Option<FilterType>): Option<string> {
    match t
    case None => None
    case Some(k) => Some(TypeName(k))
  }

  /** A filter value: `parseInt` of the text (an integer or NaN), or the raw
      text for a segment that mentions "category". */
  datatype FilterValue = Int(n: int) | NaN | Raw(text: string)

  /** One element of `filterArray`: `{ filterType, filterOperator, filterValue }`. */
  datatype Filter = Filter(ftype: Option<string>, op: string, value: FilterValue)

  /** Truthiness of a filter value in JavaScript. */
  predicate TruthyValue(v: FilterValue) {
    match v
    case Int(n) => n != 0
    case NaN => false
    case Raw(s) => s != ""
  }

  /** The operator: from just after the first `$` up to the character before
      the first `=`, with `substring`'s clamping and swapping. */
  function OperatorOf(seg: string): string {
    Substring(seg, IndexOf(seg, "$") + 1, IndexOf(seg, "=") - 1)
  }

  /** The text after the first `=` (the whole segment when there is none). */
  function TextAfterEquals(seg: string): string {
    Substring(seg, IndexOf(seg, "=") + 1, |seg|)
  }

  function ValueOf(seg: string): FilterValue {
    var text := TextAfterEquals(seg);
    if Contains(seg, "category") then Raw(text)
    else match ParseInt(text)
      case Some(n) => Int(n)
      case None => NaN
  }

  /** A segment in the bracket form `filters[<field>][$<op>]=<text>`. */
  function BracketSegment(field: string, op: string, text: string): string {
    "filters[" + field + "][$" + op + "]=" + text
  }

  /** In the bracket form the operator and the value text read back exactly:
      the character the operator cut drops is the closing `]`. */
  lemma BracketFilter(field: string, op: string, text: string)
    requires '$' !in field && '=' !in field && '$' !in op && '=' !in op
    ensures OperatorOf(BracketSegment(field, op, text)) == op
    ensures TextAfterEquals(BracketSegment(field, op, text)) == text
    ensures Contains(BracketSegment(field, op, text), "category") ==> ValueOf(BracketSegment(field, op, text)) == Raw(text)
  {
    var seg := BracketSegment(field, op, text);
    var beforeDollar := "filters[" + field + "][";
    var beforeEquals := beforeDollar + "$" + op + "]";
    assert seg == beforeDollar + ['$'] + (op + "]=" + text);
    assert seg == beforeEquals + ['='] + text;
    assert '$' !in beforeDollar by {
      assert beforeDollar == "filters[" + field + "][";
    }
    assert '=' !in beforeEquals by {
      assert beforeEquals == "filters[" + field + "][$" + op + "]";
    }
    IndexOfChar(beforeDollar, '$', op + "]=" + text);
    IndexOfChar(beforeEquals, '=', text);
    assert seg[|beforeDollar| + 1..|beforeDollar| + 1 + |op|] == op;
    assert seg[|beforeEquals| + 1..] == text;
  }

  /** A number written in the bracket form is read back as that number. */
  lemma BracketNumber(field: string, op: string, n: int)
    requires '$' !in field && '=' !in field && '$' !in op && '=' !in op
    requires !Contains(BracketSegment(field, op, DecimalString(n)), "category")
    ensures ValueOf(BracketSegment(field, op, DecimalString(n))) == Int(n)
  {
    BracketFilter(field, op, DecimalString(n));
    ParseIntDecimalString(n);
  }

  /** In the form `filters.<field>$<op>=<text>`, with no bracket before the
      `=`, the operator loses its own last character. */
  lemma DollarFormOperator(field: string, op: string, text: string)
    requires '$' !in field && '=' !in field && '$' !in op && '=' !in op && op != []
    ensures OperatorOf("filters." + field + "$" + op + "=" + text) == op[..|op| - 1]
  {
    var seg := "filters." + field + "$" + op + "=" + text;
    var beforeDollar := "filters." + field;
    var beforeEquals := beforeDollar + "$" + op;
    assert seg == beforeDollar + ['$'] + (op + "=" + text);
    assert seg == beforeEquals + ['='] + text;
    assert '$' !in beforeDollar by {
      assert beforeDollar == "filters." + field;
    }
    assert '=' !in beforeEquals by {
      assert beforeEquals == "filters." + field + "$" + op;
    }
    IndexOfChar(beforeDollar, '$', op + "=" + text);
    IndexOfChar(beforeEquals, '=', text);
    assert seg[|beforeDollar| + 1..|beforeDollar| + |op|] == op[..|op| - 1];
  }

  /** `filterArray` after scanning `segs`: one filter per segment that
      mentions "filters", carrying the filter type in effect at that segment. */
  function Filters(segs: seq<string>): seq<Filter> {
    if segs == [] then []
    else
      var last := |segs| - 1;
      var seg := segs[last];
      Filters(segs[..last]) +
        (if Contains(seg, "filters") then [Filter(TypeKey(LastType(segs)), OperatorOf(seg), ValueOf(seg))] else [])
  }

  /** The number of segments of `segs` that mention "filters". */
  function FilterSegmentCount(segs: seq<string>): nat {
    if segs == [] then 0
    else FilterSegmentCount(segs[..|segs| - 1]) + (if Contains(segs[|segs| - 1], "filters") then 1 else 0)
  }

  lemma {:induction false} FilterSegmentCountPrefix(segs: seq<string>, j: nat)
    requires j <= |segs|
    ensures FilterSegmentCount(segs[..j]) <= FilterSegmentCount(segs)
    ensures j < |segs| && Contains(segs[j], "filters") ==> FilterSegmentCount(segs[..j]) < FilterSegmentCount(segs)
    decreases |segs|
  {
    if j < |segs| {
      var last := |segs| - 1;
      assert segs[..last][..j] == segs[..j] by { assert j <= last; }
      if j < last {
        FilterSegmentCountPrefix(segs[..last], j);
      } else {
        assert segs[..j] == segs[..last];
      }
    } else {
      assert segs[..j] == segs;
    }
  }

  /** Every segment that mentions "filters" contributes exactly one filter, in
      segment order: its operator, its value, and the type in effect after it. */
  lemma {:induction false} FilterAt(segs: seq<string>, j: nat)
    requires j < |segs| && Contains(segs[j], "filters")
    ensures |Filters(segs)| == FilterSegmentCount(segs)
    ensures FilterSegmentCount(segs[..j]) < |Filters(segs)|
    ensures Filters(segs)[FilterSegmentCount(segs[..j])] ==
            Filter(TypeKey(LastType(segs[..j + 1])), OperatorOf(segs[j]), ValueOf(segs[j]))
    decreases |segs|
  {
    FiltersLength(segs);
    FilterSegmentCountPrefix(segs, j);
    var last := |segs| - 1;
    var prefix := segs[..last];
    var c := FilterSegmentCount(segs[..j]);
    assert Filters(segs) == Filters(prefix) +
      (if Contains(segs[last], "filters") then [Filter(TypeKey(LastType(segs)), OperatorOf(segs[last]), ValueOf(segs[last]))] else []);
    if j < last {
      FilterAt(prefix, j);
      assert prefix[..j] == segs[..j];
      assert prefix[..j + 1] == segs[..j + 1];
      assert prefix[j] == segs[j];
      assert Filters(segs)[c] == Filters(prefix)[c];
    } else {
      assert segs[..j] == prefix;
      assert segs[..j + 1] == segs;
      FiltersLength(prefix);
      assert c == |Filters(prefix)|;
    }
  }

  lemma {:induction false} FiltersLength(segs: seq<string>)
    ensures |Filters(segs)| == FilterSegmentCount(segs)
    decreases |segs|
  {
    if segs != [] {
      FiltersLength(segs[..|segs| - 1]);
    }
  }

  /** The sort value: the text after the first `=` of the last segment that
      mentions "sort", or "defaultSort" when none does. */
  function SortValue(segs: seq<string>): string {
    if segs == [] then "defaultSort"
    else
      var last := |segs| - 1;
      if Contains(segs[last], "sort") then TextAfterEquals(segs[last])
      else SortValue(segs[..last])
  }

  /** With no "sort" segment the sort is "defaultSort". */
  lemma {:induction false} SortDefault(segs: seq<string>)
    requires forall j :: 0 <= j < |segs| ==> !Contains(segs[j], "sort")
    ensures SortValue(segs) == "defaultSort"
    decreases |segs|
  {
    if segs != [] {
      var last := |segs| - 1;
      assert forall j :: 0 <= j < last ==> segs[..last][j] == segs[j];
      SortDefault(segs[..last]);
    }
  }

  /** The last segment that mentions "sort" decides the sort. */
  lemma {:induction false} LastSortWins(segs: seq<string>, j: nat)
    requires j < |segs| && Contains(segs[j], "sort")
    requires forall k :: j < k < |segs| ==> !Contains(segs[k], "sort")
    ensures SortValue(segs) == TextAfterEquals(segs[j])
    decreases |segs|
  {
    var last := |segs| - 1;
    if j < last {
      assert forall k :: j < k < last ==> segs[..last][k] == segs[k];
      LastSortWins(segs[..last], j);
    }
  }

  /** The five filter-type tests of the scanning loop, in source order: each
      test that matches overwrites `filterType` with the name it found. */
  method ScanFilterType(seg: string, filterType: Option<string>) returns (next: Option<string>)
    ensures SegmentType(seg).Some? ==> next == TypeKey(SegmentType(seg))
    ensures SegmentType(seg).None? ==> next == filterType
  {
    next := filterType;
    if Contains(seg, "filters") && Contains(seg, "price") {
      SubstringAtIndexOf(seg, "price");
      next := Some(Substring(seg, IndexOf(seg, "price"), IndexOf(seg, "price") + |"price"|));
    }
    if Contains(seg, "filters") && Contains(seg, "rating") {
      SubstringAtIndexOf(seg, "rating");
      next := Some(Substring(seg, IndexOf(seg, "rating"), IndexOf(seg, "rating") + |"rating"|));
    }
    if Contains(seg, "filters") && Contains(seg, "category") {
      next := Some("category");
    }
    if Contains(seg, "filters") && Contains(seg, "inStock") {
      SubstringAtIndexOf(seg, "inStock");
      next := Some(Substring(seg, IndexOf(seg, "inStock"), IndexOf(seg, "inStock") + |"inStock"|));
    }
    if Contains(seg, "filters") && Contains(seg, "outOfStock") {
      SubstringAtIndexOf(seg, "outOfStock");
      next := Some(Substring(seg, IndexOf(seg, "outOfStock"), IndexOf(seg, "outOfStock") + |"outOfStock"|));
    }
  }

  /** Scanning one more segment, as the three specification functions see it. */
  lemma ScanStep(segs: seq<string>, i: nat)
    requires i < |segs|
    ensures LastType(segs[..i + 1]) ==
              if SegmentType(segs[i]).Some? then SegmentType(segs[i]) else LastType(segs[..i])
    ensures Filters(segs[..i + 1]) == Filters(segs[..i]) +
              (if Contains(segs[i], "filters")
               then [Filter(TypeKey(LastType(segs[..i + 1])), OperatorOf(segs[i]), ValueOf(segs[i]))]
               else [])
    ensures SortValue(segs[..i + 1]) ==
              if Contains(segs[i], "sort") then TextAfterEquals(segs[i]) else SortValue(segs[..i])
  {
    assert segs[..i + 1][..i] == segs[..i];
  }

  /** The scanning loop of `getAllProducts`: the filter-type tests, then the
      sort test, then the filter push, segment by segment. */
  method ParseSegments(segs: seq<string>) returns (filters: seq<Filter>, sortBy: string)
    ensures filters == Filters(segs)
    ensures sortBy == SortValue(segs)
  {
    var filterType: Option<string> := None;
    sortBy := "defaultSort";
    filters := [];
    var i := 0;
    assert segs[..i] == [];
    while i < |segs|
      invariant 0 <= i <= |segs|
      invariant filterType == TypeKey(LastType(segs[..i]))
      invariant filters == Filters(segs[..i])
      invariant sortBy == SortValue(segs[..i])
    {
      var seg := segs[i];
      ScanStep(segs, i);
      ghost var typeAfter := LastType(segs[..i + 1]);
      filterType := ScanFilterType(seg, filterType);
      assert filterType == TypeKey(typeAfter);
      if Contains(seg, "sort") {
        sortBy := Substring(seg, IndexOf(seg, "=") + 1, |seg|);
      }
      if Contains(seg, "filters") {
        var filter := Filter(filterType, OperatorOf(seg), ValueOf(seg));
        filters := filters + [filter];
      }
      assert filters == Filters(segs[..i + 1]);
      i := i + 1;
    }
    assert segs[..i] == segs;
  }

  // ------------------------------------------------------------ filter object

  /** The entry `{ [filterOperator]: filterValue }` stored under a filter type. */
  datatype Condition = Condition(op: string, value: FilterValue)

  /** The property name a filter is stored under: `[item.filterType]` turns an
      undefined type into the key "undefined". */
  function KeyOf(f: Filter): string {
    match f.ftype
    case Some(k) => k
    case None => "undefined"
  }

  /** No later filter in `filters` has the same key as the one at `i`. */
  predicate LastOfKey(filters: seq<Filter>, i: nat)
    requires i < |filters|
  {
    forall j :: i < j < |filters| ==> KeyOf(filters[j]) != KeyOf(filters[i])
  }

  /** `filterObj`: the spread-and-overwrite fold over `filterArray`. */
  function FilterObject(filters: seq<Filter>): map<string, Condition> {
    if filters == [] then map[]
    else
      var f := filters[|filters| - 1];
      FilterObject(filters[..|filters| - 1])[KeyOf(f) := Condition(f.op, f.value)]
  }

  /** The filter object has one entry for each key that occurs among the filters, and no other. */
  lemma {:induction false} FilterObjectKeys(filters: seq<Filter>)
    ensures forall i :: 0 <= i < |filters| ==> KeyOf(filters[i]) in FilterObject(filters)
    ensures forall k :: k in FilterObject(filters) ==> exists i :: 0 <= i < |filters| && KeyOf(filters[i]) == k
  {
    if filters != [] {
      var last := |filters| - 1;
      FilterObjectKeys(filters[..last]);
      assert forall i :: 0 <= i < last ==> filters[..last][i] == filters[i];
    }
  }

  /** A later filter with the same key replaces an earlier one: the entry
      under each key is the last filter with that key. */
  lemma {:induction false} FilterObjectLastWins(filters: seq<Filter>, i: nat)
    requires i < |filters| && LastOfKey(filters, i)
    ensures KeyOf(filters[i]) in FilterObject(filters)
    ensures FilterObject(filters)[KeyOf(filters[i])] == Condition(filters[i].op, filters[i].value)
  {
    var last := |filters| - 1;
    if i < last {
      assert filters[..last][i] == filters[i];
      assert LastOfKey(filters[..last], i) by {
        forall j | i < j < last ensures KeyOf(filters[..last][j]) != KeyOf(filters[..last][i]) {
          assert filters[..last][j] == filters[j];
        }
      }
      FilterObjectLastWins(filters[..last], i);
      assert KeyOf(filters[last]) != KeyOf(filters[i]);
    }
  }

  /** The `for (let item of filterArray)` loop. */
  method BuildFilterObject(filters: seq<Filter>) returns (obj: map<string, Condition>)
    ensures obj == FilterObject(filters)
  {
    obj := map[];
    for i := 0 to |filters|
      invariant obj == FilterObject(filters[..i])
    {
      var item := filters[i];
      obj := obj[KeyOf(item) := Condition(item.op, item.value)];
      assert filters[..i + 1][..i] == filters[..i];
    }
    assert filters[..|filters|] == filters;
  }

  /** The filter object is empty exactly when no segment mentions "filters". */
  lemma NoFiltersNoObject(segs: seq<string>)
    ensures FilterObject(Filters(segs)) == map[] <==> forall j :: 0 <= j < |segs| ==> !Contains(segs[j], "filters")
  {
    var fs := Filters(segs);
    FiltersLength(segs);
    if j :| 0 <= j < |segs| && Contains(segs[j], "filters") {
      FilterAt(segs, j);
      FilterObjectKeys(fs);
      assert KeyOf(fs[0]) in FilterObject(fs);
    } else {
      NoFilterSegments(segs);
      assert fs == [];
    }
  }

  lemma {:induction false} NoFilterSegments(segs: seq<string>)
    requires forall j :: 0 <= j < |segs| ==> !Contains(segs[j], "filters")
    ensures FilterSegmentCount(segs) == 0
    decreases |segs|
  {
    if segs != [] {
      var last := |segs| - 1;
      assert forall j :: 0 <= j < last ==> segs[..last][j] == segs[j];
      NoFilterSegments(segs[..last]);
    }
  }

  // ------------------------------------------------------------ where clause

  /** One property of the where-clause: a comparison passed through from the
      filter object, or the rewritten `category: { name: { equals: v } }`. */
  datatype Clause = Compare(op: string, value: FilterValue) | CategoryNameEquals(name: FilterValue)

  /** `filterObj.category && filterObj.category.equals`: the category entry
      exists, its operator is `equals`, and its value is truthy. */
  predicate HasCategoryEquals(obj: map<string, Condition>) {
    "category" in obj && obj["category"].op == "equals" && TruthyValue(obj["category"].value)
  }

  /** The where-clause: none at all for an empty filter object; otherwise every
      entry passes through unchanged, except that a truthy category `equals`
      becomes an equality on the category's name. */
  function WhereOf(obj: map<string, Condition>): (w: Option<map<string, Clause>>)
    ensures w.None? <==> obj == map[]
    ensures w.Some? ==> w.value.Keys == obj.Keys
    ensures w.Some? ==> forall k :: k in obj && !(k == "category" && HasCategoryEquals(obj)) ==>
              w.value[k] == Compare(obj[k].op, obj[k].value)
    ensures w.Some? && HasCategoryEquals(obj) ==>
              w.value["category"] == CategoryNameEquals(obj["category"].value)
  {
    if obj == map[] then None
    else
      var passed := map k | k in obj :: Compare(obj[k].op, obj[k].value);
      if HasCategoryEquals(obj) then Some(passed["category" := CategoryNameEquals(obj["category"].value)])
      else Some(passed)
  }

  // ----------------------------------------------------------------- sorting

  datatype Direction = Asc | Desc

  /** `sortObj`: no ordering, or one field and a direction. */
  datatype Ordering = Unordered | ByTitle(dir: Direction) | ByPrice(dir: Direction)

  /** The sort if-chain. */
  function OrderingOf(sortBy: string): Ordering {
    if sortBy == "defaultSort" then Unordered
    else if sortBy == "titleAsc" then ByTitle(Asc)
    else if sortBy == "titleDesc" then ByTitle(Desc)
    else if sortBy == "lowPrice" then ByPrice(Asc)
    else if sortBy == "highPrice" then ByPrice(Desc)
    else Unordered
  }

  /** Each ordering comes from exactly one sort value; every other value, and
      "defaultSort", leaves the listing unordered. */
  lemma OrderingTable(sortBy: string)
    ensures OrderingOf(sortBy) == ByTitle(Asc) <==> sortBy == "titleAsc"
    ensures OrderingOf(sortBy) == ByTitle(Desc) <==> sortBy == "titleDesc"
    ensures OrderingOf(sortBy) == ByPrice(Asc) <==> sortBy == "lowPrice"
    ensures OrderingOf(sortBy) == ByPrice(Desc) <==> sortBy == "highPrice"
    ensures OrderingOf(sortBy) == Unordered <==> sortBy !in {"titleAsc", "titleDesc", "lowPrice", "highPrice"}
  {
  }

  // ------------------------------------------------------------------ paging

  /** `Number(request.query.page) ? Number(request.query.page) : 1` */
  function PageOf(pageParam: Option<string>): (page: int)
    ensures page != 0
    ensures pageParam.None? ==> page == 1
    ensures pageParam.Some? && NumberOf(pageParam.value).Some? && NumberOf(pageParam.value).value != 0 ==>
              page == NumberOf(pageParam.value).value
    ensures pageParam.Some? && (NumberOf(pageParam.value) == None || NumberOf(pageParam.value) == Some(0)) ==>
              page == 1
  {
    match pageParam
    case None => 1
    case Some(text) =>
      match NumberOf(text)
      case Some(n) => if n != 0 then n else 1
      case None => 1
  }

  /** A page written as an integer is read back as that page, except 0, which
      is falsy and falls back to the first page. */
  lemma PageRoundTrip(p: int)
    ensures PageOf(Some(DecimalString(p))) == if p == 0 then 1 else p
  {
    NumberOfDecimalString(p);
  }

  // ---------------------------------------------------------------- listing

  /** The products query `getAllProducts` issues. An admin listing fetches
      everything; any other listing skips `(page - 1) * 10` rows and takes 12,
      with the where-clause and the ordering the query string describes. */
  datatype ListingQuery =
    | AllProducts
    | PageQuery(where: Option<map<string, Clause>>, orderBy: Ordering, skip: int, take: nat)

  /** The `&`-separated segments after the first `?` of the URL; none when the
      URL has no `?`. */
  function QuerySegments(url: string): seq<string> {
    var divider := IndexOf(url, "?");
    if divider == -1 then [] else Split(Substring(url, divider + 1, |url|), '&')
  }

  function Listing(mode: Option<string>, pageParam: Option<string>, url: string): ListingQuery {
    if mode == Some("admin") then AllProducts
    else
      var segs := QuerySegments(url);
      PageQuery(WhereOf(FilterObject(Filters(segs))), OrderingOf(SortValue(segs)),
                (PageOf(pageParam) - 1) * 10, 12)
  }

  /** `getAllProducts`, up to the store call: the query it sends. */
  method GetAllProducts(mode: Option<string>, pageParam: Option<string>, url: string) returns (q: ListingQuery)
    ensures q == Listing(mode, pageParam, url)
  {
    if mode == Some("admin") {
      return AllProducts;
    }
    var dividerLocation := IndexOf(url, "?");
    var filterObj: map<string, Condition> := map[];
    var sortByValue := "defaultSort";
    var page := PageOf(pageParam);
    if dividerLocation != -1 {
      var queryArray := Split(Substring(url, dividerLocation + 1, |url|), '&');
      var filterArray;
      filterArray, sortByValue := ParseSegments(queryArray);
      filterObj := BuildFilterObject(filterArray);
    }
    q := PageQuery(WhereOf(filterObj), OrderingOf(sortByValue), (page - 1) * 10, 12);
  }

  /** Only the admin mode bypasses filtering, sorting and paging. */
  lemma AdminBypass(mode: Option<string>, pageParam: Option<string>, url: string)
    ensures Listing(mode, pageParam, url).AllProducts? <==> mode == Some("admin")
  {
  }

  /** The page alone decides skip and take: every non-admin listing on page
      `p` skips `(p - 1) * 10` rows and takes 12, whatever the filters and sort. */
  lemma PagingIgnoresFilters(mode: Option<string>, pageParam: Option<string>, url1: string, url2: string)
    requires mode != Some("admin")
    ensures Listing(mode, pageParam, url1).skip == Listing(mode, pageParam, url2).skip == (PageOf(pageParam) - 1) * 10
    ensures Listing(mode, pageParam, url1).take == Listing(mode, pageParam, url2).take == 12
  {
  }

  /** A listing has a where-clause exactly when some query segment mentions "filters". */
  lemma WhereIffFilterSegment(mode: Option<string>, pageParam: Option<string>, url: string)
    requires mode != Some("admin")
    ensures Listing(mode, pageParam, url).where.Some? <==>
              exists j :: 0 <= j < |QuerySegments(url)| && Contains(QuerySegments(url)[j], "filters")
  {
    NoFiltersNoObject(QuerySegments(url));
  }
}
