/**
 * The pure part of the product routes: normalising a list request (page, size,
 * sort, price bounds), the cache keys of both namespaces, the price filter
 * handed to the table, and the page arithmetic of a listing.
 */
module ListQuery {
  import opened Options
  import opened Text
  import opened ProductEntity
  import opened Repository

  const DefaultPage := 1
  const DefaultSize := 10
  const MaxSize := 50
  const DefaultSort := "updatedAt,desc"

  /** The two cache namespaces. */
  const ListPrefix := "products:list:"
  const ItemPrefix := "products:byId:"

  /**
   * The query string as the route receives it. `page` and `size` are None when
   * absent; `size` is also None when it does not parse to a finite number.
   * Price bounds are in integer cents.
   */
  datatype RawListQuery = RawListQuery(
    page: Option<int>,
    size: Option<int>,
    sort: Option<string>,
    minPrice: Option<int>,
    maxPrice: Option<int>)

  /** A normalised list request; `direction` keeps the caller's spelling. */
  datatype ListQuery = ListQuery(
    page: nat,
    size: nat,
    field: SortField,
    direction: string,
    minPrice: Option<int>,
    maxPrice: Option<int>)

  // ---------------------------------------------------------------------------
  // Page and size

  /** `Math.max(1, page ?? 1)`. */
  function NormalPage(raw: Option<int>): (page: nat)
    ensures page >= 1
    ensures raw.Some? && raw.value >= 1 ==> page == raw.value
    ensures raw.None? || raw.value < 1 ==> page == 1
  {
    var p := raw.GetOr(DefaultPage);
    if p < 1 then 1 else p
  }

  /** `Math.min(50, Math.max(1, finite(size) ? size : 10))`. */
  function NormalSize(raw: Option<int>): (size: nat)
    ensures 1 <= size <= MaxSize
    ensures raw.None? ==> size == DefaultSize
    ensures raw.Some? && 1 <= raw.value <= MaxSize ==> size == raw.value
    ensures raw.Some? && raw.value < 1 ==> size == 1
    ensures raw.Some? && raw.value > MaxSize ==> size == MaxSize
  {
    var s := raw.GetOr(DefaultSize);
    if s > MaxSize then MaxSize else if s < 1 then 1 else s
  }

  // ---------------------------------------------------------------------------
  // Sort

  /** The part of `sort` before its first comma (`sortRaw.split(',')[0]`). */
  function FieldPart(sort: string): string {
    sort[..IndexOf(sort, ',')]
  }

  /** The part between the first and the second comma, absent when there is no comma. */
  function DirectionPart(sort: string): Option<string> {
    var i := IndexOf(sort, ',');
    if i == |sort| then None
    else
      var rest := sort[i + 1..];
      Some(rest[..IndexOf(rest, ',')])
  }

  lemma SortParts(field: string, dir: string)
    requires ',' !in field && ',' !in dir
    ensures FieldPart(field + "," + dir) == field
    ensures DirectionPart(field + "," + dir) == Some(dir)
  {
    var sort := field + "," + dir;
    IndexOfSeparator(field, dir, ',');
    assert IndexOf(sort, ',') == |field|;
    assert sort[|field| + 1..] == dir;
    IndexOfAbsent(dir, ',');
    assert dir[..|dir|] == dir;
  }

  lemma SortWithoutComma(field: string)
    requires ',' !in field
    ensures FieldPart(field) == field && DirectionPart(field) == None
  {
    IndexOfAbsent(field, ',');
  }

  /** The sortable property names. */
  const AllowedSortNames: set<string> := {"updatedAt", "createdAt", "price", "name", "stock"}

  lemma AllowedSortNamesAreFieldNames(s: string)
    ensures s in AllowedSortNames <==> exists f :: FieldName(f) == s
  {
    if s in AllowedSortNames {
      if s == "updatedAt" { assert FieldName(UpdatedAt) == s; }
      else if s == "createdAt" { assert FieldName(CreatedAt) == s; }
      else if s == "price" { assert FieldName(Price) == s; }
      else if s == "name" { assert FieldName(Name) == s; }
      else { assert FieldName(Stock) == s; }
    }
  }

  /** The requested column when it is one of the sortable ones, `updatedAt` otherwise. */
  function SortFieldOf(fieldRaw: string): (f: SortField)
    ensures fieldRaw in AllowedSortNames ==> FieldName(f) == fieldRaw
    ensures fieldRaw !in AllowedSortNames ==> f == UpdatedAt
  {
    if fieldRaw == "createdAt" then CreatedAt
    else if fieldRaw == "price" then Price
    else if fieldRaw == "name" then Name
    else if fieldRaw == "stock" then Stock
    else UpdatedAt
  }

  /** The column names every plain JavaScript object inherits from `Object.prototype`. */
  const InheritedObjectKeys: set<string> := {
    "constructor", "__proto__", "hasOwnProperty", "isPrototypeOf", "propertyIsEnumerable",
    "toLocaleString", "toString", "valueOf",
    "__defineGetter__", "__defineSetter__", "__lookupGetter__", "__lookupSetter__"}

  /**
   * The column check as written: `allowedSort[fieldRaw]` on a plain object literal
   * is also truthy for the inherited members, so those names are let through.
   */
  function SortFieldNameAsWritten(fieldRaw: string): (name: string)
    ensures fieldRaw in AllowedSortNames || fieldRaw in InheritedObjectKeys ==> name == fieldRaw
    ensures fieldRaw !in AllowedSortNames && fieldRaw !in InheritedObjectKeys ==> name == "updatedAt"
  {
    if fieldRaw in AllowedSortNames || fieldRaw in InheritedObjectKeys then fieldRaw else "updatedAt"
  }

  /** `sort=toString,asc` gets past the column check as written with a column that does not exist. */
  lemma InheritedKeyPassesColumnCheck()
    ensures SortFieldNameAsWritten(FieldPart("toString,asc")) == "toString"
    ensures "toString" !in AllowedSortNames
  {
    assert "toString" + "," + "asc" == "toString,asc";
    SortParts("toString", "asc");
    assert "toString" in InheritedObjectKeys;
    assert "toString" !in AllowedSortNames;
  }

  /** The check as written lets through a name that is not a sortable column exactly for the inherited members. */
  lemma InheritedNamesAreNotColumns(fieldRaw: string)
    ensures SortFieldNameAsWritten(fieldRaw) !in AllowedSortNames <==> fieldRaw in InheritedObjectKeys
  {
    assert AllowedSortNames * InheritedObjectKeys == {} by {
      forall s | s in AllowedSortNames
        ensures s !in InheritedObjectKeys
      {
      }
    }
  }

  /** The own-keys check always yields a sortable column, and agrees with the check as written elsewhere. */
  lemma SortFieldOfIsSortable(fieldRaw: string)
    ensures FieldName(SortFieldOf(fieldRaw)) in AllowedSortNames
    ensures fieldRaw !in InheritedObjectKeys ==> FieldName(SortFieldOf(fieldRaw)) == SortFieldNameAsWritten(fieldRaw)
  {
  }

  /** ASCII lower-casing, which decides `toLowerCase() === 'asc' | 'desc'` exactly. */
  function LowerChar(c: char): char {
    if 'A' <= c <= 'Z' then ((c as int) - ('A' as int) + ('a' as int)) as char else c
  }

  function ToLowerAscii(s: string): (r: string)
    ensures |r| == |s| && forall i | 0 <= i < |s| :: r[i] == LowerChar(s[i])
  {
    seq(|s|, i requires 0 <= i < |s| => LowerChar(s[i]))
  }

  /** `asc` or `desc` in any letter case. */
  predicate IsDirection(d: string) {
    ToLowerAscii(d) == "asc" || ToLowerAscii(d) == "desc"
  }

  predicate IsAscending(d: string) {
    ToLowerAscii(d) == "asc"
  }

  /** The requested direction, unchanged, when it is asc/desc in any case; `desc` otherwise. */
  function DirectionOf(dirRaw: Option<string>): (d: string)
    ensures IsDirection(d)
    ensures dirRaw.Some? && IsDirection(dirRaw.value) ==> d == dirRaw.value
    ensures dirRaw.None? || !IsDirection(dirRaw.value) ==> d == "desc"
  {
    if dirRaw.Some? && IsDirection(dirRaw.value) then dirRaw.value else "desc"
  }

  lemma DirectionHasNoSeparator(d: string)
    requires IsDirection(d)
    ensures '&' !in d && ',' !in d && '=' !in d
  {
    forall i | 0 <= i < |d|
      ensures d[i] != '&' && d[i] != ',' && d[i] != '='
    {
      assert ToLowerAscii(d)[i] == LowerChar(d[i]);
    }
  }

  /** An unknown column falls back alone: `bogus,asc` is `updatedAt,asc`, not the full default. */
  lemma UnknownFieldKeepsDirection()
    ensures SortFieldOf(FieldPart("bogus,asc")) == UpdatedAt
    ensures DirectionOf(DirectionPart("bogus,asc")) == "asc"
  {
    assert "bogus" + "," + "asc" == "bogus,asc";
    SortParts("bogus", "asc");
    assert "bogus" !in AllowedSortNames;
    assert ToLowerAscii("asc") == "asc";
  }

  /** An accepted direction keeps its spelling: `price,ASC` sorts by price with direction `ASC`. */
  lemma AcceptedDirectionKeepsCase()
    ensures SortFieldOf(FieldPart("price,ASC")) == Price
    ensures DirectionOf(DirectionPart("price,ASC")) == "ASC"
  {
    assert "price" + "," + "ASC" == "price,ASC";
    SortParts("price", "ASC");
    assert ToLowerAscii("ASC") == "asc";
  }

  /** An unknown direction falls back alone: `price,up` is `price,desc`. */
  lemma UnknownDirectionKeepsField()
    ensures SortFieldOf(FieldPart("price,up")) == Price
    ensures DirectionOf(DirectionPart("price,up")) == "desc"
  {
    assert "price" + "," + "up" == "price,up";
    SortParts("price", "up");
    assert ToLowerAscii("up") == "up";
  }

  /** Without a comma there is no direction, so it is `desc`. */
  lemma MissingDirectionIsDesc()
    ensures SortFieldOf(FieldPart("price")) == Price
    ensures DirectionOf(DirectionPart("price")) == "desc"
  {
    SortWithoutComma("price");
  }

  // ---------------------------------------------------------------------------
  // Normalisation

  predicate WellFormed(q: ListQuery) {
    q.page >= 1 && 1 <= q.size <= MaxSize && IsDirection(q.direction)
  }

  /** The sort text the route splits: the parameter, or `updatedAt,desc`. */
  function SortText(raw: RawListQuery): string {
    raw.sort.GetOr(DefaultSort)
  }

  /**
   * Whether the requested column is an inherited object member, which the column
   * check as written lets through although the table has no such column.
   */
  predicate SortsByInheritedName(raw: RawListQuery) {
    FieldPart(SortText(raw)) in InheritedObjectKeys
  }

  /**
   * The normalised request the table is queried with, once the column check has
   * let a sortable column through (or fallen back to `updatedAt`).
   */
  function Normalize(raw: RawListQuery): (q: ListQuery)
    ensures WellFormed(q)
    ensures q.page == NormalPage(raw.page) && q.size == NormalSize(raw.size)
    ensures q.minPrice == raw.minPrice && q.maxPrice == raw.maxPrice
    ensures q.direction == DirectionOf(DirectionPart(SortText(raw)))
    ensures !SortsByInheritedName(raw) ==> FieldName(q.field) == SortFieldNameAsWritten(FieldPart(SortText(raw)))
  {
    SortFieldOfIsSortable(FieldPart(SortText(raw)));
    var sort := SortText(raw);
    ListQuery(
      NormalPage(raw.page),
      NormalSize(raw.size),
      SortFieldOf(FieldPart(sort)),
      DirectionOf(DirectionPart(sort)),
      raw.minPrice,
      raw.maxPrice)
  }

  lemma DefaultSortParts()
    ensures FieldPart(DefaultSort) == "updatedAt" && DirectionPart(DefaultSort) == Some("desc")
  {
    assert DefaultSort == "updatedAt" + "," + "desc";
    SortParts("updatedAt", "desc");
  }

  lemma DescIsDirection()
    ensures IsDirection("desc") && !IsAscending("desc")
  {
    assert ToLowerAscii("desc") == "desc";
  }

  /** An absent `sort` means `updatedAt,desc`. */
  lemma DefaultSortIsUpdatedAtDesc(raw: RawListQuery)
    requires raw.sort.None?
    ensures Normalize(raw).field == UpdatedAt && Normalize(raw).direction == "desc"
  {
    DefaultSortParts();
    DescIsDirection();
  }

  /** Omitting `size` and asking for the default size normalise the same. */
  lemma OmittedSizeIsDefaultSize(raw: RawListQuery)
    requires raw.size.None?
    ensures Normalize(raw) == Normalize(raw.(size := Some(DefaultSize)))
  {
  }

  function Skip(q: ListQuery): nat
    requires WellFormed(q)
  {
    (q.page - 1) * q.size
  }

  function Take(q: ListQuery): (take: nat)
    requires WellFormed(q)
    ensures 1 <= take <= MaxSize
  {
    q.size
  }

  // ---------------------------------------------------------------------------
  // Cache keys

  /** A bound as it appears in the key: empty when absent. */
  function BoundText(bound: Option<int>): (t: string)
    ensures t == [] <==> bound.None?
  {
    if bound.Some? then PriceText(bound.value) else ""
  }

  /** The list key: the list namespace, then the normalised query as labelled fields. */
  function ListKey(q: ListQuery): string {
    ListPrefix + QueryText(q)
  }

  function QueryText(q: ListQuery): string {
    KeyText(q.page, q.size, FieldName(q.field), q.direction, q.minPrice, q.maxPrice)
  }

  /** The labelled fields of a list key, the column given by its name. */
  function KeyText(page: nat, size: nat, field: string, direction: string, minPrice: Option<int>, maxPrice: Option<int>): string {
    "page=" + NatText(page) + "&size=" + NatText(size)
      + "&sort=" + field + "," + direction
      + "&min=" + BoundText(minPrice) + "&max=" + BoundText(maxPrice)
  }

  /** The key the route reads for a request, built from the column name the check as written lets through. */
  function ListKeyAsWritten(raw: RawListQuery): string {
    var sort := SortText(raw);
    ListPrefix + KeyText(NormalPage(raw.page), NormalSize(raw.size),
      SortFieldNameAsWritten(FieldPart(sort)), DirectionOf(DirectionPart(sort)), raw.minPrice, raw.maxPrice)
  }

  /** Unless an inherited member is asked for, the key the route reads is the key of the normalised request. */
  lemma ListKeyAsWrittenAgrees(raw: RawListQuery)
    requires !SortsByInheritedName(raw)
    ensures ListKeyAsWritten(raw) == ListKey(Normalize(raw))
  {
  }

  function ItemKey(id: string): string {
    ItemPrefix + id
  }

  lemma DigitsHaveNo(s: string, c: char)
    requires AllDigits(s) && !IsDigit(c)
    ensures c !in s
  {
  }

  lemma BoundTextAlphabet(bound: Option<int>)
    ensures '&' !in BoundText(bound) && '=' !in BoundText(bound)
  {
    if bound.Some? {
      PriceTextAlphabet(bound.value);
    }
  }

  lemma BoundTextInjective(a: Option<int>, b: Option<int>)
    requires BoundText(a) == BoundText(b)
    ensures a == b
  {
    if a.Some? && b.Some? {
      PriceTextInjective(a.value, b.value);
    }
  }

  /**
   * Equal keys come from equal normalised queries: the fields are labelled, in a
   * fixed order, and none of them can contain the separator that ends it.
   */
  lemma ListKeyInjective(q1: ListQuery, q2: ListQuery)
    requires WellFormed(q1) && WellFormed(q2)
    requires ListKey(q1) == ListKey(q2)
    ensures q1 == q2
  {
    var p1, p2 := NatText(q1.page), NatText(q2.page);
    var s1, s2 := NatText(q1.size), NatText(q2.size);
    var f1, f2 := FieldName(q1.field), FieldName(q2.field);
    var d1, d2 := q1.direction, q2.direction;
    var lo1, lo2 := BoundText(q1.minPrice), BoundText(q2.minPrice);
    var hi1, hi2 := BoundText(q1.maxPrice), BoundText(q2.maxPrice);
    // the key read from its end, one labelled field at a time
    DropCommonPrefix(ListPrefix, QueryText(q1), QueryText(q2));
    var k1a := "page=" + p1;
    var k1b := "page=" + p2;
    var k2a := k1a + "&size=" + s1;
    var k2b := k1b + "&size=" + s2;
    var k3a := k2a + "&sort=" + f1;
    var k3b := k2b + "&sort=" + f2;
    var k4a := k3a + "," + d1;
    var k4b := k3b + "," + d2;
    var k5a := k4a + "&min=" + lo1;
    var k5b := k4b + "&min=" + lo2;
    DigitsHaveNo(p1, '=');
    DigitsHaveNo(p2, '=');
    DigitsHaveNo(s1, '=');
    DigitsHaveNo(s2, '=');
    DirectionHasNoSeparator(d1);
    DirectionHasNoSeparator(d2);
    BoundTextAlphabet(q1.minPrice);
    BoundTextAlphabet(q2.minPrice);
    BoundTextAlphabet(q1.maxPrice);
    BoundTextAlphabet(q2.maxPrice);
    assert '=' !in f1 && '=' !in f2;

    LastFieldSplit(k5a, "&max=", hi1, k5b, hi2, '=');
    BoundTextInjective(q1.maxPrice, q2.maxPrice);
    LastFieldSplit(k4a, "&min=", lo1, k4b, lo2, '=');
    BoundTextInjective(q1.minPrice, q2.minPrice);
    LastFieldSplit(k3a, ",", d1, k3b, d2, ',');
    LastFieldSplit(k2a, "&sort=", f1, k2b, f2, '=');
    FieldNameInjective(q1.field, q2.field);
    LastFieldSplit(k1a, "&size=", s1, k1b, s2, '=');
    NatTextInjective(q1.size, q2.size);
    DropCommonPrefix("page=", p1, p2);
    NatTextInjective(q1.page, q2.page);
  }

  /** "No bound" and "bound 0" give different keys. */
  lemma AbsentBoundDiffersFromZero(q: ListQuery)
    requires WellFormed(q) && q.minPrice.None?
    ensures ListKey(q) != ListKey(q.(minPrice := Some(0)))
  {
    if ListKey(q) == ListKey(q.(minPrice := Some(0))) {
      ListKeyInjective(q, q.(minPrice := Some(0)));
    }
  }

  lemma ItemKeyInjective(a: string, b: string)
    requires ItemKey(a) == ItemKey(b)
    ensures a == b
  {
    DropCommonPrefix(ItemPrefix, a, b);
  }

  /** The namespaces are disjoint: no item key is a list key and no list key an item key. */
  lemma NamespacesDisjoint(q: ListQuery, id: string)
    ensures StartsWith(ListKey(q), ListPrefix) && !StartsWith(ListKey(q), ItemPrefix)
    ensures StartsWith(ItemKey(id), ItemPrefix) && !StartsWith(ItemKey(id), ListPrefix)
  {
    assert (ListPrefix + QueryText(q))[..|ListPrefix|] == ListPrefix;
    assert (ListPrefix + QueryText(q))[9] == ListPrefix[9] == 'l';
    assert (ItemPrefix + id)[..|ItemPrefix|] == ItemPrefix;
    assert (ItemPrefix + id)[9] == ItemPrefix[9] == 'b';
  }

  // ---------------------------------------------------------------------------
  // Price filter

  /** Both bounds: an inclusive range; one bound: a one-sided inclusive comparison; none: no filter. */
  function PriceFilterOf(minPrice: Option<int>, maxPrice: Option<int>): (f: PriceFilter)
    ensures minPrice.Some? && maxPrice.Some? ==> f == Between(minPrice.value, maxPrice.value)
    ensures minPrice.Some? && maxPrice.None? ==> f == AtLeast(minPrice.value)
    ensures minPrice.None? && maxPrice.Some? ==> f == AtMost(maxPrice.value)
    ensures minPrice.None? && maxPrice.None? ==> f == Unfiltered
  {
    if minPrice.Some? && maxPrice.Some? then Between(minPrice.value, maxPrice.value)
    else if minPrice.Some? then AtLeast(minPrice.value)
    else if maxPrice.Some? then AtMost(maxPrice.value)
    else Unfiltered
  }

  /** A price passes the filter exactly when it respects every bound given. */
  lemma PriceFilterMeaning(minPrice: Option<int>, maxPrice: Option<int>, cents: int)
    ensures Admits(PriceFilterOf(minPrice, maxPrice), cents)
        <==> (minPrice.Some? ==> minPrice.value <= cents) && (maxPrice.Some? ==> cents <= maxPrice.value)
  {
  }

  /** `min > max` is not an error: it selects nothing. */
  lemma InvertedRangeSelectsNothing(rows: Rows, lo: int, hi: int)
    requires lo > hi
    ensures MatchingIds(rows, PriceFilterOf(Some(lo), Some(hi))) == {}
  {
  }

  function Filter(q: ListQuery): PriceFilter {
    PriceFilterOf(q.minPrice, q.maxPrice)
  }

  // ---------------------------------------------------------------------------
  // Pages

  /** `Math.ceil(total / size)`. */
  function CeilDiv(total: nat, size: nat): (pages: nat)
    requires size >= 1
    ensures pages * size >= total
    ensures pages == 0 || (pages - 1) * size < total
    ensures total == 0 ==> pages == 0
  {
    var t := (total + size - 1) / size;
    assert (total + size - 1) == t * size + (total + size - 1) % size;
    assert t * size - size == (t - 1) * size;
    t
  }

  lemma MulMonotone(a: nat, b: nat, c: nat)
    requires a <= b
    ensures a * c <= b * c
  {
  }

  /** Page `page` holds rows exactly when it is not past `totalPages`. */
  lemma PageHasRowsIffWithinTotalPages(page: nat, size: nat, total: nat, skip: nat)
    requires page >= 1 && size >= 1 && skip == (page - 1) * size
    ensures skip < total <==> page <= CeilDiv(total, size)
  {
    var t := CeilDiv(total, size);
    if page <= t {
      MulMonotone(page - 1, t - 1, size);
    } else {
      MulMonotone(t, page - 1, size);
    }
  }

  /** The body of a list response. */
  datatype ListPage = ListPage(page: nat, size: nat, total: nat, totalPages: nat, items: seq<Product>)

  /** `page` is what the table yields for the normalised query `q`. */
  ghost predicate IsListing(rows: Rows, q: ListQuery, page: ListPage)
    requires WellFormed(q)
  {
    && page.page == q.page
    && page.size == q.size
    && page.total == |MatchingIds(rows, Filter(q))|
    && page.totalPages == CeilDiv(page.total, q.size)
    && exists ids :: SortedEnumeration(rows, Filter(q), q.field, IsAscending(q.direction), ids)
                     && |ids| == page.total
                     && page.items == Window(RowsOf(rows, ids), Skip(q), Take(q))
  }

  /** A listing echoes the normalised page and size and holds at most `size` rows. */
  lemma ListingBounded(rows: Rows, q: ListQuery, page: ListPage)
    requires WellFormed(q) && IsListing(rows, q, page)
    ensures page.page == q.page && page.size == q.size
    ensures |page.items| <= q.size
  {
    var ids :| SortedEnumeration(rows, Filter(q), q.field, IsAscending(q.direction), ids)
               && |ids| == page.total
               && page.items == Window(RowsOf(rows, ids), Skip(q), Take(q));
  }

  /** Every row of a listing is stored and admitted by the price filter. */
  lemma ListingRowsAdmitted(rows: Rows, q: ListQuery, page: ListPage)
    requires WellFormed(q) && IsListing(rows, q, page)
    ensures forall i | 0 <= i < |page.items| :: page.items[i] in rows.Values
              && Admits(Filter(q), page.items[i].priceCents)
  {
    var ids :| SortedEnumeration(rows, Filter(q), q.field, IsAscending(q.direction), ids)
               && |ids| == page.total
               && page.items == Window(RowsOf(rows, ids), Skip(q), Take(q));
    WindowOfEnumeration(rows, Filter(q), q.field, IsAscending(q.direction), ids, Skip(q), Take(q));
  }

  /** The rows of a listing come in the requested order. */
  lemma ListingOrdered(rows: Rows, q: ListQuery, page: ListPage)
    requires WellFormed(q) && IsListing(rows, q, page)
    ensures forall i, j | 0 <= i < j < |page.items| ::
              Before(q.field, IsAscending(q.direction), page.items[i], page.items[j])
  {
    var ids :| SortedEnumeration(rows, Filter(q), q.field, IsAscending(q.direction), ids)
               && |ids| == page.total
               && page.items == Window(RowsOf(rows, ids), Skip(q), Take(q));
    WindowOfEnumeration(rows, Filter(q), q.field, IsAscending(q.direction), ids, Skip(q), Take(q));
  }

  /** A listing is empty exactly when the page is past `totalPages`. */
  lemma ListingEmptyIffPastLastPage(rows: Rows, q: ListQuery, page: ListPage)
    requires WellFormed(q) && IsListing(rows, q, page)
    ensures page.items == [] <==> q.page > page.totalPages
  {
    var ids :| SortedEnumeration(rows, Filter(q), q.field, IsAscending(q.direction), ids)
               && |ids| == page.total
               && page.items == Window(RowsOf(rows, ids), Skip(q), Take(q));
    var skip := Skip(q);
    WindowOfEnumeration(rows, Filter(q), q.field, IsAscending(q.direction), ids, skip, Take(q));
    assert page.items == [] <==> skip >= page.total;
    PageHasRowsIffWithinTotalPages(q.page, q.size, page.total, skip);
  }

  /**
   * A listing echoes the normalised page and size, holds at most `size` rows, all
   * admitted by the price filter and in the requested order, and is empty exactly
   * when the page is past `totalPages`.
   */
  lemma ListingProperties(rows: Rows, q: ListQuery, page: ListPage)
    requires WellFormed(q) && IsListing(rows, q, page)
    ensures page.page == q.page && page.size == q.size
    ensures |page.items| <= q.size
    ensures forall i | 0 <= i < |page.items| :: page.items[i] in rows.Values
              && Admits(Filter(q), page.items[i].priceCents)
    ensures forall i, j | 0 <= i < j < |page.items| ::
              Before(q.field, IsAscending(q.direction), page.items[i], page.items[j])
    ensures page.items == [] <==> q.page > page.totalPages
  {
    ListingBounded(rows, q, page);
    ListingRowsAdmitted(rows, q, page);
    ListingOrdered(rows, q, page);
    ListingEmptyIffPastLastPage(rows, q, page);
  }

  /** Min > max: an empty page with total 0, not an error. */
  lemma InvertedRangeListing(rows: Rows, q: ListQuery, page: ListPage)
    requires WellFormed(q) && IsListing(rows, q, page)
    requires q.minPrice.Some? && q.maxPrice.Some? && q.minPrice.value > q.maxPrice.value
    ensures page.total == 0 && page.totalPages == 0 && page.items == []
  {
    InvertedRangeSelectsNothing(rows, q.minPrice.value, q.maxPrice.value);
    var ids :| SortedEnumeration(rows, Filter(q), q.field, IsAscending(q.direction), ids)
               && |ids| == page.total
               && page.items == Window(RowsOf(rows, ids), Skip(q), Take(q));
    assert |RowsOf(rows, ids)| == 0;
  }

  /** The total does not depend on which page is asked for. */
  lemma TotalIndependentOfPage(rows: Rows, q: ListQuery, other: nat, a: ListPage, b: ListPage)
    requires WellFormed(q) && other >= 1
    requires IsListing(rows, q, a) && IsListing(rows, q.(page := other), b)
    ensures a.total == b.total && a.totalPages == b.totalPages
  {
  }
}
