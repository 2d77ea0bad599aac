/**
 * The product table behind the ORM repository: a map from generated id to row,
 * with the constraints the database enforces on every write (unique `name`,
 * unique primary key, column ranges) and the queries the routes issue
 * (`findOne` by id or by name, `findAndCount` with a price filter, an order,
 * `skip` and `take`).
 */
module Repository {
  import opened Options
  import opened ProductEntity
  import opened Uuid

  /** The database errors a write can raise. */
  datatype WriteError =
    | UniqueViolation   // SQLSTATE 23505: the name (or the primary key) is taken
    | OutOfRange        // a value the column cannot hold (numeric or integer overflow)

  datatype WriteOutcome = Written(row: Product) | Rejected(error: WriteError)

  /** What `findOne({ where: { id } })` meets: the row, no row, or a text the `uuid` type refuses. */
  datatype FindResult = FoundRow(row: Product) | NoSuchRow | InvalidUuid

  /** The row a request's id text names: any spelling of the id finds the row stored under it. */
  function ById(rows: Rows, raw: string): (r: FindResult)
    ensures r.InvalidUuid? <==> UuidOf(raw).None?
    ensures r.FoundRow? <==> UuidOf(raw).Some? && UuidOf(raw).value in rows
    ensures r.FoundRow? ==> r.row == rows[UuidOf(raw).value]
  {
    match UuidOf(raw)
    case None => InvalidUuid
    case Some(id) => if id in rows then FoundRow(rows[id]) else NoSuchRow
  }

  /** A row as the database stores it on INSERT: both timestamps are the insertion time. */
  function NewRow(id: string, name: string, priceCents: int, stock: int, now: nat): (p: Product)
    ensures p.id == id && p.name == name && p.priceCents == priceCents && p.stock == stock
    ensures p.createdAt == now && p.updatedAt == now
  {
    Product(id, name, priceCents, stock, now, now)
  }

  /** What the database does with an INSERT of `p`: column checks first, then the unique indexes. */
  function InsertOutcome(rows: Rows, p: Product): (w: WriteOutcome)
    ensures w.Written? <==> FitsColumns(p) && p.id !in rows && !NameTaken(rows, p.name)
    ensures w == Rejected(UniqueViolation) <==> FitsColumns(p) && (p.id in rows || NameTaken(rows, p.name))
    ensures w.Written? ==> w.row == p
  {
    if !FitsColumns(p) then Rejected(OutOfRange)
    else if p.id in rows || NameTaken(rows, p.name) then Rejected(UniqueViolation)
    else Written(p)
  }

  /** What the database does with an UPDATE of the existing row `p.id` to `p`. */
  function UpdateOutcome(rows: Rows, p: Product): (w: WriteOutcome)
    ensures w.Written? <==> FitsColumns(p) && !NameTakenByOther(rows, p.name, p.id)
    ensures w == Rejected(UniqueViolation) <==> FitsColumns(p) && NameTakenByOther(rows, p.name, p.id)
    ensures w.Written? ==> w.row == p
  {
    if !FitsColumns(p) then Rejected(OutOfRange)
    else if NameTakenByOther(rows, p.name, p.id) then Rejected(UniqueViolation)
    else Written(p)
  }

  /**
   * The row `save` writes for a loaded entity: an entity identical to its stored row
   * issues no UPDATE and keeps its timestamp; otherwise `updatedAt` becomes the write time.
   */
  function Saved(rows: Rows, p: Product, now: nat): (q: Product)
    ensures q.id == p.id && q.name == p.name && q.priceCents == p.priceCents && q.stock == p.stock
    ensures q.createdAt == p.createdAt
    ensures q.updatedAt == if p.id in rows && p == rows[p.id] then p.updatedAt else now
  {
    if p.id in rows && p == rows[p.id] then p else p.(updatedAt := now)
  }

  /** The table after a write: the written row replaces or adds the row with its id. */
  function Applied(rows: Rows, w: WriteOutcome): Rows {
    if w.Written? then rows[w.row.id := w.row] else rows
  }

  /** The unique index makes the table the authority on names: no INSERT can duplicate one. */
  lemma InsertKeepsInvariant(rows: Rows, p: Product)
    requires TableInvariant(rows)
    ensures TableInvariant(Applied(rows, InsertOutcome(rows, p)))
    ensures InsertOutcome(rows, p).Written? ==> Applied(rows, InsertOutcome(rows, p)) == rows[p.id := p]
  {
    var w := InsertOutcome(rows, p);
    if w.Written? {
      assert forall b | b in rows :: rows[b].name != p.name;
    }
  }

  lemma UpdateKeepsInvariant(rows: Rows, p: Product)
    requires TableInvariant(rows) && p.id in rows
    ensures TableInvariant(Applied(rows, UpdateOutcome(rows, p)))
    ensures Applied(rows, UpdateOutcome(rows, p)).Keys == rows.Keys
  {
    var w := UpdateOutcome(rows, p);
    if w.Written? {
      assert forall b | b in rows && b != p.id :: rows[b].name != p.name;
    }
  }

  lemma RemoveKeepsInvariant(rows: Rows, id: string)
    requires TableInvariant(rows)
    ensures TableInvariant(rows - {id}) && id !in rows - {id}
  {
  }

  // ---------------------------------------------------------------------------
  // Listing

  /** The `where.price` clause: `Between` and the two one-sided comparisons, all inclusive. */
  datatype PriceFilter = Unfiltered | Between(lo: int, hi: int) | AtLeast(lo: int) | AtMost(hi: int)

  predicate Admits(filter: PriceFilter, cents: int) {
    match filter
    case Unfiltered => true
    case Between(lo, hi) => lo <= cents <= hi
    case AtLeast(lo) => lo <= cents
    case AtMost(hi) => cents <= hi
  }

  /** The ids of the rows a filter selects. */
  function MatchingIds(rows: Rows, filter: PriceFilter): (ids: set<string>)
    ensures forall id :: id in ids <==> id in rows && Admits(filter, rows[id].priceCents)
  {
    set id | id in rows && Admits(filter, rows[id].priceCents)
  }

  /** `m` may be listed before every id in `s`. */
  predicate IsFirstInOrder(rows: Rows, field: SortField, ascending: bool, m: string, s: set<string>)
    requires m in rows && s <= rows.Keys
  {
    forall k | k in s :: Before(field, ascending, rows[m], rows[k])
  }

  /** Adding `x` to a set with a first element `m`: either `m` stays first or `x` comes before all. */
  lemma FirstInOrderExtend(rows: Rows, field: SortField, ascending: bool, m: string, x: string, s: set<string>)
    requires m in s && s <= rows.Keys && x in rows
    requires IsFirstInOrder(rows, field, ascending, m, s)
    ensures IsFirstInOrder(rows, field, ascending, m, s + {x}) || IsFirstInOrder(rows, field, ascending, x, s + {x})
  {
    BeforeTotal(field, ascending, rows[m], rows[x]);
    if !Before(field, ascending, rows[m], rows[x]) {
      BeforeTotal(field, ascending, rows[x], rows[x]);
      forall k | k in s
        ensures Before(field, ascending, rows[x], rows[k])
      {
        BeforeTransitive(field, ascending, rows[x], rows[m], rows[k]);
      }
    }
  }

  lemma {:induction false} FirstInOrderExists(rows: Rows, field: SortField, ascending: bool, s: set<string>)
    requires s != {} && s <= rows.Keys
    ensures exists m :: m in s && IsFirstInOrder(rows, field, ascending, m, s)
    decreases s
  {
    var x :| x in s;
    if s == {x} {
      BeforeTotal(field, ascending, rows[x], rows[x]);
      assert IsFirstInOrder(rows, field, ascending, x, s);
    } else {
      var smaller := s - {x};
      FirstInOrderExists(rows, field, ascending, smaller);
      var m :| m in smaller && IsFirstInOrder(rows, field, ascending, m, smaller);
      FirstInOrderExtend(rows, field, ascending, m, x, smaller);
      assert smaller + {x} == s;
    }
  }

  /**
   * `ids` lists every row the filter selects, each once, in an order the
   * ORDER BY allows (rows that tie on the column may come in either order).
   */
  ghost predicate SortedEnumeration(rows: Rows, filter: PriceFilter, field: SortField, ascending: bool, ids: seq<string>) {
    && (forall i | 0 <= i < |ids| :: ids[i] in MatchingIds(rows, filter))
    && (forall id | id in MatchingIds(rows, filter) :: id in ids)
    && (forall i, j | 0 <= i < j < |ids| :: ids[i] != ids[j])
    && (forall i, j | 0 <= i < j < |ids| :: Before(field, ascending, rows[ids[i]], rows[ids[j]]))
  }

  function RowsOf(rows: Rows, ids: seq<string>): (r: seq<Product>)
    requires forall i | 0 <= i < |ids| :: ids[i] in rows
    ensures |r| == |ids| && forall i | 0 <= i < |ids| :: r[i] == rows[ids[i]]
  {
    seq(|ids|, i requires 0 <= i < |ids| => rows[ids[i]])
  }

  /** `skip` then `take`: the part of `s` from position `skip` on, at most `take` long. */
  function Window<T>(s: seq<T>, skip: nat, take: nat): (w: seq<T>)
    ensures |w| <= take
    ensures skip >= |s| ==> w == []
    ensures skip < |s| ==> |w| == if |s| - skip < take then |s| - skip else take
    ensures forall i | 0 <= i < |w| :: skip + i < |s| && w[i] == s[skip + i]
  {
    if skip >= |s| then [] else s[skip..if skip + take < |s| then skip + take else |s|]
  }

  /** A window of a sorted enumeration holds selected rows, in order, and is empty exactly when it starts past the end. */
  lemma WindowOfEnumeration(rows: Rows, filter: PriceFilter, field: SortField, ascending: bool, ids: seq<string>, skip: nat, take: nat)
    requires SortedEnumeration(rows, filter, field, ascending, ids)
    ensures var items := Window(RowsOf(rows, ids), skip, take);
      && (forall i | 0 <= i < |items| :: items[i] in rows.Values && Admits(filter, items[i].priceCents))
      && (forall i, j | 0 <= i < j < |items| :: Before(field, ascending, items[i], items[j]))
      && (take >= 1 ==> (items == [] <==> skip >= |ids|))
  {
    var all := RowsOf(rows, ids);
    var items := Window(all, skip, take);
    forall i | 0 <= i < |items|
      ensures items[i] in rows.Values && Admits(filter, items[i].priceCents)
    {
      assert items[i] == all[skip + i] == rows[ids[skip + i]];
      assert ids[skip + i] in MatchingIds(rows, filter);
    }
    forall i, j | 0 <= i < j < |items|
      ensures Before(field, ascending, items[i], items[j])
    {
      assert items[i] == rows[ids[skip + i]];
      assert items[j] == rows[ids[skip + j]];
    }
  }

  /**
   * The state of a selection sort part way: `ids` holds the rows chosen so far, in
   * order, each before every row still in `rest`; together they cover `matching` once.
   */
  ghost predicate PartialSelection(rows: Rows, matching: set<string>, field: SortField, ascending: bool,
                                   ids: seq<string>, rest: set<string>) {
    && rest <= matching && matching <= rows.Keys
    && |ids| + |rest| == |matching|
    && (forall i | 0 <= i < |ids| :: ids[i] in matching && ids[i] !in rest)
    && (forall id | id in matching :: id in rest || id in ids)
    && (forall i, j | 0 <= i < j < |ids| :: ids[i] != ids[j])
    && (forall i, j | 0 <= i < j < |ids| :: Before(field, ascending, rows[ids[i]], rows[ids[j]]))
    && (forall i, k | 0 <= i < |ids| && k in rest :: Before(field, ascending, rows[ids[i]], rows[k]))
  }

  /** Moving a first row of `rest` to the end of `ids` keeps the selection consistent. */
  lemma SelectionStep(rows: Rows, matching: set<string>, field: SortField, ascending: bool,
                      ids: seq<string>, rest: set<string>, m: string)
    requires PartialSelection(rows, matching, field, ascending, ids, rest)
    requires m in rest && IsFirstInOrder(rows, field, ascending, m, rest)
    ensures PartialSelection(rows, matching, field, ascending, ids + [m], rest - {m})
  {
    var next := ids + [m];
    assert forall i | 0 <= i < |ids| :: next[i] == ids[i];
    assert next[|ids|] == m;
  }

  class ProductRepository {
    var rows: Rows

    ghost predicate Valid()
      reads this
    {
      TableInvariant(rows)
    }

    constructor ()
      ensures Valid() && rows == map[]
    {
      rows := map[];
    }

    /** `findOne({ where: { id } })`, the id being the text of the request's path. */
    method FindById(raw: string) returns (r: FindResult)
      ensures r == ById(rows, raw)
      ensures KeyedById(rows) && r.FoundRow? ==> UuidOf(raw) == Some(r.row.id)
    {
      var id := UuidOf(raw);
      if id.None? {
        return InvalidUuid;
      }
      if id.value in rows {
        r := FoundRow(rows[id.value]);
      } else {
        r := NoSuchRow;
      }
    }

    /** `findOne({ where: { name } })`: some row with exactly this name, if there is one. */
    method FindByName(name: string) returns (row: Option<Product>)
      requires KeyedById(rows)
      ensures row.Some? <==> NameTaken(rows, name)
      ensures row.Some? ==> row.value.id in rows && rows[row.value.id] == row.value && row.value.name == name
    {
      var unseen := rows.Keys;
      while unseen != {}
        invariant unseen <= rows.Keys
        invariant forall id | id in rows && id !in unseen :: rows[id].name != name
        decreases unseen
      {
        var id :| id in unseen;
        if rows[id].name == name {
          return Some(rows[id]);
        }
        unseen := unseen - {id};
      }
      return None;
    }

    /** `save` of a new entity: an INSERT whose timestamps the database assigns. */
    method Insert(id: string, name: string, priceCents: int, stock: int, now: nat) returns (w: WriteOutcome)
      requires Valid()
      modifies this
      ensures Valid()
      ensures w == InsertOutcome(old(rows), NewRow(id, name, priceCents, stock, now))
      ensures rows == Applied(old(rows), w)
    {
      var p := NewRow(id, name, priceCents, stock, now);
      InsertKeepsInvariant(rows, p);
      if !FitsColumns(p) {
        w := Rejected(OutOfRange);
      } else if id in rows {
        w := Rejected(UniqueViolation);
      } else {
        var clash := FindByName(name);
        if clash.Some? {
          w := Rejected(UniqueViolation);
        } else {
          w := Written(p);
          rows := rows[id := p];
        }
      }
    }

    /** `save` of a loaded entity. */
    method Update(p: Product, now: nat) returns (w: WriteOutcome)
      requires Valid() && p.id in rows
      modifies this
      ensures Valid()
      ensures w == UpdateOutcome(old(rows), Saved(old(rows), p, now))
      ensures rows == Applied(old(rows), w)
    {
      var q := Saved(rows, p, now);
      UpdateKeepsInvariant(rows, q);
      if !FitsColumns(q) {
        w := Rejected(OutOfRange);
      } else {
        var clash := FindByName(q.name);
        if clash.Some? && clash.value.id != q.id {
          w := Rejected(UniqueViolation);
        } else {
          assert !NameTakenByOther(rows, q.name, q.id);
          w := Written(q);
          rows := rows[q.id := q];
        }
      }
    }

    /** `remove` of a loaded entity. */
    method Remove(id: string)
      requires Valid()
      modifies this
      ensures Valid()
      ensures rows == old(rows) - {id}
    {
      rows := rows - {id};
    }

    /**
     * `findAndCount({ where, order, skip, take })`: the number of rows the
     * filter selects, and the window `skip`/`take` of them in the requested order.
     */
    method FindAndCount(filter: PriceFilter, field: SortField, ascending: bool, skip: nat, take: nat)
      returns (items: seq<Product>, total: nat)
      ensures total == |MatchingIds(rows, filter)|
      ensures exists ids :: SortedEnumeration(rows, filter, field, ascending, ids) && |ids| == total
                            && items == Window(RowsOf(rows, ids), skip, take)
    {
      var matching := MatchingIds(rows, filter);
      var rest := matching;
      var ids: seq<string> := [];
      while rest != {}
        invariant PartialSelection(rows, matching, field, ascending, ids, rest)
        decreases rest
      {
        FirstInOrderExists(rows, field, ascending, rest);
        var m :| m in rest && IsFirstInOrder(rows, field, ascending, m, rest);
        SelectionStep(rows, matching, field, ascending, ids, rest, m);
        ids := ids + [m];
        rest := rest - {m};
      }
      assert SortedEnumeration(rows, filter, field, ascending, ids);
      total := |ids|;
      items := Window(RowsOf(rows, ids), skip, take);
    }
  }
}
