/**
 * What each product route answers and what it leaves in the table, as functions
 * of the table before the request: request validation, the duplicate-name
 * pre-check, the store's own verdict and its mapping to a status. The read
 * routes' results are stated against the cache contents, together with the
 * coherence property the invalidations maintain.
 */
module Catalog {
  import opened Options
  import opened Text
  import opened ProductEntity
  import opened Repository
  import opened RedisCache
  import opened ListQuery
  import opened Uuid

  /** What the cache holds: a single product or a listing page. */
  datatype Payload = Item(product: Product) | Page(listing: ListPage)

  /** The HTTP outcome of a request. */
  datatype Reply =
    | Created(row: Product)      // 201 with the stored row
    | Ok(payload: Payload)       // 200 with a product or a page
    | NoContent                  // 204
    | NotFound                   // 404
    | Conflict                   // 409: the name is taken
    | BadRequest                 // 400: the body fails validation
    | Failed                     // any other error, passed to the error handler

  /** A create body after type conversion; the price is in cents. */
  datatype CreateBody = CreateBody(name: string, priceCents: int, stock: int)

  /**
   * One field of a patch body: left out (`undefined`), sent as JSON `null`, or
   * sent with a value. `@IsOptional()` skips validation for the first two alike,
   * while the route tests only `!== undefined`.
   */
  datatype Field<T> = Absent | Null | Given(value: T)

  /** A patch body; the price is in cents. */
  datatype PatchBody = PatchBody(name: Field<string>, priceCents: Field<int>, stock: Field<int>)

  /** The reply to a request and the table it leaves behind. */
  datatype Step = Step(reply: Reply, rows: Rows)

  /** Seconds a cached product and a cached page live. */
  const ItemTtl := 60
  const ListTtl := 30

  // ---------------------------------------------------------------------------
  // Validation

  /** The create body rules as written: the name length is checked before trimming. */
  predicate CreateBodyValidAsWritten(body: CreateBody) {
    ValidName(body.name) && body.priceCents >= 0 && body.stock >= 0
  }

  /** The create body rules, with the length rule also applied to the name that is stored. */
  predicate CreateBodyValid(body: CreateBody) {
    CreateBodyValidAsWritten(body) && ValidName(Trim(body.name))
  }

  /** The patch rules as written: each field sent with a value obeys its rule, the name before trimming. */
  predicate PatchValidAsWritten(patch: PatchBody) {
    && (patch.name.Given? ==> ValidName(patch.name.value))
    && (patch.priceCents.Given? ==> patch.priceCents.value >= 0)
    && (patch.stock.Given? ==> patch.stock.value >= 0)
  }

  /** The patch rules, with `null` refused and the length rule also applied to the trimmed name. */
  predicate PatchValid(patch: PatchBody) {
    && PatchValidAsWritten(patch)
    && !patch.name.Null? && !patch.priceCents.Null? && !patch.stock.Null?
    && (patch.name.Given? ==> ValidName(Trim(patch.name.value)))
  }

  // ---------------------------------------------------------------------------
  // Create

  /** POST /products: validate, trim, pre-check the name, insert. */
  function CreateStep(rows: Rows, body: CreateBody, newId: string, now: nat): Step {
    if !CreateBodyValidAsWritten(body) then Step(BadRequest, rows)
    else
      var name := Trim(body.name);
      if NameTaken(rows, name) then Step(Conflict, rows)
      else
        match InsertOutcome(rows, NewRow(newId, name, body.priceCents, body.stock, now))
        case Written(row) => Step(Created(row), rows[row.id := row])
        case Rejected(UniqueViolation) => Step(Conflict, rows)
        case Rejected(OutOfRange) => Step(Failed, rows)
  }

  /** POST /products with the length rule applied to the trimmed name as well. */
  function CreateStepCorrected(rows: Rows, body: CreateBody, newId: string, now: nat): Step {
    if !CreateBodyValid(body) then Step(BadRequest, rows) else CreateStep(rows, body, newId, now)
  }

  /** A create succeeds exactly when the body passes the rules, the trimmed name and the id are free, and the numbers fit their columns. */
  lemma CreateSucceedsIff(rows: Rows, body: CreateBody, newId: string, now: nat)
    ensures CreateStep(rows, body, newId, now).reply.Created? <==>
      && CreateBodyValidAsWritten(body)
      && !NameTaken(rows, Trim(body.name))
      && newId !in rows
      && body.priceCents < PriceCentsLimit
      && body.stock <= MaxInt4
  {
  }

  /**
   * A successful create stores the trimmed name and the given numbers under the
   * new id, stamped now, within the columns, and touches no other row.
   */
  lemma CreateStoresTrimmedRow(rows: Rows, body: CreateBody, newId: string, now: nat)
    requires CreateStep(rows, body, newId, now).reply.Created?
    ensures var s := CreateStep(rows, body, newId, now);
      && s.reply.row.id == newId && s.reply.row.name == Trim(body.name)
      && s.reply.row.priceCents == body.priceCents && s.reply.row.stock == body.stock
      && s.reply.row.createdAt == now && s.reply.row.updatedAt == now
      && FitsColumns(s.reply.row) && ValidPrice(s.reply.row.priceCents) && ValidStock(s.reply.row.stock)
      && s.rows.Keys == rows.Keys + {newId} && newId !in rows
      && s.rows[newId] == s.reply.row
      && forall id | id in rows :: s.rows[id] == rows[id]
  {
    var p := NewRow(newId, Trim(body.name), body.priceCents, body.stock, now);
    assert InsertOutcome(rows, p) == Written(p);
  }

  /** A create that does not succeed leaves the table as it was; a body breaking the rules is 400, and only such a body is. */
  lemma CreateFailureLeavesRows(rows: Rows, body: CreateBody, newId: string, now: nat)
    ensures var s := CreateStep(rows, body, newId, now);
      && (!s.reply.Created? ==> s.rows == rows)
      && (s.reply == BadRequest <==> !CreateBodyValidAsWritten(body))
  {
    if CreateBodyValidAsWritten(body) && !NameTaken(rows, Trim(body.name)) {
      var w := InsertOutcome(rows, NewRow(newId, Trim(body.name), body.priceCents, body.stock, now));
      assert CreateStep(rows, body, newId, now).reply.Created? == w.Written?;
    }
  }

  /**
   * A create is 409 exactly when the body passes the rules and either the pre-check
   * finds the trimmed name taken or the insert hits the primary key with values that fit.
   */
  lemma CreateConflictIff(rows: Rows, body: CreateBody, newId: string, now: nat)
    ensures CreateStep(rows, body, newId, now).reply == Conflict <==>
      && CreateBodyValidAsWritten(body)
      && (|| NameTaken(rows, Trim(body.name))
          || (newId in rows && body.priceCents < PriceCentsLimit && body.stock <= MaxInt4))
  {
    if CreateBodyValidAsWritten(body) && !NameTaken(rows, Trim(body.name)) {
      var p := NewRow(newId, Trim(body.name), body.priceCents, body.stock, now);
      assert FitsColumns(p) <==> body.priceCents < PriceCentsLimit && body.stock <= MaxInt4;
    }
  }

  /** A create fails with a server error exactly when a valid body with a free name carries a number its column cannot hold. */
  lemma CreateFailedIff(rows: Rows, body: CreateBody, newId: string, now: nat)
    ensures CreateStep(rows, body, newId, now).reply == Failed <==>
      && CreateBodyValidAsWritten(body)
      && !NameTaken(rows, Trim(body.name))
      && (body.priceCents >= PriceCentsLimit || body.stock > MaxInt4)
  {
    if CreateBodyValidAsWritten(body) && !NameTaken(rows, Trim(body.name)) {
      var p := NewRow(newId, Trim(body.name), body.priceCents, body.stock, now);
      assert FitsColumns(p) <==> body.priceCents < PriceCentsLimit && body.stock <= MaxInt4;
    }
  }

  /** Creating keeps the table's constraints. */
  lemma CreateKeepsInvariant(rows: Rows, body: CreateBody, newId: string, now: nat)
    requires TableInvariant(rows)
    ensures TableInvariant(CreateStep(rows, body, newId, now).rows)
  {
    if CreateBodyValidAsWritten(body) && !NameTaken(rows, Trim(body.name)) {
      InsertKeepsInvariant(rows, NewRow(newId, Trim(body.name), body.priceCents, body.stock, now));
    }
  }

  /** With the trimmed-name rule, creating also keeps every row valid, and otherwise answers as the route does. */
  lemma CorrectedCreateKeepsValidity(rows: Rows, body: CreateBody, newId: string, now: nat)
    requires TableInvariant(rows)
    ensures var s := CreateStepCorrected(rows, body, newId, now);
      && TableInvariant(s.rows)
      && (AllValid(rows) ==> AllValid(s.rows))
      && (s.reply == BadRequest || s == CreateStep(rows, body, newId, now))
  {
    if CreateBodyValid(body) {
      CreateKeepsInvariant(rows, body, newId, now);
      if CreateStep(rows, body, newId, now).reply.Created? {
        CreateStoresTrimmedRow(rows, body, newId, now);
      } else {
        CreateFailureLeavesRows(rows, body, newId, now);
      }
    }
  }

  /** Of two creates with the same trimmed name, the second never succeeds once the first has. */
  lemma SameNameCreatedOnce(rows: Rows, b1: CreateBody, id1: string, t1: nat, b2: CreateBody, id2: string, t2: nat)
    requires Trim(b1.name) == Trim(b2.name)
    requires CreateStep(rows, b1, id1, t1).reply.Created?
    ensures !CreateStep(CreateStep(rows, b1, id1, t1).rows, b2, id2, t2).reply.Created?
  {
    var s1 := CreateStep(rows, b1, id1, t1);
    CreateStoresTrimmedRow(rows, b1, id1, t1);
    assert id1 in s1.rows && s1.rows[id1].name == Trim(b2.name);
    assert NameTaken(s1.rows, Trim(b2.name));
    CreateSucceedsIff(s1.rows, b2, id2, t2);
  }

  // ---------------------------------------------------------------------------
  // Update

  /** The name a sent `name` field asks for: `String(name).trim()`, which is "null" for `null`. */
  function RequestedName(name: Field<string>): Option<string> {
    match name
    case Absent => None
    case Null => Some("null")
    case Given(n) => Some(Trim(n))
  }

  /** `Number(x)` of a sent numeric field, which is 0 for `null`. */
  function RequestedNumber(x: Field<int>): Option<int> {
    match x
    case Absent => None
    case Null => Some(0)
    case Given(v) => Some(v)
  }

  /** The loaded row with every sent field of the patch applied. */
  function Patched(item: Product, patch: PatchBody): Product {
    item.(name := RequestedName(patch.name).GetOr(item.name),
          priceCents := RequestedNumber(patch.priceCents).GetOr(item.priceCents),
          stock := RequestedNumber(patch.stock).GetOr(item.stock))
  }

  /** The pre-check: a new name (after trimming) that another row already carries. */
  predicate NameClash(rows: Rows, item: Product, patch: PatchBody) {
    var next := RequestedName(patch.name);
    next.Some? && next.value != item.name && NameTaken(rows, next.value)
  }

  /** PATCH /products/:id: load, validate, pre-check a changed name, save. */
  function UpdateStep(rows: Rows, id: string, patch: PatchBody, now: nat): Step {
    if id !in rows then Step(NotFound, rows)
    else if !PatchValidAsWritten(patch) then Step(BadRequest, rows)
    else if NameClash(rows, rows[id], patch) then Step(Conflict, rows)
    else
      match UpdateOutcome(rows, Saved(rows, Patched(rows[id], patch), now))
      case Written(row) => Step(Ok(Item(row)), rows[row.id := row])
      case Rejected(UniqueViolation) => Step(Conflict, rows)
      case Rejected(OutOfRange) => Step(Failed, rows)
  }

  /** PATCH /products/:id with `null` fields refused and the length rule applied to the trimmed name. */
  function UpdateStepCorrected(rows: Rows, id: string, patch: PatchBody, now: nat): Step {
    if id in rows && !PatchValid(patch) then Step(BadRequest, rows) else UpdateStep(rows, id, patch, now)
  }

  /**
   * PATCH /products/:id, named by the text of the path: the database reads the text
   * as a `uuid` (refusing it is an error) and the row under that id is patched.
   */
  function UpdateRequest(rows: Rows, raw: string, patch: PatchBody, now: nat): Step {
    match UuidOf(raw)
    case None => Step(Failed, rows)
    case Some(id) => UpdateStep(rows, id, patch, now)
  }

  /**
   * The row is looked up before the body is validated: a text naming no row is 404
   * whatever the body, one the `uuid` type refuses is an error, and neither writes.
   */
  lemma UpdateMissingIsNotFound(rows: Rows, raw: string, patch: PatchBody, now: nat)
    ensures UpdateRequest(rows, raw, patch, now).reply == NotFound <==> ById(rows, raw).NoSuchRow?
    ensures ById(rows, raw).NoSuchRow? ==> UpdateRequest(rows, raw, patch, now).rows == rows
    ensures ById(rows, raw).InvalidUuid? ==> UpdateRequest(rows, raw, patch, now) == Step(Failed, rows)
  {
    match UuidOf(raw)
    case None =>
    case Some(id) => UpdateStepNotFoundIff(rows, id, patch, now);
  }

  /** The same for an id already read: 404 exactly when no row has it, and then nothing changes. */
  lemma UpdateStepNotFoundIff(rows: Rows, id: string, patch: PatchBody, now: nat)
    ensures UpdateStep(rows, id, patch, now).reply == NotFound <==> id !in rows
    ensures id !in rows ==> UpdateStep(rows, id, patch, now).rows == rows
  {
    if id in rows && PatchValidAsWritten(patch) && !NameClash(rows, rows[id], patch) {
      match UpdateOutcome(rows, Saved(rows, Patched(rows[id], patch), now))
      case Written(_) =>
      case Rejected(_) =>
    }
  }

  /** A patch of an existing row is 400, changing nothing, exactly when a field sent with a value breaks its rule. */
  lemma UpdateInvalidIsBadRequest(rows: Rows, id: string, patch: PatchBody, now: nat)
    requires id in rows
    ensures UpdateStep(rows, id, patch, now).reply == BadRequest <==> !PatchValidAsWritten(patch)
    ensures !PatchValidAsWritten(patch) ==> UpdateStep(rows, id, patch, now).rows == rows
  {
  }

  /**
   * A successful patch changes the sent fields only: a name becomes its trim and a
   * `null` name "null", a number its value and a `null` number 0. It keeps the id and
   * creation time, stamps the row now when anything changed, and leaves every other
   * row alone.
   */
  lemma UpdateChangesOnlyGivenFields(rows: Rows, id: string, patch: PatchBody, now: nat)
    requires KeyedById(rows)
    requires UpdateStep(rows, id, patch, now).reply.Ok?
    ensures var s := UpdateStep(rows, id, patch, now);
      && id in rows && s.rows.Keys == rows.Keys
      && s.reply == Ok(Item(s.rows[id]))
      && s.rows[id].id == id && s.rows[id].createdAt == rows[id].createdAt
      && s.rows[id].name == (match patch.name
           case Absent => rows[id].name case Null => "null" case Given(n) => Trim(n))
      && s.rows[id].priceCents == (match patch.priceCents
           case Absent => rows[id].priceCents case Null => 0 case Given(v) => v)
      && s.rows[id].stock == (match patch.stock
           case Absent => rows[id].stock case Null => 0 case Given(v) => v)
      && (s.rows[id] != rows[id] ==> s.rows[id].updatedAt == now)
      && forall k | k in rows && k != id :: s.rows[k] == rows[k]
  {
  }

  /** An empty patch answers the row as stored and writes nothing. */
  lemma EmptyPatchWritesNothing(rows: Rows, id: string, now: nat)
    requires TableInvariant(rows) && id in rows
    ensures UpdateStep(rows, id, PatchBody(Absent, Absent, Absent), now) == Step(Ok(Item(rows[id])), rows)
  {
    UniqueNamesSingleOwner(rows, id);
    assert Patched(rows[id], PatchBody(Absent, Absent, Absent)) == rows[id];
    assert rows[rows[id].id := rows[id]] == rows;
  }

  /** Resubmitting a row's own name is never a conflict. */
  lemma UpdateOwnNameNeverConflicts(rows: Rows, id: string, patch: PatchBody, now: nat)
    requires TableInvariant(rows) && id in rows
    requires patch.name.Given? && Trim(patch.name.value) == rows[id].name
    ensures UpdateStep(rows, id, patch, now).reply != Conflict
  {
    UniqueNamesSingleOwner(rows, id);
  }

  /** In a table that keeps its constraints, a patch conflicts exactly when the pre-check finds its new name taken. */
  lemma UpdateConflictIff(rows: Rows, id: string, patch: PatchBody, now: nat)
    requires TableInvariant(rows)
    ensures UpdateStep(rows, id, patch, now).reply == Conflict <==>
      id in rows && PatchValidAsWritten(patch) && NameClash(rows, rows[id], patch)
  {
    if id in rows && PatchValidAsWritten(patch) && !NameClash(rows, rows[id], patch) {
      var p := Saved(rows, Patched(rows[id], patch), now);
      assert !NameTakenByOther(rows, p.name, p.id) by {
        UniqueNamesSingleOwner(rows, id);
        var next := RequestedName(patch.name);
        if next.Some? && next.value != rows[id].name {
          assert !NameTaken(rows, p.name);
        }
      }
    }
  }

  /** Patching keeps the table's constraints. */
  lemma UpdateKeepsInvariant(rows: Rows, id: string, patch: PatchBody, now: nat)
    requires TableInvariant(rows)
    ensures TableInvariant(UpdateStep(rows, id, patch, now).rows)
  {
    var s := UpdateStep(rows, id, patch, now);
    if id in rows && PatchValidAsWritten(patch) && !NameClash(rows, rows[id], patch) {
      var p := Saved(rows, Patched(rows[id], patch), now);
      Repository.UpdateKeepsInvariant(rows, p);
      assert s.rows == Applied(rows, UpdateOutcome(rows, p));
    } else {
      assert s.rows == rows;
    }
  }

  /** With `null` refused and the trimmed-name rule, patching also keeps every row valid, and otherwise answers as the route does. */
  lemma CorrectedUpdateKeepsValidity(rows: Rows, id: string, patch: PatchBody, now: nat)
    requires TableInvariant(rows)
    ensures var s := UpdateStepCorrected(rows, id, patch, now);
      && TableInvariant(s.rows)
      && (AllValid(rows) ==> AllValid(s.rows))
      && (s.reply == BadRequest || s == UpdateStep(rows, id, patch, now))
  {
    var s := UpdateStepCorrected(rows, id, patch, now);
    if id in rows && PatchValid(patch) {
      UpdateKeepsInvariant(rows, id, patch, now);
      if AllValid(rows) && s.reply.Ok? {
        UpdateChangesOnlyGivenFields(rows, id, patch, now);
        assert ValidProduct(s.rows[id]);
      }
    }
  }

  /** With `null` refused, a successful patch changes exactly the fields sent with a value. */
  lemma CorrectedPatchChangesOnlyGivenValues(rows: Rows, id: string, patch: PatchBody, now: nat)
    requires KeyedById(rows)
    requires UpdateStepCorrected(rows, id, patch, now).reply.Ok?
    ensures var s := UpdateStepCorrected(rows, id, patch, now);
      && !patch.name.Null? && !patch.priceCents.Null? && !patch.stock.Null?
      && id in rows && s.rows.Keys == rows.Keys
      && s.rows[id].name == (if patch.name.Given? then Trim(patch.name.value) else rows[id].name)
      && s.rows[id].priceCents == (if patch.priceCents.Given? then patch.priceCents.value else rows[id].priceCents)
      && s.rows[id].stock == (if patch.stock.Given? then patch.stock.value else rows[id].stock)
      && forall k | k in rows && k != id :: s.rows[k] == rows[k]
  {
    UpdateChangesOnlyGivenFields(rows, id, patch, now);
  }

  // ---------------------------------------------------------------------------
  // What the rules as written let through

  /**
   * A name of blanks passes the length rule as written, for a create and for a
   * patch, and the trimmed-name rule refuses it.
   */
  lemma BlankNamePassesRuleAsWritten()
    ensures Trim("   ") == ""
    ensures CreateBodyValidAsWritten(CreateBody("   ", 0, 0)) && !CreateBodyValid(CreateBody("   ", 0, 0))
    ensures PatchValidAsWritten(PatchBody(Given("   "), Absent, Absent))
    ensures !PatchValid(PatchBody(Given("   "), Absent, Absent))
  {
    assert AllSpace("   ");
    TrimAllSpace("   ");
  }

  /** A create named with blanks stores a row with the empty name. */
  lemma BlankNameCreatesEmptyName(rows: Rows, newId: string, now: nat)
    requires newId !in rows && !NameTaken(rows, "")
    ensures var s := CreateStep(rows, CreateBody("   ", 0, 0), newId, now);
      s.reply.Created? && s.reply.row.name == "" && newId in s.rows && !ValidProduct(s.rows[newId])
  {
    var body := CreateBody("   ", 0, 0);
    BlankNamePassesRuleAsWritten();
    CreateSucceedsIff(rows, body, newId, now);
    CreateStoresTrimmedRow(rows, body, newId, now);
  }

  /** A patch naming a row with blanks stores the empty name. */
  lemma BlankNamePatchesToEmptyName(rows: Rows, id: string, now: nat)
    requires TableInvariant(rows) && id in rows && !NameTaken(rows, "")
    ensures var s := UpdateStep(rows, id, PatchBody(Given("   "), Absent, Absent), now);
      s.reply.Ok? && id in s.rows && s.rows[id].name == "" && !ValidProduct(s.rows[id])
  {
    var patch := PatchBody(Given("   "), Absent, Absent);
    BlankNamePassesRuleAsWritten();
    UpdateConflictIff(rows, id, patch, now);
    UpdateInvalidIsBadRequest(rows, id, patch, now);
    assert FitsColumns(Saved(rows, Patched(rows[id], patch), now));
    UpdateChangesOnlyGivenFields(rows, id, patch, now);
  }

  /**
   * The length rule as written lets a name of blanks through: a create, and a
   * patch, leave the table with a row that breaks the record's rules, which the
   * corrected steps refuse.
   */
  lemma UntrimmedNameCheckAdmitsShortName(rows: Rows, id: string, newId: string, now: nat)
    requires TableInvariant(rows) && id in rows && newId !in rows && !NameTaken(rows, "")
    ensures CreateStep(rows, CreateBody("   ", 0, 0), newId, now).reply.Created?
    ensures !AllValid(CreateStep(rows, CreateBody("   ", 0, 0), newId, now).rows)
    ensures CreateStepCorrected(rows, CreateBody("   ", 0, 0), newId, now) == Step(BadRequest, rows)
    ensures UpdateStep(rows, id, PatchBody(Given("   "), Absent, Absent), now).reply.Ok?
    ensures !AllValid(UpdateStep(rows, id, PatchBody(Given("   "), Absent, Absent), now).rows)
    ensures UpdateStepCorrected(rows, id, PatchBody(Given("   "), Absent, Absent), now) == Step(BadRequest, rows)
  {
    BlankNamePassesRuleAsWritten();
    BlankNameCreatesEmptyName(rows, newId, now);
    BlankNamePatchesToEmptyName(rows, id, now);
  }

  /**
   * A `null` field passes validation and is then written: the name becomes "null"
   * and a number becomes 0.
   */
  lemma NullPatchOverwritesFields(rows: Rows, id: string, now: nat)
    requires TableInvariant(rows) && id in rows && !NameTaken(rows, "null")
    ensures var s := UpdateStep(rows, id, PatchBody(Null, Null, Null), now);
      && s.reply.Ok?
      && s.rows[id].name == "null" && s.rows[id].priceCents == 0 && s.rows[id].stock == 0
    ensures UpdateStepCorrected(rows, id, PatchBody(Null, Null, Null), now) == Step(BadRequest, rows)
  {
    var patch := PatchBody(Null, Null, Null);
    UpdateConflictIff(rows, id, patch, now);
    UpdateInvalidIsBadRequest(rows, id, patch, now);
    var p := Saved(rows, Patched(rows[id], patch), now);
    assert FitsColumns(p);
    UpdateChangesOnlyGivenFields(rows, id, patch, now);
  }

  // ---------------------------------------------------------------------------
  // Delete

  /** DELETE of the row stored under `id`. */
  function DeleteStep(rows: Rows, id: string): Step {
    if id !in rows then Step(NotFound, rows) else Step(NoContent, rows - {id})
  }

  /** DELETE /products/:id, named by the text of the path, read as a `uuid` first. */
  function DeleteRequest(rows: Rows, raw: string): Step {
    match UuidOf(raw)
    case None => Step(Failed, rows)
    case Some(id) => DeleteStep(rows, id)
  }

  /**
   * A delete answers 204 exactly when the text names a stored row, whatever its
   * spelling, removes that row only, and keeps the constraints; a text naming no
   * row is 404 and one the `uuid` type refuses an error, both changing nothing.
   */
  lemma DeleteRemovesOnlyTarget(rows: Rows, raw: string)
    requires TableInvariant(rows)
    ensures var s := DeleteRequest(rows, raw);
      && (s.reply == NoContent <==> ById(rows, raw).FoundRow?)
      && (s.reply != NoContent ==> s.rows == rows && s.reply == (if ById(rows, raw).InvalidUuid? then Failed else NotFound))
      && (s.reply == NoContent ==> s.rows.Keys == rows.Keys - {ById(rows, raw).row.id})
      && (forall k | k in s.rows :: k in rows && s.rows[k] == rows[k])
      && TableInvariant(s.rows)
      && (AllValid(rows) ==> AllValid(s.rows))
  {
  }

  // ---------------------------------------------------------------------------
  // Reads through the cache

  /** Which cache calls of one request fail. */
  datatype CacheFaults = CacheFaults(readFails: bool, writeFails: bool, dropListFails: bool, dropItemFails: bool)

  /**
   * GET /products/:id: a value cached under the path's text if the read gets one,
   * else the row the text names, else 404 (or an error for a text that is no `uuid`).
   */
  function ItemRead(entries: Entries<Payload>, ready: bool, faults: CacheFaults, rows: Rows, id: string): Reply {
    if ready && !faults.readFails && ItemKey(id) in entries then Ok(entries[ItemKey(id)].value)
    else
      match ById(rows, id)
      case FoundRow(p) => Ok(Item(p))
      case NoSuchRow => NotFound
      case InvalidUuid => Failed
  }

  /** The cache after GET /products/:id: a row read from the table is cached for a minute under the path's text. */
  function ItemCacheAfter(entries: Entries<Payload>, ready: bool, faults: CacheFaults, rows: Rows, id: string): Entries<Payload> {
    if ready && !faults.readFails && ItemKey(id) in entries then entries
    else if ById(rows, id).FoundRow? && ready && !faults.writeFails then Stored(entries, ItemKey(id), Item(ById(rows, id).row), ItemTtl)
    else entries
  }

  /** The cache after the two invalidations of a write, each applied only if it succeeds. */
  function Invalidated(entries: Entries<Payload>, id: string, dropList: bool, dropItem: bool): Entries<Payload> {
    var afterList := if dropList then WithoutPrefix(entries, ListPrefix) else entries;
    if dropItem then WithoutPrefix(afterList, ItemKey(id)) else afterList
  }

  /** Every cached product is the current row of the id its key spells. */
  ghost predicate ItemsCoherent(entries: Entries<Payload>, rows: Rows) {
    forall k | ItemKey(k) in entries :: ById(rows, k).FoundRow? && entries[ItemKey(k)].value == Item(ById(rows, k).row)
  }

  /**
   * Every cached product sits under the id the table stores it by (the canonical
   * spelling the database hands out) and is that id's current row.
   */
  ghost predicate CanonicalCoherent(entries: Entries<Payload>, rows: Rows) {
    forall k | ItemKey(k) in entries :: k in rows && entries[ItemKey(k)].value == Item(rows[k])
  }

  /** With a coherent cache, a product read answers what the table holds, whatever the cache's state. */
  lemma CoherentItemReadIsStoreRead(entries: Entries<Payload>, ready: bool, faults: CacheFaults, rows: Rows, id: string)
    requires ItemsCoherent(entries, rows)
    ensures ItemRead(entries, ready, faults, rows, id) ==
      match ById(rows, id)
      case FoundRow(p) => Ok(Item(p))
      case NoSuchRow => NotFound
      case InvalidUuid => Failed
  {
  }

  /** A product read, which caches the row it read under the text it was asked for, keeps the cache coherent. */
  lemma ItemReadKeepsCoherence(entries: Entries<Payload>, ready: bool, faults: CacheFaults, rows: Rows, id: string)
    requires ItemsCoherent(entries, rows)
    ensures ItemsCoherent(ItemCacheAfter(entries, ready, faults, rows, id), rows)
  {
    var after := ItemCacheAfter(entries, ready, faults, rows, id);
    forall k | ItemKey(k) in after
      ensures ById(rows, k).FoundRow? && after[ItemKey(k)].value == Item(ById(rows, k).row)
    {
      if ItemKey(k) == ItemKey(id) {
        ItemKeyInjective(k, id);
      }
    }
  }

  /** GET /products/:id with the cache keyed by the canonical spelling of the id rather than the path's text. */
  function ItemReadCorrected(entries: Entries<Payload>, ready: bool, faults: CacheFaults, rows: Rows, raw: string): Reply {
    match UuidOf(raw)
    case None => Failed
    case Some(id) => ItemRead(entries, ready, faults, rows, id)
  }

  /** The cache after the corrected GET /products/:id. */
  function ItemCacheAfterCorrected(entries: Entries<Payload>, ready: bool, faults: CacheFaults, rows: Rows, raw: string): Entries<Payload> {
    match UuidOf(raw)
    case None => entries
    case Some(id) => ItemCacheAfter(entries, ready, faults, rows, id)
  }

  /**
   * With the cache keyed by canonical spellings, a product read through any spelling
   * answers what the table holds and leaves the cache keyed by canonical spellings
   * and coherent.
   */
  lemma CorrectedItemReadKeepsCoherence(entries: Entries<Payload>, ready: bool, faults: CacheFaults, rows: Rows, raw: string)
    requires CanonicalCoherent(entries, rows)
    ensures ItemReadCorrected(entries, ready, faults, rows, raw) ==
      match ById(rows, raw)
      case FoundRow(p) => Ok(Item(p))
      case NoSuchRow => NotFound
      case InvalidUuid => Failed
    ensures CanonicalCoherent(ItemCacheAfterCorrected(entries, ready, faults, rows, raw), rows)
  {
    if UuidOf(raw).Some? {
      var id := UuidOf(raw).value;
      CanonicalSpellingReadsBack(raw);
      assert ById(rows, id) == ById(rows, raw);
      var after := ItemCacheAfter(entries, ready, faults, rows, id);
      forall k | ItemKey(k) in after
        ensures k in rows && after[ItemKey(k)].value == Item(rows[k])
      {
        if ItemKey(k) == ItemKey(id) {
          ItemKeyInjective(k, id);
        }
      }
    }
  }

  /** Caching a page never touches a cached product. */
  lemma ListCacheKeepsCoherence(entries: Entries<Payload>, rows: Rows, q: ListQuery, value: Payload, ttlSeconds: int)
    ensures ItemsCoherent(entries, rows) ==> ItemsCoherent(Stored(entries, ListKey(q), value, ttlSeconds), rows)
    ensures CanonicalCoherent(entries, rows) ==> CanonicalCoherent(Stored(entries, ListKey(q), value, ttlSeconds), rows)
  {
    var after := Stored(entries, ListKey(q), value, ttlSeconds);
    forall k | ItemKey(k) in after
      ensures ItemKey(k) in entries && after[ItemKey(k)] == entries[ItemKey(k)]
    {
      NamespacesDisjoint(q, k);
    }
  }

  /** After both invalidations succeed, no page and no entry under the written text remains. */
  lemma InvalidationClearsWrittenKeys(entries: Entries<Payload>, id: string, key: string)
    requires key in Invalidated(entries, id, true, true)
    ensures !StartsWith(key, ListPrefix) && !StartsWith(key, ItemKey(id))
    ensures key != ItemKey(id)
  {
  }

  /**
   * With the cache keyed by canonical spellings, a write that changes at most the
   * row `id`, followed by a successful deletion of that id's key, leaves the cache
   * coherent (whether or not the pages were dropped).
   */
  lemma InvalidationKeepsCoherence(entries: Entries<Payload>, rows: Rows, next: Rows, id: string, dropList: bool)
    requires CanonicalCoherent(entries, rows)
    requires forall k | k != id :: (k in next <==> k in rows)
    requires forall k | k != id && k in rows :: next[k] == rows[k]
    ensures CanonicalCoherent(Invalidated(entries, id, dropList, true), next)
  {
    var after := Invalidated(entries, id, dropList, true);
    forall k | ItemKey(k) in after
      ensures k in next && after[ItemKey(k)].value == Item(next[k])
    {
      assert k != id;
    }
  }

  /** Adding a row under an id no cached spelling names leaves every cached spelling's row as it was. */
  lemma NewRowLeavesCachedRows(entries: Entries<Payload>, rows: Rows, next: Rows, id: string)
    requires ItemsCoherent(entries, rows) && id !in rows
    requires next.Keys == rows.Keys + {id} && forall k | k in rows :: next[k] == rows[k]
    ensures ItemsCoherent(entries, next)
  {
    forall k | ItemKey(k) in entries
      ensures ById(next, k).FoundRow? && entries[ItemKey(k)].value == Item(ById(next, k).row)
    {
      assert ById(rows, k).FoundRow?;
    }
  }

  /**
   * A create keeps a coherent cache coherent, spelling by spelling, and keeps a
   * cache keyed by canonical spellings so: nothing cached can name the new id.
   */
  lemma CreateKeepsCoherence(entries: Entries<Payload>, rows: Rows, body: CreateBody, newId: string, now: nat, dropList: bool)
    ensures var s := CreateStep(rows, body, newId, now);
      var after := if s.reply.Created? then Invalidated(entries, newId, dropList, true) else entries;
      && (ItemsCoherent(entries, rows) ==> ItemsCoherent(after, s.rows))
      && (CanonicalCoherent(entries, rows) ==> CanonicalCoherent(after, s.rows))
  {
    var s := CreateStep(rows, body, newId, now);
    CreateFailureLeavesRows(rows, body, newId, now);
    if s.reply.Created? {
      CreateStoresTrimmedRow(rows, body, newId, now);
      var after := Invalidated(entries, newId, dropList, true);
      assert forall k | ItemKey(k) in after :: ItemKey(k) in entries && after[ItemKey(k)] == entries[ItemKey(k)];
      if ItemsCoherent(entries, rows) {
        assert ItemsCoherent(after, rows);
        NewRowLeavesCachedRows(after, rows, s.rows, newId);
      }
      if CanonicalCoherent(entries, rows) {
        InvalidationKeepsCoherence(entries, rows, s.rows, newId, dropList);
      }
    }
  }

  /** With the cache keyed by canonical spellings, a patch whose deletion of the id's key succeeds keeps the cache coherent. */
  lemma UpdateKeepsCoherence(entries: Entries<Payload>, rows: Rows, id: string, patch: PatchBody, now: nat, dropList: bool)
    requires CanonicalCoherent(entries, rows) && KeyedById(rows)
    ensures var s := UpdateStep(rows, id, patch, now);
      CanonicalCoherent(if s.reply.Ok? then Invalidated(entries, id, dropList, true) else entries, s.rows)
  {
    if UpdateStep(rows, id, patch, now).reply.Ok? {
      UpdateChangesOnlyGivenFields(rows, id, patch, now);
      InvalidationKeepsCoherence(entries, rows, UpdateStep(rows, id, patch, now).rows, id, dropList);
    }
  }

  /** With the cache keyed by canonical spellings, a delete whose deletion of the id's key succeeds keeps the cache coherent. */
  lemma DeleteKeepsCoherence(entries: Entries<Payload>, rows: Rows, id: string, dropList: bool)
    requires CanonicalCoherent(entries, rows)
    ensures var s := DeleteStep(rows, id);
      CanonicalCoherent(if s.reply == NoContent then Invalidated(entries, id, dropList, true) else entries, s.rows)
  {
    if id in rows {
      InvalidationKeepsCoherence(entries, rows, rows - {id}, id, dropList);
    }
  }

  /** A read through the braced spelling of a stored id finds the row and caches it under that spelling. */
  lemma AliasReadCaches(rows: Rows, id: string)
    requires KeyedById(rows) && id in rows && UuidOf(id) == Some(id)
    ensures var alias := "{" + id + "}";
      var faults := CacheFaults(false, false, false, false);
      && ById(rows, alias) == FoundRow(rows[id])
      && ById(rows - {id}, alias) == NoSuchRow
      && ItemRead(map[], true, faults, rows, alias) == Ok(Item(rows[id]))
      && ItemCacheAfter(map[], true, faults, rows, alias) == map[ItemKey(alias) := Entry(Item(rows[id]), ExpiryFor(ItemTtl))]
  {
    BracedSpellingIsAlias(id);
  }

  /** Dropping the keys that start with an id's key, and every page, spares the key of its braced spelling. */
  lemma AliasKeySurvivesInvalidation(entries: Entries<Payload>, id: string)
    requires |id| > 0 && id[0] != '{' && ItemKey("{" + id + "}") in entries
    ensures var key := ItemKey("{" + id + "}");
      key in Invalidated(entries, id, true, true) && Invalidated(entries, id, true, true)[key] == entries[key]
  {
    var key := ItemKey("{" + id + "}");
    assert !StartsWith(key, ListPrefix) by {
      assert key[9] == ItemPrefix[9] == 'b';
    }
    assert !StartsWith(key, ItemKey(id)) by {
      assert key[|ItemPrefix|] == '{';
      assert |ItemKey(id)| > |ItemPrefix| && ItemKey(id)[|ItemPrefix|] == id[0];
    }
  }

  /**
   * The routes as written key a cached product by the path's text: a read through
   * the braced spelling of an id caches the row under that spelling, a delete
   * through the canonical spelling drops only keys starting with the canonical
   * one, and a second read through the braced spelling still answers the deleted row.
   */
  lemma AliasEntryOutlivesDelete(rows: Rows, id: string)
    requires TableInvariant(rows) && id in rows && UuidOf(id) == Some(id)
    ensures var alias := "{" + id + "}";
      var faults := CacheFaults(false, false, false, false);
      var cached := ItemCacheAfter(map[], true, faults, rows, alias);
      var s := DeleteRequest(rows, id);
      var after := Invalidated(cached, id, true, true);
      && ItemRead(map[], true, faults, rows, alias) == Ok(Item(rows[id]))
      && ItemsCoherent(cached, rows)
      && s == Step(NoContent, rows - {id})
      && ItemRead(after, true, faults, s.rows, alias) == Ok(Item(rows[id]))
      && !ItemsCoherent(after, s.rows)
  {
    var alias := "{" + id + "}";
    var faults := CacheFaults(false, false, false, false);
    AliasReadCaches(rows, id);
    var cached := ItemCacheAfter(map[], true, faults, rows, alias);
    ItemReadKeepsCoherence(map[], true, faults, rows, alias);
    assert |id| > 0 && id[0] != '{';
    AliasKeySurvivesInvalidation(cached, id);
    DeleteOfStoredSpelling(rows, id);
    StaleEntryServed(Invalidated(cached, id, true, true), rows - {id}, alias, rows[id]);
  }

  /** A delete named by the spelling the table stores removes that row. */
  lemma DeleteOfStoredSpelling(rows: Rows, id: string)
    requires id in rows && UuidOf(id) == Some(id)
    ensures DeleteRequest(rows, id) == Step(NoContent, rows - {id})
  {
  }

  /** A cached product whose key's text names no row is still served, and the cache is not coherent. */
  lemma StaleEntryServed(entries: Entries<Payload>, rows: Rows, raw: string, p: Product)
    requires ItemKey(raw) in entries && entries[ItemKey(raw)].value == Item(p) && !ById(rows, raw).FoundRow?
    ensures ItemRead(entries, true, CacheFaults(false, false, false, false), rows, raw) == Ok(Item(p))
    ensures !ItemsCoherent(entries, rows)
  {
  }
}
