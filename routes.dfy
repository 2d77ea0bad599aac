/**
 * The product routes as handlers over the table and the cache: each handler
 * runs the calls the route makes, in its order, and is proved to answer and to
 * leave the table as the matching step function of the catalog says, with the
 * cache changed only by the calls that succeed.
 */
module ProductRoutes {
  import opened Options
  import opened Text
  import opened ProductEntity
  import opened Repository
  import opened RedisCache
  import opened ListQuery
  import opened Catalog
  import opened Uuid

  /** Drops every cached page and the written product's entry; each deletion is best effort. */
  method InvalidateAfterWrite(cache: Cache<Payload>, id: string, faults: CacheFaults)
    modifies cache
    ensures cache.Ready() == old(cache.Ready())
    ensures cache.entries == Invalidated(old(cache.entries), id,
      old(cache.Ready()) && !faults.dropListFails, old(cache.Ready()) && !faults.dropItemFails)
  {
    cache.DelByPrefix(ListPrefix, faults.dropListFails);
    cache.DelByPrefix(ItemKey(id), faults.dropItemFails);
  }

  /** POST /products. */
  method Create(repo: ProductRepository, cache: Cache<Payload>, body: CreateBody, newId: string, now: nat, faults: CacheFaults)
    returns (reply: Reply)
    requires repo.Valid()
    modifies repo, cache
    ensures repo.Valid()
    ensures reply == CreateStep(old(repo.rows), body, newId, now).reply
    ensures repo.rows == CreateStep(old(repo.rows), body, newId, now).rows
    ensures cache.Ready() == old(cache.Ready())
    ensures cache.entries == if reply.Created? then
      Invalidated(old(cache.entries), newId,
        old(cache.Ready()) && !faults.dropListFails, old(cache.Ready()) && !faults.dropItemFails)
      else old(cache.entries)
  {
    if !CreateBodyValidAsWritten(body) {
      return BadRequest;
    }
    var name := Trim(body.name);
    var dup := repo.FindByName(name);
    if dup.Some? {
      return Conflict;
    }
    var w := repo.Insert(newId, name, body.priceCents, body.stock, now);
    match w {
      case Rejected(UniqueViolation) =>
        reply := Conflict;
      case Rejected(OutOfRange) =>
        reply := Failed;
      case Written(saved) =>
        InvalidateAfterWrite(cache, saved.id, faults);
        reply := Created(saved);
    }
  }

  /** GET /products/:id. */
  method GetById(repo: ProductRepository, cache: Cache<Payload>, id: string, faults: CacheFaults)
    returns (reply: Reply)
    modifies cache
    ensures reply == ItemRead(old(cache.entries), old(cache.Ready()), faults, repo.rows, id)
    ensures cache.entries == ItemCacheAfter(old(cache.entries), old(cache.Ready()), faults, repo.rows, id)
    ensures cache.Ready() == old(cache.Ready())
  {
    var key := ItemKey(id);
    var cached := cache.Get(key, faults.readFails);
    if cached.Some? {
      return Ok(cached.value);
    }
    var found := repo.FindById(id);
    match found {
      case InvalidUuid =>
        reply := Failed;
      case NoSuchRow =>
        reply := NotFound;
      case FoundRow(item) =>
        cache.Set(key, Item(item), ItemTtl, faults.writeFails);
        reply := Ok(Item(item));
    }
  }

  /** PATCH /products/:id. */
  method Update(repo: ProductRepository, cache: Cache<Payload>, id: string, patch: PatchBody, now: nat, faults: CacheFaults)
    returns (reply: Reply)
    requires repo.Valid()
    modifies repo, cache
    ensures repo.Valid()
    ensures reply == UpdateRequest(old(repo.rows), id, patch, now).reply
    ensures repo.rows == UpdateRequest(old(repo.rows), id, patch, now).rows
    ensures cache.Ready() == old(cache.Ready())
    ensures cache.entries == if reply.Ok? then
      Invalidated(old(cache.entries), id,
        old(cache.Ready()) && !faults.dropListFails, old(cache.Ready()) && !faults.dropItemFails)
      else old(cache.entries)
  {
    var found := repo.FindById(id);
    if found.InvalidUuid? {
      return Failed;
    }
    if found.NoSuchRow? {
      return NotFound;
    }
    reply := PatchRow(repo, cache, found.row, id, patch, now, faults);
  }

  /** PATCH /products/:id once `findOne` has loaded the row: validate, pre-check the name, save, invalidate under the path's text. */
  method PatchRow(repo: ProductRepository, cache: Cache<Payload>, item: Product, id: string, patch: PatchBody, now: nat, faults: CacheFaults)
    returns (reply: Reply)
    requires repo.Valid() && item.id in repo.rows && repo.rows[item.id] == item
    modifies repo, cache
    ensures repo.Valid()
    ensures reply == UpdateStep(old(repo.rows), item.id, patch, now).reply
    ensures repo.rows == UpdateStep(old(repo.rows), item.id, patch, now).rows
    ensures cache.Ready() == old(cache.Ready())
    ensures cache.entries == if reply.Ok? then
      Invalidated(old(cache.entries), id,
        old(cache.Ready()) && !faults.dropListFails, old(cache.Ready()) && !faults.dropItemFails)
      else old(cache.entries)
  {
    if !PatchValidAsWritten(patch) {
      return BadRequest;
    }
    var clash := NewNameTaken(repo, item, patch);
    if clash {
      return Conflict;
    }
    var w := repo.Update(Patched(item, patch), now);
    match w {
      case Rejected(UniqueViolation) =>
        reply := Conflict;
      case Rejected(OutOfRange) =>
        reply := Failed;
      case Written(saved) =>
        InvalidateAfterWrite(cache, id, faults);
        reply := Ok(Item(saved));
    }
  }

  /** The pre-check of a patch: a sent name that differs (after `String` and trimming) is looked up by name. */
  method NewNameTaken(repo: ProductRepository, item: Product, patch: PatchBody) returns (clash: bool)
    requires KeyedById(repo.rows)
    ensures clash == NameClash(repo.rows, item, patch)
  {
    clash := false;
    if !patch.name.Absent? {
      var next := if patch.name.Null? then "null" else Trim(patch.name.value);
      if next != item.name {
        var dup := repo.FindByName(next);
        clash := dup.Some?;
      }
    }
  }

  /** DELETE /products/:id. */
  method Delete(repo: ProductRepository, cache: Cache<Payload>, id: string, faults: CacheFaults)
    returns (reply: Reply)
    requires repo.Valid()
    modifies repo, cache
    ensures repo.Valid()
    ensures reply == DeleteRequest(old(repo.rows), id).reply
    ensures repo.rows == DeleteRequest(old(repo.rows), id).rows
    ensures cache.Ready() == old(cache.Ready())
    ensures cache.entries == if reply == NoContent then
      Invalidated(old(cache.entries), id,
        old(cache.Ready()) && !faults.dropListFails, old(cache.Ready()) && !faults.dropItemFails)
      else old(cache.entries)
  {
    var found := repo.FindById(id);
    if found.InvalidUuid? {
      return Failed;
    }
    if found.NoSuchRow? {
      return NotFound;
    }
    repo.Remove(found.row.id);
    InvalidateAfterWrite(cache, id, faults);
    reply := NoContent;
  }

  /**
   * GET /products: a cached page under the request's key if the read gets one.
   * Otherwise an inherited member asked for as the column reaches the query as an
   * order key the table does not have, which is rejected; any other request gets
   * the listing the table yields for the normalised query, cached for thirty
   * seconds when the write succeeds.
   */
  method List(repo: ProductRepository, cache: Cache<Payload>, raw: RawListQuery, faults: CacheFaults)
    returns (reply: Reply)
    modifies cache
    ensures cache.Ready() == old(cache.Ready())
    ensures var key := ListKeyAsWritten(raw);
      if old(cache.Ready()) && !faults.readFails && key in old(cache.entries) then
        reply == Ok(old(cache.entries)[key].value) && cache.entries == old(cache.entries)
      else if SortsByInheritedName(raw) then
        reply == Failed && cache.entries == old(cache.entries)
      else
        && key == ListKey(Normalize(raw))
        && reply.Ok? && reply.payload.Page?
        && IsListing(repo.rows, Normalize(raw), reply.payload.listing)
        && cache.entries == if old(cache.Ready()) && !faults.writeFails
             then Stored(old(cache.entries), key, reply.payload, ListTtl)
             else old(cache.entries)
  {
    var key := ListKeyAsWritten(raw);
    var cached := cache.Get(key, faults.readFails);
    if cached.Some? {
      return Ok(cached.value);
    }
    if SortsByInheritedName(raw) {
      // the order key names no column of the table
      return Failed;
    }
    ListKeyAsWrittenAgrees(raw);
    var listing := QueryListing(repo, Normalize(raw));
    cache.Set(key, Page(listing), ListTtl, faults.writeFails);
    reply := Ok(Page(listing));
  }

  /** The table query of GET /products and the response body built from its result. */
  method QueryListing(repo: ProductRepository, q: ListQuery) returns (listing: ListPage)
    requires WellFormed(q)
    ensures IsListing(repo.rows, q, listing)
  {
    var items, total := repo.FindAndCount(Filter(q), q.field, IsAscending(q.direction), Skip(q), Take(q));
    listing := ListPage(q.page, q.size, total, CeilDiv(total, q.size), items);
  }
}
