# Product catalogue: cache-coherent query layer

A Dafny model of the product service's query layer. The service is an Express
application that keeps products in a PostgreSQL table through TypeORM and caches
reads in Redis. The model covers:

- **The `Product` record** (`src/entity/Product.ts`): its field rules and the
  table constraints. These are the unique name index, the generated primary key,
  and the ranges of the `varchar(100)`, `numeric(12,2)` and `integer` columns.
  Prices are integer cents.
- **The table** (`Repository`): a class over a map from id to row. The queries
  the routes issue are methods proved against pure outcome functions:
  - `findOne` by id and by name;
  - `save` of a new row or of a loaded one;
  - `remove`;
  - `findAndCount` with a price filter, an order, `skip` and `take`.

  Every write keeps the table invariant, which is unique names, rows keyed by
  their own id, and values that fit their columns. An INSERT or UPDATE that would
  break a constraint is rejected as a uniqueness violation (SQLSTATE 23505) or an
  out-of-range error.
- **Product ids** (`Uuid`): the id column has the PostgreSQL `uuid` type, so
  `findOne` reads the path's text with that type's input syntax. The syntax
  allows either case, optional braces and optional hyphens between groups of
  four digits. A text it refuses is a database error, which the routes answer
  with 500. The id the database hands out is the canonical lower-case
  `8-4-4-4-12` spelling.
- **The Redis wrapper** (`src/lib/cache.ts`, `RedisCache`):
  - a lazily created client handle, whose readiness gates every operation;
  - a key-value map of entries, each with an optional expiry;
  - `getCache`, `setCache` and `delCacheByPrefix` as methods. Each takes a flag
    saying whether the backend call fails. The code swallows such a failure, so
    it reads as a miss or as no change.
- **The pure part of the routes** (`src/routes/products.ts`, `ListQuery`):
  - list-query normalisation (page, size, sort field and direction, price bounds);
  - the list and item cache keys;
  - the price filter and the page arithmetic;
  - what a listing is.
- **The handlers** (`Catalog` and `ProductRoutes`):
  - `Catalog` holds what POST, PATCH and DELETE answer and leave in the table,
    as pure step functions that follow the code as written, with their
    properties.
  - `Catalog` also holds what GET by id answers against the cache, and the
    coherence invariant the invalidations maintain. The invariant is that every
    cached product is the table's current row.
  - `ProductRoutes` holds the five handlers as methods over the table and the
    cache, making the route's calls in the route's order. Create, update,
    delete and GET by id are proved equal to their step functions. The list
    handler is proved against the definition of a listing (`IsListing`) and the
    key the route builds. The cache changes only through the calls that succeed.

Several behaviours of the code are easy to miss:

- **The sort fallback is per part.** An unknown column becomes `updatedAt` while
  an accepted direction is kept, so `sort=bogus,asc` is `updatedAt,asc`. It is not
  the full default `updatedAt,desc`.
- **An accepted direction keeps its spelling in the cache key.** `price,ASC` and
  `price,asc` are different keys.
- **A JSON `null` in a patch is written.** `@IsOptional()` skips validation of
  `null`, but the route only skips fields that are `undefined`. So
  `{"name": null}` renames the product to "null", and a `null` price or stock
  becomes 0.
- **Name lengths are checked before trimming.** A name of blanks passes and is
  stored as the empty name.
- **Inherited names pass the column check.** `allowedSort[fieldRaw]` accepts the
  names of `Object.prototype` members, such as `toString`.
- **A product is cached under every spelling it is read by.** The item key is
  built from the path's text, while the table finds the row for any spelling
  of its id. A delete or patch drops only the keys that start with the
  spelling it was sent, so an entry cached under another spelling outlives it.

The last four are listed under "Findings". The steps and handlers model the code
as written. A corrected step (`CreateStepCorrected`, `UpdateStepCorrected`, the
own-keys column check `SortFieldOf`, and the item cache keyed by the id the
database reads, `ItemReadCorrected`) sits beside each one, with the intended
property proved about it.

The row id (a UUID) and the write time are parameters of the create and update
handlers, since they come from the database's generator and clock.

## Model

| member | source | states |
|---|---|---|
| ProductEntity.ValidProductFitsColumns | src/entity/Product.ts:17-29 | a product meeting the record's rules (name 2–100, price ≥ 0 below 10^12 cents, stock ≥ 0 within integer) fits every column |
| ProductEntity.UniqueNamesSingleOwner | src/entity/Product.ts:19 | under the unique name index, no other row carries a row's own name |
| ProductEntity.FieldNameInjective | src/routes/products.ts:165 | the five sortable columns have distinct property names |
| ProductEntity.LexLeTotal | src/routes/products.ts:185 | ordering by name compares any two names |
| ProductEntity.LexLeTransitive | src/routes/products.ts:185 | ordering by name is transitive |
| ProductEntity.BeforeTotal | src/routes/products.ts:185 | ORDER BY a column, either direction, relates any two rows |
| ProductEntity.BeforeTransitive | src/routes/products.ts:185 | ORDER BY a column, either direction, is transitive |
| Uuid.HexGroups | src/entity/Product.ts:14-15 | reading groups of an id's text yields four digits per group, all in the lower-case spelling the column stores |
| Uuid.GroupsText | src/entity/Product.ts:14-15 | the canonical printer: four digits per group plus a hyphen after the second to fifth of eight groups, only lower-case hex digits and hyphens, opening with the first digit |
| Uuid.UuidOf | src/routes/products.ts:69 | a text the `uuid` type accepts names an id of 36 characters, lower-case hex digits and hyphens, opening with a digit; a refused text names none |
| Uuid.ReadCanonicalGroups | src/entity/Product.ts:14-15 | reading a canonical spelling followed by any text gives its digits back and stops exactly before that text |
| Uuid.CanonicalSpellingReadsBack | src/entity/Product.ts:14-15 | the spelling the database hands out reads back as itself, so reading a text twice gives the same id |
| Uuid.BracedSpellingIsAlias | src/routes/products.ts:63-69 | a stored id in braces is a different text that the database reads as the same id |
| Repository.NewRow | src/entity/Product.ts:31-35 | (definition) the row an INSERT stores: the given fields, both timestamps the insertion time; what a create leaves in the table is stated by `Catalog.CreateStoresTrimmedRow` |
| Repository.InsertOutcome | src/entity/Product.ts:14-29 | an INSERT succeeds exactly when the values fit their columns and neither the id nor the name is taken; a taken id or name is a uniqueness violation |
| Repository.UpdateOutcome | src/entity/Product.ts:17-29 | an UPDATE succeeds exactly when the values fit and no other row has the name; otherwise a uniqueness violation or a range error |
| Repository.Saved | src/entity/Product.ts:34-35 | (definition) the row `save` writes for a loaded entity: unchanged, no UPDATE and the old timestamp; changed, `updatedAt` is the write time; its effect on a patch is stated by `Catalog.UpdateChangesOnlyGivenFields` and `Catalog.EmptyPatchWritesNothing` |
| Repository.InsertKeepsInvariant | src/entity/Product.ts:14-29 | every INSERT outcome leaves the table with unique names, rows keyed by id and values within their columns |
| Repository.UpdateKeepsInvariant | src/entity/Product.ts:17-29 | every UPDATE outcome keeps the table invariant and the set of ids |
| Repository.RemoveKeepsInvariant | src/routes/products.ts:140 | removing a row keeps the table invariant and the id is gone |
| Repository.MatchingIds | src/routes/products.ts:178-181 | (definition) the ids of the rows whose price the filter admits; the filter's meaning is `ListQuery.PriceFilterMeaning` |
| Repository.FirstInOrderExtend | src/routes/products.ts:185 | adding a row to a set keeps a first row in ORDER BY order |
| Repository.FirstInOrderExists | src/routes/products.ts:185 | every non-empty set of rows has a row that may come first in the order |
| Repository.RowsOf | src/routes/products.ts:183-188 | (definition) the rows of an id sequence, position by position; used by `Repository.WindowOfEnumeration` |
| Repository.Window | src/routes/products.ts:186-187 | `skip` then `take`: at most `take` elements, empty when skip is past the end, otherwise min(take, rest) elements, each the element `skip` positions on |
| Repository.WindowOfEnumeration | src/routes/products.ts:183-188 | a window of a sorted enumeration holds only selected rows, in order, and is empty exactly when it starts past the end |
| Repository.SelectionStep | src/routes/products.ts:183-188 | moving a first remaining row to the output keeps a partial ordered enumeration |
| Repository.ProductRepository.constructor | src/entity/Product.ts:12-13 | a new table is empty and satisfies its invariant |
| Repository.ById | src/routes/products.ts:69 | `findOne` by the path's text: an error exactly when the `uuid` type refuses the text, a row exactly when the id it reads is stored, and then that id's row |
| Repository.ProductRepository.FindById | src/routes/products.ts:69 | answers as `ById` on the current table; in a table keyed by id, a found row's id is the id the text reads as |
| Repository.ProductRepository.FindByName | src/routes/products.ts:34 | finds a row exactly when some row has that name, and returns a stored row with it |
| Repository.ProductRepository.Insert | src/routes/products.ts:38-43 | the outcome is the INSERT outcome of the new row and the table becomes that outcome applied; the invariant is kept |
| Repository.ProductRepository.Update | src/routes/products.ts:119 | the outcome is the UPDATE outcome of the saved row and the table becomes that outcome applied; the invariant is kept |
| Repository.ProductRepository.Remove | src/routes/products.ts:140 | the table loses exactly that id and keeps its invariant |
| Repository.ProductRepository.FindAndCount | src/routes/products.ts:183-188 | total is the number of selected rows; items is the skip/take window of an ordering of all selected rows, each once, sorted by the column and direction |
| RedisCache.Connection.constructor | src/lib/cache.ts:8-15 | a new client is not yet ready |
| RedisCache.ExpiryFor | src/lib/cache.ts:40-44 | (definition) EX for a positive TTL, no expiry otherwise; stated through `RedisCache.Stored` |
| RedisCache.Lookup | src/lib/cache.ts:29-30 | (definition) a GET: the stored value, or a miss; what it returns after a SET is `RedisCache.SetThenGet` |
| RedisCache.Stored | src/lib/cache.ts:40-44 | a SET adds or replaces only its key, with the value and the expiry for the TTL |
| RedisCache.WithoutPrefix | src/lib/cache.ts:52-53 | KEYS prefix* then DEL removes exactly the keys starting with the prefix; all others keep their values |
| RedisCache.SetThenGet | src/lib/cache.ts:29-43 | after a SET, a read of that key returns the value set |
| RedisCache.SetLeavesOtherKeys | src/lib/cache.ts:40-44 | a SET does not change what any other key reads |
| RedisCache.WithoutPrefixIdempotent | src/lib/cache.ts:48-54 | deleting by prefix a second time changes nothing |
| RedisCache.WithoutPrefixCommutes | src/routes/products.ts:47-50 | the two invalidations run side by side give the same result in either order |
| RedisCache.Cache.constructor | src/lib/cache.ts:4 | no client handle and no entries at start |
| RedisCache.Cache.InitRedis | src/lib/cache.ts:6-19 | creates a client (not yet ready) only when none exists; otherwise returns the existing handle; entries and readiness unchanged |
| RedisCache.Cache.Get | src/lib/cache.ts:25-34 | the stored value when the client is ready and the read does not fail, a miss otherwise; entries unchanged; an existing client handle is kept, and a missing one is created, not yet ready |
| RedisCache.Cache.Set | src/lib/cache.ts:36-46 | stores the value with its expiry when ready and the write does not fail; otherwise the entries stay; an existing client handle is kept, and a missing one is created, not yet ready |
| RedisCache.Cache.DelByPrefix | src/lib/cache.ts:48-55 | removes the keys with the prefix when ready and the call does not fail; otherwise the entries stay; an existing client handle is kept, and a missing one is created, not yet ready |
| Text.TrimStart | src/routes/products.ts:33 | a suffix of the input, what it drops is all white space, and it starts with a non-space |
| Text.TrimEnd | src/routes/products.ts:33 | a prefix of the input, what it drops is all white space, and it ends with a non-space |
| Text.Trim | src/routes/products.ts:33 | no longer than the input, and neither starts nor ends with white space |
| Text.TrimIsInfix | src/routes/products.ts:33 | trimming keeps a contiguous middle of the input with only white space around it |
| Text.TrimAllSpace | src/routes/products.ts:33 | a string of white space trims to the empty string |
| Text.TrimOfTrimmed | src/routes/products.ts:95 | a string with no white space at either end is its own trim |
| Text.TrimIdempotent | src/routes/products.ts:95 | trimming twice is trimming once |
| Text.NatText | src/routes/products.ts:174 | a non-empty string of decimal digits |
| Text.PriceText | src/routes/products.ts:174 | a price in cents renders as a non-empty decimal text |
| Text.ParseNatText | src/routes/products.ts:174 | the decimal rendering of a number reads back as that number |
| Text.NatTextInjective | src/routes/products.ts:174 | distinct page or size numbers render differently |
| Text.CentsFraction | src/routes/products.ts:174 | the decimals of a price: empty exactly for whole units, otherwise a point followed by digits |
| Text.CentsFractionInjective | src/routes/products.ts:174 | distinct cent remainders render differently |
| Text.PriceTextAlphabet | src/routes/products.ts:174 | a rendered price holds only digits, '-' and '.' |
| Text.PriceTextSign | src/routes/products.ts:174 | a rendered price starts with '-' exactly when it is negative |
| Text.UnitsTextInjective | src/routes/products.ts:174 | distinct magnitudes render differently |
| Text.PriceTextInjective | src/routes/products.ts:174 | distinct price bounds render differently |
| Text.IndexOf | src/routes/products.ts:164 | the first position of the separator, or the length when it is absent |
| Text.LastFieldSplit | src/routes/products.ts:174 | a labelled last field whose value cannot hold the label's final character splits off in one way only |
| ListQuery.NormalPage | src/routes/products.ts:157 | page is at least 1, 1 when absent, and the requested page otherwise |
| ListQuery.NormalSize | src/routes/products.ts:158-159 | size is in 1..50, 10 when absent, clamped to 1 or 50 when out of range, and unchanged otherwise |
| ListQuery.Take | src/routes/products.ts:161 | take is the page size, in 1..50 |
| ListQuery.SortParts | src/routes/products.ts:164 | `f,d` splits into field `f` and direction `d` |
| ListQuery.SortWithoutComma | src/routes/products.ts:164 | without a comma the whole string is the field and there is no direction |
| ListQuery.AllowedSortNamesAreFieldNames | src/routes/products.ts:165 | the allowed names are exactly the names of the sortable columns |
| ListQuery.SortFieldOf | src/routes/products.ts:165-166 | an allowed column is kept; anything else becomes `updatedAt` |
| ListQuery.SortFieldOfIsSortable | src/routes/products.ts:165-166 | the chosen column is always sortable, and agrees with the check as written on every name that is not inherited from `Object.prototype` |
| ListQuery.SortFieldNameAsWritten | src/routes/products.ts:165-166 | (definition) the column check as written: allowed columns and inherited object members pass, anything else becomes `updatedAt`; its consequences are `ListQuery.InheritedNamesAreNotColumns` and `ListQuery.InheritedKeyPassesColumnCheck` |
| ListQuery.InheritedNamesAreNotColumns | src/routes/products.ts:165-166 | the check as written yields a name that is no sortable column exactly when an inherited `Object.prototype` member is asked for |
| ListQuery.InheritedKeyPassesColumnCheck | src/routes/products.ts:166 | `sort=toString,asc` passes the check as written with a column that is not sortable |
| ListQuery.ToLowerAscii | src/routes/products.ts:167 | (definition) ASCII lower-casing; what it decides is stated by `ListQuery.DirectionOf` |
| ListQuery.DirectionOf | src/routes/products.ts:167-168 | asc/desc in any case is kept as spelled; anything else, or none, is `desc` |
| ListQuery.DirectionHasNoSeparator | src/routes/products.ts:167-168 | an accepted direction holds none of `&`, `,` or `=` |
| ListQuery.UnknownFieldKeepsDirection | src/routes/products.ts:163-168 | `bogus,asc` sorts by `updatedAt` ascending |
| ListQuery.AcceptedDirectionKeepsCase | src/routes/products.ts:163-168 | `price,ASC` sorts by price with direction `ASC` as spelled |
| ListQuery.UnknownDirectionKeepsField | src/routes/products.ts:163-168 | `price,up` sorts by price with direction `desc` |
| ListQuery.MissingDirectionIsDesc | src/routes/products.ts:163-168 | `price` alone sorts by price with direction `desc` |
| ListQuery.DefaultSortParts | src/routes/products.ts:163 | the default sort string splits into `updatedAt` and `desc` |
| ListQuery.DescIsDirection | src/routes/products.ts:167 | `desc` is an accepted direction |
| ListQuery.DefaultSortIsUpdatedAtDesc | src/routes/products.ts:163 | without a sort parameter the listing is by `updatedAt` descending |
| ListQuery.Normalize | src/routes/products.ts:157-171 | the request the table is queried with: page ≥ 1, size in 1..50, the direction part of the sort text as `DirectionOf` keeps it (case kept, anything else desc), both price bounds passed through, and the column the check as written names whenever no inherited member is asked for |
| ListQuery.OmittedSizeIsDefaultSize | src/routes/products.ts:158 | omitting size normalises like asking for 10 |
| ListQuery.BoundText | src/routes/products.ts:174 | an absent bound renders empty and a present one does not |
| ListQuery.BoundTextAlphabet | src/routes/products.ts:174 | a rendered bound holds no `&` or `=` |
| ListQuery.BoundTextInjective | src/routes/products.ts:174 | distinct bounds (including absent) render differently |
| ListQuery.ListKeyInjective | src/routes/products.ts:174 | equal list keys come only from equal normalised queries |
| ListQuery.AbsentBoundDiffersFromZero | src/routes/products.ts:174 | "no minimum" and "minimum 0" have different keys |
| ListQuery.ItemKeyInjective | src/routes/products.ts:64 | distinct ids have distinct item keys |
| ListQuery.NamespacesDisjoint | src/routes/products.ts:174 | every list key starts with `products:list:` and not with `products:byId:`; every item key the reverse |
| ListQuery.ListKeyAsWrittenAgrees | src/routes/products.ts:174 | unless an inherited member is asked for, the key the route reads is the key of the normalised request |
| ListQuery.PriceFilterOf | src/routes/products.ts:178-181 | both bounds give a range, one bound a one-sided filter, none no filter |
| ListQuery.PriceFilterMeaning | src/routes/products.ts:178-181 | a price passes exactly when it is at or above the minimum and at or below the maximum that are given |
| ListQuery.InvertedRangeSelectsNothing | src/routes/products.ts:179 | a minimum above the maximum selects no row |
| ListQuery.CeilDiv | src/routes/products.ts:190 | totalPages is the least number of pages of `size` rows that hold `total` rows, 0 for no rows |
| ListQuery.PageHasRowsIffWithinTotalPages | src/routes/products.ts:160-190 | the page's skip is below the total exactly when the page is at most totalPages |
| ListQuery.ListingBounded | src/routes/products.ts:183-190 | a listing echoes page and size and holds at most `size` rows |
| ListQuery.ListingRowsAdmitted | src/routes/products.ts:178-188 | every row of a listing is stored and admitted by the price filter |
| ListQuery.ListingOrdered | src/routes/products.ts:185 | the rows of a listing come in the requested order |
| ListQuery.ListingEmptyIffPastLastPage | src/routes/products.ts:186-190 | a listing is empty exactly when the page is past totalPages |
| ListQuery.ListingProperties | src/routes/products.ts:183-190 | the four listing clauses together |
| ListQuery.InvertedRangeListing | src/routes/products.ts:178-190 | min > max gives total 0, totalPages 0 and no items, not an error |
| ListQuery.TotalIndependentOfPage | src/routes/products.ts:183-190 | the total and totalPages do not depend on the page asked for |
| Catalog.BlankNamePassesRuleAsWritten | src/dto/product.dto.ts:5-23 | a name of three blanks passes the length rule as written for create and for patch, and the rule on the trimmed name refuses it |
| Catalog.BlankNameCreatesEmptyName | src/routes/products.ts:30-43 | a create named with blanks answers 201 and stores a row named "", which breaks the record's rules |
| Catalog.BlankNamePatchesToEmptyName | src/routes/products.ts:85-119 | a patch naming a row with blanks answers 200 and stores the name "" |
| Catalog.UntrimmedNameCheckAdmitsShortName | src/dto/product.dto.ts:7 | create and patch as written leave a row that breaks the record's rules; the corrected steps answer 400 and change nothing |
| Catalog.CreateSucceedsIff | src/routes/products.ts:30-43 | a create succeeds exactly when the body passes the rules as written, the trimmed name and the new id are free, and price and stock fit their columns |
| Catalog.CreateStoresTrimmedRow | src/routes/products.ts:33-43 | a created row has the new id, the trimmed name, the given price and stock, both timestamps now, fits its columns with price and stock ≥ 0, and is the only row added |
| Catalog.CreateFailureLeavesRows | src/routes/products.ts:31-35 | a create that does not succeed leaves the table unchanged; it is BadRequest exactly when the body breaks the rules |
| Catalog.CreateConflictIff | src/routes/products.ts:33-55 | a create is Conflict exactly when the body passes and either the pre-check finds the trimmed name taken or the INSERT hits the primary key (23505) with values that fit |
| Catalog.CreateFailedIff | src/routes/products.ts:43-56 | a create is a server error exactly when a passing body with a free name carries a price or stock its column cannot hold |
| Catalog.CreateKeepsInvariant | src/routes/products.ts:33-43 | a create keeps the table invariant |
| Catalog.CorrectedCreateKeepsValidity | src/dto/product.dto.ts:5-8 | with the length rule on the trimmed name, a create keeps the invariant and every row valid, and otherwise answers as the route does |
| Catalog.SameNameCreatedOnce | src/routes/products.ts:33-55 | after a create succeeds, a second create with the same trimmed name does not |
| Catalog.UpdateMissingIsNotFound | src/routes/products.ts:79-82 | before the body is looked at: a text the database reads as an id no row has is NotFound and nothing changes, a text the `uuid` type refuses is a server error and nothing changes, and NotFound happens in the first case only |
| Catalog.UpdateStepNotFoundIff | src/routes/products.ts:81-82 | for an id already read, a patch is NotFound exactly when no row has it, and then nothing changes |
| Catalog.UpdateInvalidIsBadRequest | src/routes/products.ts:85-90 | a patch of an existing row is BadRequest exactly when a field sent with a value breaks its rule (the name before trimming), and then nothing changes |
| Catalog.UpdateChangesOnlyGivenFields | src/routes/products.ts:92-119 | a successful patch changes only the fields sent: a name to its trim and a `null` name to "null", a number to its value and a `null` number to 0; keeps id and creation time, stamps the row when it changed, answers the saved row and leaves other rows alone |
| Catalog.EmptyPatchWritesNothing | src/routes/products.ts:92-119 | an empty patch answers the stored row and writes nothing |
| Catalog.UpdateOwnNameNeverConflicts | src/routes/products.ts:94-99 | resubmitting a row's own name never conflicts |
| Catalog.UpdateConflictIff | src/routes/products.ts:94-128 | a patch is Conflict exactly when it passes the rules as written and the name it asks for (trimmed, or "null") differs from the row's and is taken |
| Catalog.UpdateKeepsInvariant | src/routes/products.ts:94-119 | a patch keeps the table invariant |
| Catalog.NullPatchOverwritesFields | src/routes/products.ts:92-117 | a patch of three `null` fields answers 200 and stores the name "null", price 0 and stock 0; the corrected step answers 400 and changes nothing |
| Catalog.CorrectedUpdateKeepsValidity | src/dto/product.dto.ts:19-33 | with `null` refused and the length rule on the trimmed name, a patch keeps the invariant and every row valid, and otherwise answers as the route does |
| Catalog.CorrectedPatchChangesOnlyGivenValues | src/routes/products.ts:92-119 | with `null` refused, a successful patch sent no `null` and changes exactly the fields sent with a value |
| Catalog.DeleteRemovesOnlyTarget | src/routes/products.ts:134-152 | a delete is 204 exactly when the text reads as a stored id, in any spelling, and removes only that row; otherwise nothing changes and the answer is a server error for a text the `uuid` type refuses and NotFound for any other; the invariant and the validity of rows are kept |
| Catalog.DeleteOfStoredSpelling | src/routes/products.ts:134-152 | a delete sent with the spelling the table stores answers 204 and removes that row |
| Catalog.CoherentItemReadIsStoreRead | src/routes/products.ts:61-75 | when every cached text holds the row the database reads that text as, a product read answers that row, NotFound for a text naming no row, or a server error for a text the `uuid` type refuses, whether the cache is ready, failing or hit |
| Catalog.ItemReadKeepsCoherence | src/routes/products.ts:66-72 | a product read caches only the row it just read, under the text it was sent, so every cached text keeps holding the row the database reads it as |
| Catalog.ListCacheKeepsCoherence | src/routes/products.ts:191 | caching a page never touches a cached product, whether products are cached by the path's text or by stored ids |
| Catalog.InvalidationClearsWrittenKeys | src/routes/products.ts:45-51 | after both invalidations succeed, no key starts with `products:list:` or with the written product's key |
| Catalog.InvalidationKeepsCoherence | src/routes/products.ts:121-124 | with products cached under the ids the table stores, a write that changes at most one row, followed by a successful deletion of the keys of that row's id, leaves every cached product the current row of its id |
| Catalog.CreateKeepsCoherence | src/routes/products.ts:43-51 | a create with a successful item invalidation keeps the cache coherent, both for products cached by the path's text and for products cached by stored ids |
| Catalog.UpdateKeepsCoherence | src/routes/products.ts:119-124 | with products cached under stored ids, a patch followed by a successful invalidation of the row's id leaves every cached product current |
| Catalog.DeleteKeepsCoherence | src/routes/products.ts:140-148 | with products cached under stored ids, a delete followed by a successful invalidation of the row's id leaves every cached product current |
| Catalog.CorrectedItemReadKeepsCoherence | src/routes/products.ts:61-75 | with products cached under the id the database reads the text as, a product read answers the table's row, NotFound or a server error, and caching the row keeps every cached product current |
| Catalog.AliasReadCaches | src/routes/products.ts:63-72 | a read through the braced spelling of a stored id finds the row, answers it and caches it under the braced text; once the row is gone the braced text finds nothing |
| Catalog.AliasKeySurvivesInvalidation | src/routes/products.ts:143-146 | deleting the list namespace and the keys that start with an id's key leaves the braced spelling's key and its entry |
| Catalog.StaleEntryServed | src/routes/products.ts:66-67 | a cached product is served even when its key's text names no row, and such a cache is not coherent |
| Catalog.AliasEntryOutlivesDelete | src/routes/products.ts:61-152 | as written: GET through the braced spelling caches the row coherently, DELETE through the stored spelling answers 204 and removes the row, and a second GET through the braced spelling still answers the deleted row from an incoherent cache |
| ProductRoutes.InvalidateAfterWrite | src/routes/products.ts:45-51 | drops the list namespace and the product's keys, each only when the cache is ready and that deletion does not fail |
| ProductRoutes.Create | src/routes/products.ts:27-58 | answers and changes the table as the create step; the cache is invalidated only after a success, and only by deletions that succeed |
| ProductRoutes.GetById | src/routes/products.ts:61-75 | a hit under the path's text is answered as cached without the table; on a miss, a text read as a stored id answers the row and caches it under the text for 60 s when the write succeeds, a text naming no row is NotFound, one the `uuid` type refuses is a server error, and neither caches anything |
| ProductRoutes.Update | src/routes/products.ts:78-131 | answers and changes the table as the patch step on the id the text reads as (a server error for a refused text); invalidation under the path's text, only after a success |
| ProductRoutes.PatchRow | src/routes/products.ts:84-124 | for a loaded row, answers and changes the table as the patch step on that row's id; invalidation only after a success |
| ProductRoutes.NewNameTaken | src/routes/products.ts:94-99 | the pre-check reports a clash exactly when a name is sent, the name it asks for differs from the current one, and it is taken |
| ProductRoutes.Delete | src/routes/products.ts:134-152 | answers and changes the table as the delete step on the id the text reads as (a server error for a refused text); invalidation under the path's text, only after a success |
| ProductRoutes.List | src/routes/products.ts:155-194 | reads the key the route builds; a hit is answered as cached; otherwise an inherited member as the column is an error and caches nothing; otherwise the answer is the table's listing for the normalised request, cached for 30 s under that key (the normalised request's key) when the write succeeds |
| ProductRoutes.QueryListing | src/routes/products.ts:183-190 | the `findAndCount` result and the body built from it form a listing of the request |

## Left out

- HTTP plumbing, authentication (`requireAuth`, login), configuration and bootstrap are not part of this model. Status codes become the `Reply` datatype.
- JavaScript number parsing of the query string and the body is not modelled. Page, size and the price bounds arrive as optional integers, prices as integer cents. A size that is not a finite number arrives as absent, which the route also maps to 10. A page that is not a number (NaN), fractional sizes and prices finer than a cent are not represented.
- Prices are rendered in the key as `String(cents / 100)` in plain decimal notation. The route holds a price as a double in units, which keeps a decimal text exactly only up to 15 significant digits, that is for cent amounts below 10^15; from 10^21 units `String` also switches to exponent notation. Neither is represented.
- ListQuery.ListKeyInjective: holds of the route only for price bounds below 10^15 cents; beyond that two bounds one cent apart can parse to the same double and share a key.
- ListQuery.PriceFilterMeaning: holds of the route only for price bounds below 10^15 cents, where `Number` reads the bound exactly.
- Repository.Saved: judges "unchanged" on integer cents. The route writes the price back as the text `String(p)` (src/routes/products.ts:108) while the `numeric(12,2)` column loads as text such as "10.00"; if the ORM compares those texts, a patch that resends the same price in a shorter spelling ("10") issues an UPDATE and stamps `updatedAt`, which the model does not.
- Body fields of the wrong JSON type (a number for the name, a string for the price) are not represented; the body datatypes carry typed fields, and a patch field is absent, `null` or a value.
- String lengths are counted in characters, not in UTF-16 code units.
- Name order uses code-point order. The database's collation is not modelled.
- ListQuery.DirectionOf: only ASCII case folding is modelled. `toLowerCase` folds other letters too, but no other letter can fold to `asc` or `desc`.
- ProductRoutes.List: TypeORM's treatment of an order key that is not a column of the entity is not part of this model; the handler takes it to raise an error, which the route answers with 500.
- The reading of an id's text (`Uuid.UuidOf`) follows PostgreSQL's `uuid` input function, which is not part of this repository. Other id types, and any check the driver makes before the query, are not modelled.
- Catalog.InvalidationKeepsCoherence: proved for a cache whose products sit under the ids the table stores, as in the corrected read. As written, the item key is the path's text, so an entry cached under another spelling of the id is not dropped (see Findings, `Catalog.AliasEntryOutlivesDelete`).
- Catalog.UpdateKeepsCoherence: proved, like the line above, for products cached under stored ids and invalidated under the row's id. As written, a patch through one spelling leaves entries cached under other spellings stale.
- Catalog.DeleteKeepsCoherence: proved, like the line above, for products cached under stored ids and invalidated under the row's id. As written, a delete through one spelling leaves entries cached under other spellings, which `Catalog.AliasEntryOutlivesDelete` shows.
- Redis `KEYS` glob syntax is not modelled. The prefix is matched literally; the prefixes used and UUIDs contain no glob characters.
- Expiry is kept as stored metadata. Time passing and entries expiring are not modelled.
- The Redis client's connection options, retry strategy and `error` listener are not modelled. Readiness is a flag on the handle that stays fixed during a request.
- JSON serialisation is the identity, so a cached row is returned exactly as stored (timestamps included).
- Concurrency is not modelled: each handler is one sequential step, and the two invalidations run in sequence. `RedisCache.WithoutPrefixCommutes` shows that their order does not matter. The race between the duplicate-name pre-check and the INSERT is not represented. The unique name index, which rejects the second write, keeps `TableInvariant` whatever the interleaving.
- A cache call fails wholly or not at all. A `DEL` that removes some of the found keys before failing is not modelled.
- The product id and the timestamps come from the database. The model takes them as parameters, and does not require the clock to move forward.
- The stock column's default of 0 is not modelled, because every create supplies a stock.
- The handler's own re-checks of price and stock on PATCH (src/routes/products.ts:103-117) have no branch in the model: for integer cents and integer stock that pass the rules, and for `null` (read as 0), they accept everything.
- A missing create body, a `null` create field, and a body with fields outside the DTO (rejected by `forbidNonWhitelisted`) are not represented; they are BadRequest like any body that breaks the rules.
- `src/dto/create-product.dto.ts` and `src/dto/update-product.dto.ts` are not part of this model: the routes use `src/dto/product.dto.ts`.

## Findings

| source | as written | input that shows it | evidently intended | confidence | as-written member | corrected member |
|---|---|---|---|---|---|---|
| src/dto/product.dto.ts:7 | the name's length (2–100) is validated before `trim`, on create and on patch, and the trimmed name is stored | POST `{"name": "   ", "price": 1, "stock": 0}` stores a product named "" (and `" a "` stores "a"); PATCH `{"name": "   "}` renames a product to "" | every stored name satisfies the record's 2–100 rule | not executed | Catalog.UntrimmedNameCheckAdmitsShortName | Catalog.CorrectedCreateKeepsValidity |
| src/routes/products.ts:94-117 | `@IsOptional()` skips validation of `null`, and the route writes every field that is not `undefined`, through `String(name).trim()` and `Number(x)` | PATCH `{"name": null, "price": null, "stock": null}` renames the product to "null" and sets price and stock to 0 | a field sent as `null` is refused (or left alone), never written | not executed | Catalog.NullPatchOverwritesFields | Catalog.CorrectedPatchChangesOnlyGivenValues |
| src/routes/products.ts:165-166 | `allowedSort[fieldRaw]` on a plain object literal is also truthy for members inherited from `Object.prototype` | `GET /products?sort=toString,asc` passes the check and reaches `findAndCount` with an order key that names no column (most likely an error answered 500) instead of falling back to `updatedAt` | only the five sortable columns pass; anything else becomes `updatedAt` | not executed | ListQuery.InheritedKeyPassesColumnCheck | ListQuery.SortFieldOfIsSortable |
| src/routes/products.ts:63-69 | the item cache key is built from the path's text (also at lines 123 and 146), while `findOne` finds the row for any spelling the `uuid` type accepts | GET `/products/{<id>}`, then DELETE `/products/<id>` (204), then GET `/products/{<id>}` answers the deleted row from the cache for up to 60 s | a product is cached and invalidated under one key per row, built from the id the database reads | not executed | Catalog.AliasEntryOutlivesDelete | Catalog.CorrectedItemReadKeepsCoherence |
