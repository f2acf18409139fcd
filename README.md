# DBManager: a fluent SQL builder with a result cache, modelled in Dafny

DBManager is a small PHP library. Chained calls fill in a *query descriptor*
(`QueryProperties`): table, select, where and its arguments, order, limit and
offset, one join. The descriptor is then rendered into a SELECT statement and
sent to PDO. `insert` and `update` build INSERT and UPDATE statements with
named placeholders. When caching is enabled, the builder keeps the last N
answered descriptors in a FIFO list and compares them by a SHA-256 hash of
their fields.

This project models that core:

- `common.dfy` (module `Common`) holds the shared values. These are optional
  values, bound values, fetched results, and the exceptions, modelled as `Error`
  inside `Status` and `Result`.
- `text.dfy` (module `Text`) models the PHP string functions the builder
  relies on:
  - `rtrim` with a *set* of characters;
  - `explode` on `?`;
  - `str_ends_with` and `str_replace`;
  - integer-to-string conversion.

  It proves what each one returns.
- `query_properties.dfy` (module `Descriptor`) is the descriptor as a class.
  - Its thirteen fields are `var`s.
  - Every guarded setter is a method whose contract states when it throws and
    what it stores.
  - `getHash` computes the hash on first use and memoizes it.
  - `setResult` is write-once.
  - `Props` is a snapshot of the fields at one instant. `HashOf` is the hash
    that getHash returns for a snapshot.
- `query.dfy` (module `Compiler`) renders text from snapshots. It covers:
  - the select and where lists;
  - `createQuery` and `createJoinQueriesPart`;
  - the INSERT column list, VALUES mask and bindings;
  - the UPDATE SET mask, the rebuilt WHERE template and the argument bindings.
- `cache.dfy` (module `Cache`) treats the result cache as a list of
  (hash, result) entries. `Lookup` is the linear probe and `Admit` is the
  FIFO admission step.
- `dbmanager.dfy` (module `Builder`) is the `DBManager` class.
  - The fluent methods, the joins and the four fetch calls are methods.
  - `insert` and `update` are methods with their `foreach` loops.
  - The cache is kept as a `seq` of descriptor objects. `Entries()` ties it to
    the `Cache` functions.

Two foreign functions are left uninterpreted: SHA-256 and `json_encode` of the
where arguments. They are the fields of a `Digest` value that every builder
carries, so the only property of the hash that can be proved is determinism.
The database is a flag, `connected`. A fetch receives the database's answer as
a parameter and reports the statement it would have prepared.

Behaviours of the code as written that the model keeps:

- `setFetchType` assigns to a misspelled property, so `fetchType` is never
  written. Its guard still reads `fetchType` (QueryProperties.php:240-247).
  The fetch mode therefore never enters the hash, and the four fetch calls
  share cache entries. With caching on, `fetchAll()` on the same clauses as an
  earlier `fetch()` returns that fetch's single row from the cache and sends
  nothing to the database (`Builder.FetchModesShareEntries`).
- Every setter's guard is a conjunction. Before the hash exists, a field can be
  overwritten any number of times. After the hash exists, a field that is still
  null can be set once.
- `json_encode` of a `DBManager` composite is `{}`, because a DBManager has
  only private fields. The hash therefore sees only whether a join is attached,
  not which one.
- `createJoinQueriesPart` drops the result of its recursive call, so only the
  first join link reaches the SQL (DBManager.php:544-546).
- `createQuery` tests `empty($select)` on a string that always starts with
  `SELECT `, so `", "` is always added before the joined select.
- A raw (`%sql`) value in `insert` is appended to VALUES without a `", "`
  after it.
- `rtrim($s, 'AND ')` strips any trailing `A`, `N`, `D` or space. A where
  list whose last condition ends in one of those characters loses them.
- The where list is accumulated as `cond . 'AND '`, with no space before `AND`.
- `update` drops the where text after the last `?`. A where argument beyond
  the number of `?` fragments reads a missing array index, which is `""`.
- The cache evicts only when the count *equals* the capacity. After the
  capacity is lowered below the current count, the cache grows without bound.

## Model

| member | source | states |
|---|---|---|
| Text.RTrim | DBManager/DBManager.php:87 | PHP `rtrim` with a character set: the result is a prefix of the input, it does not end in a set character, and every removed character is in the set |
| Text.RTrimAppend | DBManager/DBManager.php:120 | appending only set characters does not change what rtrim returns |
| Text.TrimmedSuffixedIsJoined | DBManager/DBManager.php:83-87 | appending a separator after every item and then rtrimming the separator's characters gives the items joined by the separator, when the last item does not end in a trimmed character |
| Text.Split | DBManager/DBManager.php:430 | `explode` on one character gives one more fragment than there are separators |
| Text.SplitFragmentsFree | DBManager/DBManager.php:430 | no fragment of `explode` contains the separator |
| Text.SplitJoined | DBManager/DBManager.php:430 | joining the fragments of `explode` with the separator gives back the original string |
| Text.RemoveAppendedTag | DBManager/DBManager.php:364 | `str_replace('%sql', '', name . '%sql')` returns the name when the name has no `%` |
| Text.NatToString | DBManager/DBManager.php:433 | integer-to-string conversion gives a non-empty string of decimal digits |
| Text.ParseNatToString | DBManager/DBManager.php:433 | parsing the decimal text of a number gives the number back |
| Text.NatToStringInjective | DBManager/DBManager.php:433-434 | different argument indexes get different placeholders `:i` |
| Descriptor.HashOf | DBManager/QueryProperties.php:93-100 | getHash returns the memoized hash when there is one, and otherwise SHA-256 of the field concatenation |
| Descriptor.KeyDeterministic | DBManager/QueryProperties.php:96 | descriptors whose hashed fields agree get the same hash |
| Descriptor.Canonical | DBManager/QueryProperties.php:96 | the hashed string: table, select, where, the JSON of the where arguments, order, limit, offset, join, join condition, the JSON of the composite and the fetch type, concatenated without separators, with null read as empty |
| Descriptor.Key | DBManager/QueryProperties.php:96 | the SHA-256 of that string |
| Descriptor.KeyIgnoresResultAndHash | DBManager/QueryProperties.php:96 | the result and the memoized hash do not enter the hash |
| Descriptor.KeyIgnoresJoinContents | DBManager/QueryProperties.php:96 | two descriptors that agree on their own fields and both have a composite hash alike, whatever the composites hold, because `json_encode` of a composite is `{}` |
| Descriptor.QueryProperties.constructor | DBManager/QueryProperties.php:27-91 | a new descriptor has every field null |
| Descriptor.QueryProperties.JoinView | DBManager/QueryProperties.php:138-140 | the joined descriptor is visible exactly when a composite is attached |
| Descriptor.QueryProperties.GetHash | DBManager/QueryProperties.php:93-100 | computes the hash on first use and then memoizes it; later calls return the stored hash whatever was set in between |
| Descriptor.QueryProperties.SetTable | DBManager/QueryProperties.php:150-157 | throws iff table is set and the hash exists, and then changes nothing; otherwise stores the argument; writes only table |
| Descriptor.QueryProperties.SetSelect | DBManager/QueryProperties.php:159-166 | the same guard and store for select |
| Descriptor.QueryProperties.SetWhere | DBManager/QueryProperties.php:168-175 | the same guard and store for where |
| Descriptor.QueryProperties.SetWhereArgs | DBManager/QueryProperties.php:177-184 | the same guard and store for whereArgs |
| Descriptor.QueryProperties.SetOrderBy | DBManager/QueryProperties.php:186-193 | the same guard and store for orderBy |
| Descriptor.QueryProperties.SetLimit | DBManager/QueryProperties.php:195-202 | the same guard and store for limit |
| Descriptor.QueryProperties.SetOffset | DBManager/QueryProperties.php:204-211 | the same guard and store for offset |
| Descriptor.QueryProperties.SetJoin | DBManager/QueryProperties.php:213-220 | the same guard and store for join |
| Descriptor.QueryProperties.SetJoinOn | DBManager/QueryProperties.php:222-229 | the same guard and store for joinOn |
| Descriptor.QueryProperties.SetComposite | DBManager/QueryProperties.php:231-238 | the same guard and store for the composite |
| Descriptor.QueryProperties.SetFetchType | DBManager/QueryProperties.php:240-247 | throws iff fetchType is set and the hash exists; it changes no field, because the assignment goes to a misspelled property |
| Descriptor.QueryProperties.SetResult | DBManager/QueryProperties.php:249-256 | write-once: throws iff a result is already stored, whether or not the hash exists; otherwise stores it |
| Compiler.SelectText | DBManager/DBManager.php:78-97 | the select text: a string as given, a list as each column followed by `" , "`, then right-trimmed of `,` and spaces |
| Compiler.WhereText | DBManager/DBManager.php:108-133 | the where text: a string as given, a list as each condition followed by `"AND "`, then right-trimmed of `A`, `N`, `D` and spaces |
| Compiler.SelectListJoined | DBManager/DBManager.php:78-90 | a select list is stored as its columns joined by `" , "`, when the last column does not end in `,` or a space |
| Compiler.WhereListJoined | DBManager/DBManager.php:113-123 | a where list is stored as its conditions joined by `"AND "`, when the last condition does not end in `A`, `N`, `D` or a space |
| Compiler.WhereListOverTrims | DBManager/DBManager.php:120 | the set-based trim also eats the tail of a condition: `["a = ID"]` becomes `"a = I"` |
| Compiler.JoinQueriesPart | DBManager/DBManager.php:533-549 | the join part is `"<join> <table> ON <joinOn> "` and the joined select is the composite's select, with null read as empty |
| Compiler.OnlyFirstJoinLink | DBManager/DBManager.php:544-548 | the join part does not depend on whether the composite has a composite of its own |
| Compiler.Clauses | DBManager/DBManager.php:509-523 | the WHERE/ORDER BY/LIMIT/OFFSET tail is empty iff all four fields are null |
| Compiler.CreateQuery | DBManager/DBManager.php:475-528 | throws iff table or select is null, reporting the table first; otherwise the statement starts with `"SELECT " + select` |
| Compiler.QueryLayout | DBManager/DBManager.php:485-525 | the statement is the select (plus `", "` and the joined select when a join is attached), then `" FROM <table> "`, then the join part, then the optional clauses, in that order |
| Compiler.CreateQueryIgnoresHash | DBManager/DBManager.php:475-528 | the memoized hash does not enter the statement, so hashing a descriptor in the cache probe does not change what it renders |
| Compiler.JoinSplice | DBManager/DBManager.php:497-507 | attaching a join inserts exactly `", " + joinSelect` after the base select and the join part after `" FROM <table> "`, and leaves the rest of the statement as it was |
| Text.EndsWith | DBManager/DBManager.php:362 | `str_ends_with`: the string ends with the suffix |
| Text.RemoveAll | DBManager/DBManager.php:364 | `str_replace(pat, '', s)`: every occurrence of the pattern removed, scanning left to right |
| Compiler.RawColumnName | DBManager/DBManager.php:362-366 | a column `name%sql` is raw and appears in the column list as `name` |
| Compiler.Columns | DBManager/DBManager.php:360-372 | the column list has one entry per data entry, in order, with `%sql` removed from raw names |
| Compiler.ValuesMask | DBManager/DBManager.php:360-374 | insert's VALUES mask before trimming: per entry `:col, `, or the raw value with no separator |
| Compiler.ColumnBindings | DBManager/DBManager.php:360-374 | the bindings of insert and update's first loop: `":" + c` to c's value for each column that is not raw, a later entry overriding an earlier one |
| Compiler.InsertSql | DBManager/DBManager.php:376-380 | `INSERT INTO <table> (<trimmed columns>) VALUES(<trimmed mask>)`, with a null table read as empty |
| Compiler.ColumnBindingsKeys | DBManager/DBManager.php:372-374 | a key is bound iff it is `":" + c` for some column `c` that is not raw |
| Compiler.ColumnBindingValue | DBManager/DBManager.php:374 | with distinct column names, `":" + c` is bound to c's value |
| Compiler.ValuesMaskBound | DBManager/DBManager.php:373 | with no raw column, the VALUES mask is each `:col` followed by `", "` |
| Compiler.InsertValuesAllBound | DBManager/DBManager.php:373-378 | with no raw column, the trimmed VALUES mask is the `:col` placeholders joined by `", "` |
| Compiler.RawValueNotSeparated | DBManager/DBManager.php:367 | a raw value is not followed by a separator: `created_at%sql => NOW()` then `name` gives `"NOW():name, "` |
| Compiler.SetMask | DBManager/DBManager.php:415-425 | update's SET mask before trimming: per entry `col=:col, `, or `name=<raw value>, ` for a raw column |
| Compiler.WhereMask | DBManager/DBManager.php:429-434 | update's WHERE mask after n arguments: each `?` fragment followed by `" :i "`, a missing fragment read as empty |
| Compiler.ArgBindings | DBManager/DBManager.php:432-435 | the bindings after the where loop: `":i"` bound to argument i over the column bindings |
| Compiler.UpdateSql | DBManager/DBManager.php:437 | `UPDATE <table> SET <trimmed mask> WHERE <where mask>` |
| Compiler.ArgBindingsExact | DBManager/DBManager.php:432-435 | where argument i is bound to `":i"`, over any column binding of the same key |
| Compiler.ArgBindingsKeep | DBManager/DBManager.php:424-434 | a column binding whose key is no `":i"` survives the argument bindings unchanged |
| Compiler.RebuiltSplit | DBManager/DBManager.php:430-433 | the fragments of `explode('?', where)`, each but the last followed by its placeholder, give the where text with its `?`s replaced in order by `" :k "`, `" :k+1 "` and so on |
| Compiler.WhereMaskFront | DBManager/DBManager.php:432-433 | the loop's first n steps, followed by the remaining fragments with their placeholders, give the full rewrite |
| Compiler.WhereRebuild | DBManager/DBManager.php:429-435 | with exactly one argument per `?`, the WHERE mask followed by the text after the last `?` is the where template with every `?` replaced in order by `" :0 "`, `" :1 "` and so on |
| Cache.Lookup | DBManager/DBManager.php:554-566 | the probe: the result of the first entry whose hash equals the probed one, or null |
| Cache.Admit | DBManager/DBManager.php:574-584 | the admission of a non-null result: nothing at capacity 0 or below; otherwise the oldest entry is dropped when the count equals the capacity, and the new entry is appended |
| Cache.LookupMiss | DBManager/DBManager.php:554-566 | the cache probe misses iff no cached hash equals the probed hash |
| Cache.LookupHit | DBManager/DBManager.php:558-562 | the probe returns the result of the first cached descriptor with an equal hash |
| Cache.AdmitBounded | DBManager/DBManager.php:574-584 | a cache within its capacity stays within it after an admission |
| Cache.AdmitBeyondCapacity | DBManager/DBManager.php:576 | once the count is above the capacity, nothing is evicted any more |
| Cache.AdmitDisabled | DBManager/DBManager.php:574 | at capacity 0 or below, nothing is cached, so the probe for the offered hash answers as before |
| Cache.AdmitKeepsDistinct | DBManager/DBManager.php:554-584 | the hashes in the cache stay pairwise distinct: admitting an entry whose hash the probe missed keeps a cache of distinct hashes distinct, with or without eviction |
| Cache.SnocDistinct | DBManager/DBManager.php:583 | appending an entry with a hash the cache lacks keeps the hashes distinct |
| Cache.CachedThenFound | DBManager/DBManager.php:554-587 | a result cached under a hash that was not yet cached is what the next probe for that hash returns |
| Cache.AdmitAllKeepsNewest | DBManager/DBManager.php:572-587 | FIFO: after any run of admissions, the cache holds the `capacity` most recent entries, oldest first |
| Builder.EntriesOf | DBManager/DBManager.php:558-562 | the cache's entries are the hash and result of each cached descriptor, in order |
| Builder.EntriesOfTail | DBManager/DBManager.php:577 | array_shift on the descriptors drops the oldest entry |
| Builder.EntriesOfSnoc | DBManager/DBManager.php:583 | appending a descriptor appends its entry |
| Builder.Scan | DBManager/DBManager.php:558-565 | checkQueriesCache's loop returns the result of the first cached descriptor whose hash is the probed one, or null |
| Builder.InsertClauses | DBManager/DBManager.php:356-378 | insert's loop builds the trimmed column list, the trimmed VALUES mask and the `:column` bindings |
| Builder.AppendEach | DBManager/DBManager.php:83-85 | the accumulation loop of select and where appends the suffix after every item |
| Builder.SetClause | DBManager/DBManager.php:412-427 | update's first loop builds the trimmed SET mask and the `:column` bindings |
| Builder.WhereClause | DBManager/DBManager.php:429-435 | update's second loop builds the WHERE mask from the `?` fragments and binds `:i` to argument i |
| Builder.DBManager.Create | DBManager/DBManager.php:48-55 | a connected builder with a fresh, blank descriptor, an empty cache and caching off |
| Builder.DBManager.Detached | DBManager/DBManager.php:303 | the builder a join creates: no connection, a fresh blank descriptor, caching off |
| Builder.DBManager.EnableCashing | DBManager/DBManager.php:60-62 | sets the capacity, 20 by default |
| Builder.DBManager.Table | DBManager/DBManager.php:67-70 | sets the table through the guarded setter |
| Builder.DBManager.Select | DBManager/DBManager.php:78-97 | stores the select text, or for a list the columns each followed by `" , "` and then right-trimmed of `,` and spaces |
| Builder.DBManager.Where | DBManager/DBManager.php:108-133 | stores the arguments first, then the condition, or for a list the conditions each followed by `"AND "` and then right-trimmed of `A`, `N`, `D` and spaces; if the arguments are refused, the condition is not touched |
| Builder.DBManager.OrderBy | DBManager/DBManager.php:156-158 | stores the order text through the guarded setter |
| Builder.DBManager.Limit | DBManager/DBManager.php:166-170 | stores the limit, then the offset (0 by default); if the limit is refused, the offset is not touched |
| Builder.DBManager.On | DBManager/DBManager.php:285-288 | stores the join condition |
| Builder.DBManager.EndJoin | DBManager/DBManager.php:294-296 | returns the root builder it is given |
| Builder.DBManager.AttachJoin | DBManager/DBManager.php:302-307 | attaches a fresh builder as the composite, with the join keyword and the table set on its descriptor; throws iff a composite is attached and the hash exists |
| Builder.DBManager.InnerJoin | DBManager/DBManager.php:302-308 | attaches a fresh, unconnected composite with an empty cache whose descriptor reads `INNER JOIN` on the table; throws iff a composite is attached and the hash exists, and then leaves the composite as it was |
| Builder.DBManager.LeftJoin | DBManager/DBManager.php:314-320 | attaches a fresh, unconnected composite with an empty cache whose descriptor reads `LEFT JOIN` on the table; throws iff a composite is attached and the hash exists, and then leaves the composite as it was |
| Builder.DBManager.RightJoin | DBManager/DBManager.php:326-332 | attaches a fresh, unconnected composite with an empty cache whose descriptor reads `RIGHT JOIN` on the table; throws iff a composite is attached and the hash exists, and then leaves the composite as it was |
| Builder.DBManager.FullJoin | DBManager/DBManager.php:338-344 | attaches a fresh, unconnected composite with an empty cache whose descriptor reads `FULL JOIN` on the table; throws iff a composite is attached and the hash exists, and then leaves the composite as it was |
| Builder.DBManager.CheckQueriesCache | DBManager/DBManager.php:554-566 | hashes (and so freezes) the probed descriptor and returns the result of the first cached descriptor with the same hash, or null |
| Builder.DBManager.EvictIfFull | DBManager/DBManager.php:576-578 | drops the oldest descriptor exactly when the count equals the capacity |
| Builder.DBManager.Append | DBManager/DBManager.php:580-583 | stores the result on the current descriptor, hashes it, and appends it |
| Builder.DBManager.StoreResult | DBManager/DBManager.php:574-584 | the cache's entries become the FIFO admission of (hash, result) |
| Builder.DBManager.CacheAndResetQueryProperties | DBManager/DBManager.php:572-587 | caches a non-null result when the capacity is positive, evicting when the count equals the capacity; otherwise leaves the cache alone; always installs a fresh descriptor |
| Builder.DBManager.FetchAs | DBManager/DBManager.php:180-275 | with no connection, throws and changes nothing; a refused fetch type throws; a cache hit returns the cached result, sends nothing and leaves the cache alone; a missing table or select throws and keeps the now hashed descriptor; otherwise it sends the rendered query with the where arguments, caches the answer and resets the descriptor; hashes that were pairwise distinct in the cache stay so |
| Builder.CachedFetch | DBManager/DBManager.php:203-225 | a builder with caching on that has answered one `fetch()` holds exactly that row under the clauses' hash |
| Builder.FetchModesShareEntries | DBManager/QueryProperties.php:240-247 | `fetchAll()` on the clauses of an earlier `fetch()` returns that fetch's row from the cache and sends nothing, because the fetch mode never enters the hash |
| Builder.DBManager.Insert | DBManager/DBManager.php:354-385 | prepares `INSERT INTO <table> (<cols>) VALUES(<mask>)` with a `:column` binding per column that is not raw; fails without a connection |
| Builder.DBManager.Update | DBManager/DBManager.php:402-440 | throws when the table is null, then when where is null; otherwise prepares `UPDATE <table> SET <mask> WHERE <where mask>`, with the column bindings and `:i` bound to where argument i |

## Left out

- PDO itself is not modelled: the connection, `prepare`, `execute`, the fetch calls on the statement, `lastInsertId` (`getId`) and the transaction methods. The database is a `connected` flag, and a fetch's answer or update's success is a parameter.
- SHA-256 and `json_encode` of the where arguments are uninterpreted functions. Nothing about collisions is claimed.
- The static `$singleton` indirection (`$this->singleton` and `$this` in a static method) is replaced by the builder's own fields.
- The getters are not separate members. Each only returns its field, and the model reads the fields directly.
- The list branch of `orderBy` is not modelled. It uses numeric `+=` on strings, which is a TypeError in PHP 8.
- FetchAs: the answer is always a non-null result. PDO's `false` for an empty fetch, and the scalar that `fetchSingle` passes to the `array|null` parameter of `cacheAndResetQueryProperties`, are not modelled. Neither is the column index of `fetchSingle`, which only PDO reads.
- Builder.DBManager.Detached: in the code, `new DBManager()` in the join methods leaves the new builder's descriptor null, and the next call on it fails. The model gives it a fresh blank descriptor, as the join methods evidently expect.
- Insert: with no connection the model returns `NotConnected`, where the code calls a method on null.
- Update: with no connection the model returns `NotConnected` after the table and where checks, where the code calls a method on null.
- The composite is recorded by its descriptor, not by the joined builder object. The joined builder's connection and cache are never read.
- `test.php` is a demonstration script against a live database and is not part of this model. `DBManagerInterface.php` has only signatures and is not part of this model.
