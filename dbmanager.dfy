/**
 * The fluent builder: it fills in the current descriptor, hangs join
 * descriptors off it, renders and issues statements, and keeps the bounded
 * FIFO cache of answered descriptors. The database is a collaborator: the
 * builder only records whether one is connected, hands it the statements it
 * would prepare, and receives its answer as a parameter.
 */
module Builder {
  import opened Common
  import opened Text
  import opened Descriptor
  import opened Compiler
  import opened Cache

  /** enableCashing's default capacity. */
  const DEFAULT_MAX_CACHED_QUERIES := 20

  /** The four terminal fetch calls: fetchSingle($index), fetch, fetchAll, fetchPairs. */
  datatype FetchMode = Single(index: int) | OneRow | AllRows | Pairs

  /** The FETCH_* constant each fetch call passes to setFetchType. */
  function FetchTypeName(m: FetchMode): string
  {
    match m
    case Single(_) => FETCH_SINGLE
    case OneRow => FETCH
    case AllRows => FETCH_ALL
    case Pairs => FETCH_PAIRS
  }

  /** What execute() receives: the positional where arguments, or a `:name => value` map. */
  datatype Params = Positional(args: seq<Value>) | Named(binds: map<string, Value>)

  /** A statement as handed to prepare() and execute(). */
  datatype Statement = Statement(sql: string, params: Params)

  /** A prepared query together with the fetch call that reads its rows. */
  datatype Request = Request(statement: Statement, mode: FetchMode)

  /** The where arguments as execute() and update() see them; a null list is empty. */
  function ArgsOf(args: Option<seq<Value>>): seq<Value>
  {
    if args.Some? then args.value else []
  }

  /** The cache entries of a list of cached descriptors. */
  function EntriesOf(cached: seq<QueryProperties>): (es: seq<Entry>)
    reads cached
    requires forall q <- cached :: q.hash.Some? && q.result.Some?
    ensures |es| == |cached|
    ensures forall i :: 0 <= i < |cached| ==> es[i] == (cached[i].hash.value, cached[i].result.value)
  {
    if cached == [] then []
    else [(cached[0].hash.value, cached[0].result.value)] + EntriesOf(cached[1..])
  }

  /** Dropping the oldest cached descriptor drops the oldest entry. */
  lemma EntriesOfTail(cached: seq<QueryProperties>)
    requires cached != [] && forall q <- cached :: q.hash.Some? && q.result.Some?
    ensures EntriesOf(cached[1..]) == EntriesOf(cached)[1..]
  {
  }

  /** Appending a cached descriptor appends its entry. */
  lemma EntriesOfSnoc(cached: seq<QueryProperties>, q: QueryProperties)
    requires forall c <- cached :: c.hash.Some? && c.result.Some?
    requires q.hash.Some? && q.result.Some?
    ensures EntriesOf(cached + [q]) == EntriesOf(cached) + [(q.hash.value, q.result.value)]
  {
    assert (cached + [q])[..|cached|] == cached;
  }

  /** checkQueriesCache's loop: the result of the first cached descriptor whose hash is `h`, or null. */
  method Scan(cached: seq<QueryProperties>, h: string) returns (r: Option<Fetched>)
    requires forall q <- cached :: q.hash.Some? && q.result.Some?
    ensures r == Lookup(EntriesOf(cached), h)
  {
    ghost var entries := EntriesOf(cached);
    for i := 0 to |cached|
      invariant forall j :: 0 <= j < i ==> entries[j].0 != h
    {
      if cached[i].hash.value == h {
        LookupHit(entries, h, i);
        return cached[i].result;
      }
    }
    LookupMiss(entries, h);
    r := None;
  }

  /** The accumulation loop of select() and where(): appends `item . suffix` for every item. */
  method AppendEach(items: seq<string>, suffix: string) returns (acc: string)
    ensures acc == Suffixed(items, suffix)
  {
    acc := "";
    for i := 0 to |items|
      invariant acc == Suffixed(items[..i], suffix)
    {
      assert items[..i + 1][..i] == items[..i];
      acc := acc + items[i] + suffix;
    }
    assert items[..|items|] == items;
  }

  /** One step of insert()'s loop, on the three things it accumulates. */
  lemma InsertStep(data: seq<(string, Value)>, i: nat)
    requires i < |data|
    ensures Suffixed(Columns(data[..i + 1]), ", ") == Suffixed(Columns(data[..i]), ", ") + ColumnName(data[i].0) + ", "
    ensures ValuesMask(data[..i + 1]) == ValuesMask(data[..i]) + ValuePiece(data[i].0, data[i].1)
    ensures ColumnBindings(data[..i + 1])
      == if IsRaw(data[i].0) then ColumnBindings(data[..i]) else ColumnBindings(data[..i])[":" + data[i].0 := data[i].1]
  {
    assert data[..i + 1][..i] == data[..i];
    assert Columns(data[..i + 1])[..i] == Columns(data[..i]);
  }

  /**
   * insert()'s loop: the column list (a raw column without its "%sql"
   * tag) and the VALUES mask, both right-trimmed, and the `:column`
   * bindings of the columns that are not raw.
   */
  method InsertClauses(data: seq<(string, Value)>) returns (cols: string, valuesMask: string, binds: map<string, Value>)
    ensures cols == RTrim(Suffixed(Columns(data), ", "), ListTrim)
    ensures valuesMask == RTrim(ValuesMask(data), ListTrim)
    ensures binds == ColumnBindings(data)
  {
    cols, valuesMask, binds := "", "", map[];
    for i := 0 to |data|
      invariant cols == Suffixed(Columns(data[..i]), ", ")
      invariant valuesMask == ValuesMask(data[..i])
      invariant binds == ColumnBindings(data[..i])
    {
      var (column, value) := data[i];
      InsertStep(data, i);
      if IsRaw(column) {
        cols := cols + RemoveAll(column, RawTag) + ", ";
        valuesMask := valuesMask + ValueText(value);
        continue;
      }
      cols := cols + column + ", ";
      var piece := ":" + column + ", ";
      assert piece == ValuePiece(column, value);
      valuesMask := valuesMask + piece;
      binds := binds[":" + column := value];
    }
    assert data[..|data|] == data;
    cols := RTrim(cols, ListTrim);
    valuesMask := RTrim(valuesMask, ListTrim);
  }

  /** One step of update()'s first loop, on the mask and the bindings. */
  lemma SetStep(data: seq<(string, Value)>, i: nat)
    requires i < |data|
    ensures SetMask(data[..i + 1]) == SetMask(data[..i]) + SetPiece(data[i].0, data[i].1)
    ensures ColumnBindings(data[..i + 1])
      == if IsRaw(data[i].0) then ColumnBindings(data[..i]) else ColumnBindings(data[..i])[":" + data[i].0 := data[i].1]
  {
    assert data[..i + 1][..i] == data[..i];
  }

  /** update()'s first loop: the SET mask, right-trimmed, and the `:column` bindings. */
  method SetClause(data: seq<(string, Value)>) returns (mask: string, binds: map<string, Value>)
    ensures mask == RTrim(SetMask(data), ListTrim)
    ensures binds == ColumnBindings(data)
  {
    mask := "";
    binds := map[];
    for i := 0 to |data|
      invariant mask == SetMask(data[..i])
      invariant binds == ColumnBindings(data[..i])
    {
      var (column, value) := data[i];
      SetStep(data, i);
      if IsRaw(column) {
        var piece := RemoveAll(column, RawTag) + "=" + ValueText(value) + ", ";
        assert piece == SetPiece(column, value);
        mask := mask + piece;
        continue;
      }
      var piece := column + "=:" + column + ", ";
      assert piece == SetPiece(column, value);
      mask := mask + piece;
      binds := binds[":" + column := value];
    }
    assert data[..|data|] == data;
    mask := RTrim(mask, ListTrim);
  }

  /** One step of update()'s second loop, on the bindings. */
  lemma WhereStep(binds: map<string, Value>, args: seq<Value>, key: nat)
    requires key < |args|
    ensures ArgBindings(binds, args[..key + 1]) == ArgBindings(binds, args[..key])[":" + NatToString(key) := args[key]]
  {
    assert args[..key + 1][..key] == args[..key];
  }

  /**
   * update()'s second loop: the where template cut at every '?', each
   * argument's fragment followed by its `:key` placeholder, and `:key`
   * bound to the argument over the column bindings.
   */
  method WhereClause(where: string, args: seq<Value>, binds: map<string, Value>)
    returns (whereMask: string, allBinds: map<string, Value>)
    ensures whereMask == WhereMask(Split(where, '?'), |args|)
    ensures allBinds == ArgBindings(binds, args)
  {
    whereMask := "";
    allBinds := binds;
    var whereConditions := Split(where, '?');
    for key := 0 to |args|
      invariant whereMask == WhereMask(whereConditions, key)
      invariant allBinds == ArgBindings(binds, args[..key])
    {
      WhereStep(binds, args, key);
      whereMask := whereMask + Fragment(whereConditions, key) + Placeholder(key);
      allBinds := allBinds[":" + NatToString(key) := args[key]];
    }
    assert args[..|args|] == args;
  }

  class DBManager {
    /** Whether a database connection is set ($database !== null). */
    var connected: bool
    /** The descriptor the fluent calls fill in. */
    var queryProperty: QueryProperties
    var maxCachedQueries: int
    /** The cached descriptors, oldest first. */
    var queriesCache: seq<QueryProperties>
    /** The hash and JSON functions every descriptor of this builder is hashed with. */
    const digest: Digest

    /**
     * The builder's invariant: the current descriptor is not one of the
     * cached ones and holds no result yet, and every cached descriptor is
     * hashed and holds its result.
     */
    ghost predicate Valid()
      reads this, queryProperty, queriesCache
    {
      && queryProperty !in queriesCache
      && queryProperty.result.None?
      && queryProperty.composite != queryProperty
      && forall q <- queriesCache :: q.hash.Some? && q.result.Some?
    }

    /** The cache as a list of (hash, result) entries, oldest first. */
    ghost function Entries(): seq<Entry>
      reads this, queryProperty, queriesCache
      requires Valid()
    {
      EntriesOf(queriesCache)
    }

    /** create(): a connected builder with a fresh descriptor and caching off. */
    constructor Create(d: Digest)
      ensures Valid() && fresh(queryProperty)
      ensures connected && digest == d && maxCachedQueries == 0 && queriesCache == []
      ensures queryProperty.Snapshot() == Blank
    {
      connected := true;
      queryProperty := new QueryProperties();
      maxCachedQueries := 0;
      queriesCache := [];
      digest := d;
    }

    /** new DBManager() as the join methods create it: no connection, a fresh descriptor, caching off. */
    constructor Detached(d: Digest)
      ensures Valid() && fresh(queryProperty)
      ensures !connected && digest == d && maxCachedQueries == 0 && queriesCache == []
      ensures queryProperty.Snapshot() == Blank
    {
      connected := false;
      queryProperty := new QueryProperties();
      maxCachedQueries := 0;
      queriesCache := [];
      digest := d;
    }

    /** enableCashing(): sets the capacity, 20 when not given; 0 or less turns caching off. */
    method EnableCashing(maxCached: int := DEFAULT_MAX_CACHED_QUERIES)
      modifies this`maxCachedQueries
      ensures maxCachedQueries == maxCached
    {
      maxCachedQueries := maxCached;
    }

    method Table(name: string) returns (s: Status)
      requires Valid()
      modifies queryProperty`table
      ensures Valid()
      ensures s.Failed? <==> old(queryProperty.table.Some? && queryProperty.hash.Some?)
      ensures s.Failed? ==> s.error == Frozen(TableField) && queryProperty.table == old(queryProperty.table)
      ensures s.Done? ==> queryProperty.table == Some(name)
    {
      s := queryProperty.SetTable(name);
    }

    /** select(): a list is accumulated with " , " after every column, then right-trimmed of ',' and ' '. */
    method Select(sel: Listing) returns (s: Status)
      requires Valid()
      modifies queryProperty`select
      ensures Valid()
      ensures s.Failed? <==> old(queryProperty.select.Some? && queryProperty.hash.Some?)
      ensures s.Failed? ==> s.error == Frozen(SelectField) && queryProperty.select == old(queryProperty.select)
      ensures s.Done? ==> queryProperty.select == Some(SelectText(sel))
    {
      if sel.Many? {
        var selectString := AppendEach(sel.items, " , ");
        selectString := RTrim(selectString, ListTrim);
        s := queryProperty.SetSelect(selectString);
        return;
      }
      s := queryProperty.SetSelect(sel.text);
    }

    /**
     * where(): stores the arguments first, then the condition; a list of
     * conditions is accumulated with "AND " after each, then right-trimmed of
     * 'A', 'N', 'D' and ' '.
     */
    method Where(w: Listing, args: seq<Value>) returns (s: Status)
      requires Valid()
      modifies queryProperty`whereArgs, queryProperty`where
      ensures Valid()
      ensures old(queryProperty.whereArgs.Some? && queryProperty.hash.Some?) ==>
        s == Failed(Frozen(WhereArgsField)) && queryProperty.whereArgs == old(queryProperty.whereArgs)
        && queryProperty.where == old(queryProperty.where)
      ensures !old(queryProperty.whereArgs.Some? && queryProperty.hash.Some?) ==>
        && queryProperty.whereArgs == Some(args)
        && (s.Failed? <==> old(queryProperty.where.Some? && queryProperty.hash.Some?))
        && (s.Failed? ==> s.error == Frozen(WhereField) && queryProperty.where == old(queryProperty.where))
        && (s.Done? ==> queryProperty.where == Some(WhereText(w)))
    {
      s := queryProperty.SetWhereArgs(args);
      if s.Failed? {
        return;
      }
      if w.Many? {
        var whereString := AppendEach(w.items, "AND ");
        whereString := RTrim(whereString, AndTrim);
        s := queryProperty.SetWhere(whereString);
        return;
      }
      s := queryProperty.SetWhere(w.text);
    }

    /** orderBy() given a string. */
    method OrderBy(order: string) returns (s: Status)
      requires Valid()
      modifies queryProperty`orderBy
      ensures Valid()
      ensures s.Failed? <==> old(queryProperty.orderBy.Some? && queryProperty.hash.Some?)
      ensures s.Failed? ==> s.error == Frozen(OrderByField) && queryProperty.orderBy == old(queryProperty.orderBy)
      ensures s.Done? ==> queryProperty.orderBy == Some(order)
    {
      s := queryProperty.SetOrderBy(order);
    }

    /** limit($limit, $offset = 0): the limit first, then the offset. */
    method Limit(limit: int, offset: int := 0) returns (s: Status)
      requires Valid()
      modifies queryProperty`limit, queryProperty`offset
      ensures Valid()
      ensures old(queryProperty.limit.Some? && queryProperty.hash.Some?) ==>
        s == Failed(Frozen(LimitField)) && queryProperty.limit == old(queryProperty.limit)
        && queryProperty.offset == old(queryProperty.offset)
      ensures !old(queryProperty.limit.Some? && queryProperty.hash.Some?) ==>
        && queryProperty.limit == Some(limit)
        && (s.Failed? <==> old(queryProperty.offset.Some? && queryProperty.hash.Some?))
        && (s.Failed? ==> s.error == Frozen(OffsetField) && queryProperty.offset == old(queryProperty.offset))
        && (s.Done? ==> queryProperty.offset == Some(offset))
    {
      s := queryProperty.SetLimit(limit);
      if s.Failed? {
        return;
      }
      s := queryProperty.SetOffset(offset);
    }

    /** on(): the join condition of the (join) descriptor this builder fills in. */
    method On(condition: string) returns (s: Status)
      requires Valid()
      modifies queryProperty`joinOn
      ensures Valid()
      ensures s.Failed? <==> old(queryProperty.joinOn.Some? && queryProperty.hash.Some?)
      ensures s.Failed? ==> s.error == Frozen(JoinOnField) && queryProperty.joinOn == old(queryProperty.joinOn)
      ensures s.Done? ==> queryProperty.joinOn == Some(condition)
    {
      s := queryProperty.SetJoinOn(condition);
    }

    /** endJoin(): hands back the root builder, so that the chain continues on it. */
    method EndJoin(root: DBManager) returns (b: DBManager)
      ensures b == root
    {
      b := root;
    }

    /**
     * The body shared by the four join methods: a fresh, unconnected builder
     * becomes the composite, its descriptor gets the join keyword and the
     * table, and it is returned so that the chain continues on it.
     */
    method AttachJoin(kind: string, table: string) returns (s: Status, c: DBManager)
      requires Valid()
      modifies queryProperty`composite
      ensures Valid() && c.Valid() && fresh(c) && fresh(c.queryProperty)
      ensures !c.connected && c.digest == digest && c.queriesCache == []
      ensures s.Failed? <==> old(queryProperty.composite != null && queryProperty.hash.Some?)
      ensures s.Failed? ==> s.error == Frozen(CompositeField) && queryProperty.composite == old(queryProperty.composite)
      ensures s.Done? ==> (queryProperty.composite == c.queryProperty
        && c.queryProperty.Snapshot() == Blank.(join := Some(kind), table := Some(table)))
    {
      c := new DBManager.Detached(digest);
      s := queryProperty.SetComposite(c.queryProperty);
      if s.Failed? {
        return;
      }
      var j := c.queryProperty.SetJoin(kind);
      var t := c.queryProperty.SetTable(table);
    }

    method InnerJoin(table: string) returns (s: Status, c: DBManager)
      requires Valid()
      modifies queryProperty`composite
      ensures Valid() && c.Valid() && fresh(c) && fresh(c.queryProperty)
      ensures !c.connected && c.digest == digest && c.queriesCache == []
      ensures s.Failed? <==> old(queryProperty.composite != null && queryProperty.hash.Some?)
      ensures s.Failed? ==> s.error == Frozen(CompositeField) && queryProperty.composite == old(queryProperty.composite)
      ensures s.Done? ==> (queryProperty.composite == c.queryProperty
        && c.queryProperty.Snapshot() == Blank.(join := Some("INNER JOIN"), table := Some(table)))
    {
      s, c := AttachJoin("INNER JOIN", table);
    }

    method LeftJoin(table: string) returns (s: Status, c: DBManager)
      requires Valid()
      modifies queryProperty`composite
      ensures Valid() && c.Valid() && fresh(c) && fresh(c.queryProperty)
      ensures !c.connected && c.digest == digest && c.queriesCache == []
      ensures s.Failed? <==> old(queryProperty.composite != null && queryProperty.hash.Some?)
      ensures s.Failed? ==> s.error == Frozen(CompositeField) && queryProperty.composite == old(queryProperty.composite)
      ensures s.Done? ==> (queryProperty.composite == c.queryProperty
        && c.queryProperty.Snapshot() == Blank.(join := Some("LEFT JOIN"), table := Some(table)))
    {
      s, c := AttachJoin("LEFT JOIN", table);
    }

    method RightJoin(table: string) returns (s: Status, c: DBManager)
      requires Valid()
      modifies queryProperty`composite
      ensures Valid() && c.Valid() && fresh(c) && fresh(c.queryProperty)
      ensures !c.connected && c.digest == digest && c.queriesCache == []
      ensures s.Failed? <==> old(queryProperty.composite != null && queryProperty.hash.Some?)
      ensures s.Failed? ==> s.error == Frozen(CompositeField) && queryProperty.composite == old(queryProperty.composite)
      ensures s.Done? ==> (queryProperty.composite == c.queryProperty
        && c.queryProperty.Snapshot() == Blank.(join := Some("RIGHT JOIN"), table := Some(table)))
    {
      s, c := AttachJoin("RIGHT JOIN", table);
    }

    method FullJoin(table: string) returns (s: Status, c: DBManager)
      requires Valid()
      modifies queryProperty`composite
      ensures Valid() && c.Valid() && fresh(c) && fresh(c.queryProperty)
      ensures !c.connected && c.digest == digest && c.queriesCache == []
      ensures s.Failed? <==> old(queryProperty.composite != null && queryProperty.hash.Some?)
      ensures s.Failed? ==> s.error == Frozen(CompositeField) && queryProperty.composite == old(queryProperty.composite)
      ensures s.Done? ==> (queryProperty.composite == c.queryProperty
        && c.queryProperty.Snapshot() == Blank.(join := Some("FULL JOIN"), table := Some(table)))
    {
      s, c := AttachJoin("FULL JOIN", table);
    }

    /**
     * checkQueriesCache(): hashes (and so freezes) the probed descriptor, then
     * returns the result of the first cached descriptor with the same hash.
     * A cached descriptor's getHash() returns its memoized hash, read here directly.
     */
    method CheckQueriesCache(p: QueryProperties) returns (r: Option<Fetched>)
      requires Valid() && p !in queriesCache
      modifies p`hash
      ensures Valid() && Entries() == old(Entries())
      ensures p.hash == Some(HashOf(old(p.Snapshot()), digest))
      ensures r == Lookup(Entries(), p.hash.value)
    {
      ghost var entries := EntriesOf(queriesCache);
      var h := p.GetHash(digest);
      assert EntriesOf(queriesCache) == entries;
      r := Scan(queriesCache, h);
    }

    /** array_shift on a full cache: the oldest descriptor goes when the count equals the capacity. */
    method EvictIfFull()
      requires Valid() && maxCachedQueries > 0
      modifies this`queriesCache
      ensures Valid()
      ensures Entries() == if |old(queriesCache)| == maxCachedQueries then old(Entries())[1..] else old(Entries())
    {
      if |queriesCache| == maxCachedQueries {
        EntriesOfTail(queriesCache);
        queriesCache := queriesCache[1..];
      }
    }

    /** Stores the result on the current descriptor, hashes (and so freezes) it, and appends it to the cache. */
    method Append(result: Fetched)
      requires Valid()
      modifies this`queriesCache, queryProperty`hash, queryProperty`result
      ensures forall q <- queriesCache :: q.hash.Some? && q.result.Some?
      ensures EntriesOf(queriesCache) == old(Entries()) + [(HashOf(old(queryProperty.Snapshot()), digest), result)]
    {
      ghost var before := EntriesOf(queriesCache);
      var stored := queryProperty.SetResult(result);
      var h := queryProperty.GetHash(digest);
      assert EntriesOf(queriesCache) == before;
      EntriesOfSnoc(queriesCache, queryProperty);
      queriesCache := queriesCache + [queryProperty];
    }

    /**
     * The caching half of cacheAndResetQueryProperties(): evicts the oldest
     * descriptor when the count equals the capacity, then stores the result
     * on the hashed current descriptor at the end of the cache.
     */
    method StoreResult(result: Fetched)
      requires Valid() && maxCachedQueries > 0
      modifies this`queriesCache, queryProperty`hash, queryProperty`result
      ensures forall q <- queriesCache :: q.hash.Some? && q.result.Some?
      ensures EntriesOf(queriesCache) ==
        Admit(old(Entries()), maxCachedQueries, (HashOf(old(queryProperty.Snapshot()), digest), result))
    {
      EvictIfFull();
      Append(result);
    }

    /**
     * cacheAndResetQueryProperties(): a non-null result is cached (when the
     * capacity is positive) on the hashed current descriptor, evicting the
     * oldest entry when the count equals the capacity; then a fresh
     * descriptor is installed in every case.
     */
    method CacheAndResetQueryProperties(result: Option<Fetched>)
      requires Valid()
      modifies this, queryProperty`hash, queryProperty`result
      ensures Valid() && fresh(queryProperty) && queryProperty.Snapshot() == Blank
      ensures connected == old(connected) && maxCachedQueries == old(maxCachedQueries)
      ensures result.Some? ==>
        Entries() == Admit(old(Entries()), maxCachedQueries, (HashOf(old(queryProperty.Snapshot()), digest), result.value))
      ensures result.None? ==> Entries() == old(Entries())
    {
      if result.Some? && maxCachedQueries > 0 {
        StoreResult(result.value);
      }
      ghost var after := EntriesOf(queriesCache);
      queryProperty := new QueryProperties();
      assert EntriesOf(queriesCache) == after;
    }

    /**
     * The four fetch calls (fetchSingle, fetch, fetchAll, fetchPairs) differ
     * only in `mode`. `answer` is what the database returns if it is asked;
     * `sent` is the request it is asked, if any.
     */
    method FetchAs(mode: FetchMode, answer: Fetched) returns (r: Result<Fetched>, sent: Option<Request>)
      requires Valid()
      modifies this, queryProperty`hash, queryProperty`result
      ensures Valid()
      ensures connected == old(connected) && maxCachedQueries == old(maxCachedQueries)
      ensures !old(connected) ==>
        r == Err(NotConnected) && sent.None? && queryProperty == old(queryProperty)
        && queryProperty.hash == old(queryProperty.hash) && Entries() == old(Entries())
      ensures old(connected && queryProperty.fetchType.Some? && queryProperty.hash.Some?) ==>
        r == Err(Frozen(FetchTypeField)) && sent.None? && queryProperty == old(queryProperty)
        && Entries() == old(Entries())
      ensures old(connected && !(queryProperty.fetchType.Some? && queryProperty.hash.Some?)) ==>
        var key := HashOf(old(queryProperty.Snapshot()), digest);
        var hit := Lookup(old(Entries()), key);
        var query := CreateQuery(old(queryProperty.Snapshot()), old(queryProperty.JoinView()));
        if hit.Some? then
          r == Ok(hit.value) && sent.None? && Entries() == old(Entries())
          && fresh(queryProperty) && queryProperty.Snapshot() == Blank
        else if query.Err? then
          r == Err(query.error) && sent.None? && Entries() == old(Entries())
          && queryProperty == old(queryProperty) && queryProperty.hash == Some(key)
        else
          && r == Ok(answer)
          && sent == Some(Request(Statement(query.value, Positional(ArgsOf(old(queryProperty.whereArgs)))), mode))
          && Entries() == Admit(old(Entries()), maxCachedQueries, (key, answer))
          && fresh(queryProperty) && queryProperty.Snapshot() == Blank
      ensures Distinct(old(Entries())) ==> Distinct(Entries())
    {
      if !connected {
        return Err(NotConnected), None;
      }
      var typed := queryProperty.SetFetchType(FetchTypeName(mode));
      if typed.Failed? {
        return Err(typed.error), None;
      }
      ghost var before, joined := queryProperty.Snapshot(), queryProperty.JoinView();
      var cachedResult := CheckQueriesCache(queryProperty);
      if cachedResult.Some? {
        CacheAndResetQueryProperties(None);
        return Ok(cachedResult.value), None;
      }
      assert queryProperty.Snapshot() == before.(hash := queryProperty.hash);
      assert queryProperty.JoinView() == joined;
      CreateQueryIgnoresHash(before, joined, queryProperty.hash);
      var query := CreateQuery(queryProperty.Snapshot(), queryProperty.JoinView());
      if query.Err? {
        return Err(query.error), None;
      }
      sent := Some(Request(Statement(query.value, Positional(ArgsOf(queryProperty.whereArgs))), mode));
      ghost var entries, key := Entries(), queryProperty.hash.value;
      CacheAndResetQueryProperties(Some(answer));
      if Distinct(entries) {
        AdmitKeepsDistinct(entries, maxCachedQueries, (key, answer));
      }
      r := Ok(answer);
    }

    /**
     * insert(): the column list and the VALUES mask, with a `:column` binding
     * per ordinary column and the raw value inlined for a "%sql" column.
     * The table is not checked; without a connection prepare() fails.
     */
    method Insert(data: seq<(string, Value)>) returns (s: Status, sent: Option<Statement>)
      ensures !connected ==> s == Failed(NotConnected) && sent.None?
      ensures connected ==>
        s == Done && sent == Some(Statement(InsertSql(queryProperty.table, data), Named(ColumnBindings(data))))
    {
      var cols, valuesMask, binds := InsertClauses(data);
      if !connected {
        return Failed(NotConnected), None;
      }
      var sql := "INSERT INTO " + OrEmpty(queryProperty.table) + " (" + cols + ") VALUES(" + valuesMask + ")";
      sent := Some(Statement(sql, Named(binds)));
      s := Done;
    }

    /**
     * update(): needs the table and the where condition; the SET mask binds
     * `:column` per ordinary column and inlines raw ones; the where template
     * is cut at every '?' and rebuilt with `:i` placeholders, `:i` bound to
     * the i-th where argument. `accepted` is what execute() answers.
     */
    method Update(data: seq<(string, Value)>, accepted: bool) returns (r: Result<bool>, sent: Option<Statement>)
      ensures queryProperty.table.None? ==> r == Err(MissingTable) && sent.None?
      ensures queryProperty.table.Some? && queryProperty.where.None? ==> r == Err(MissingWhere) && sent.None?
      ensures queryProperty.table.Some? && queryProperty.where.Some? && !connected ==>
        r == Err(NotConnected) && sent.None?
      ensures queryProperty.table.Some? && queryProperty.where.Some? && connected ==>
        var args := ArgsOf(queryProperty.whereArgs);
        && r == Ok(accepted)
        && sent == Some(Statement(
             UpdateSql(queryProperty.table.value, data, queryProperty.where.value, |args|),
             Named(ArgBindings(ColumnBindings(data), args))))
    {
      if queryProperty.table.None? {
        return Err(MissingTable), None;
      }
      if queryProperty.where.None? {
        return Err(MissingWhere), None;
      }
      var mask, binds := SetClause(data);
      var args := ArgsOf(queryProperty.whereArgs);
      var whereMask, allBinds := WhereClause(queryProperty.where.value, args, binds);
      if !connected {
        return Err(NotConnected), None;
      }
      var sql := "UPDATE " + queryProperty.table.value + " SET " + mask + " WHERE " + whereMask;
      sent := Some(Statement(sql, Named(allBinds)));
      r := Ok(accepted);
    }
  }

  /** The descriptor holding only a table and a one-text select. */
  function TableSelect(table: string, columns: string): (p: Props)
    ensures p.hash.None? && p.fetchType.None? && !p.hasComposite
  {
    Blank.(table := Some(table), select := Some(columns))
  }

  /**
   * A connected builder with caching on that has answered one fetch() of
   * `table` and `columns` with `row`: its cache holds that row under the
   * clauses' hash, and its descriptor is blank again.
   */
  method CachedFetch(d: Digest, table: string, columns: string, row: Fetched) returns (db: DBManager)
    ensures fresh(db) && fresh(db.queryProperty) && db.Valid() && db.connected && db.digest == d
    ensures db.queryProperty.Snapshot() == Blank && db.queryProperty.composite == null
    ensures db.Entries() == [(HashOf(TableSelect(table, columns), d), row)]
  {
    db := new DBManager.Create(d);
    db.EnableCashing();
    var t := db.Table(table);
    var c := db.Select(One(columns));
    assert db.queryProperty.Snapshot() == TableSelect(table, columns) && db.queryProperty.JoinView().None?;
    assert db.Entries() == [] && db.connected;
    assert CreateQuery(TableSelect(table, columns), None).Ok?;
    var r, sent := db.FetchAs(OneRow, row);
  }

  /**
   * As written, the fetch mode never reaches the hash: setFetchType assigns
   * a misspelled property, so fetchType stays null and the four fetch calls
   * share cache entries. With caching on, fetchAll() on the clauses of an
   * earlier fetch() returns that fetch's single row from the cache, and no
   * statement reaches the database.
   */
  method FetchModesShareEntries(d: Digest, table: string, columns: string, row: Fetched, rows: Fetched)
    returns (r: Result<Fetched>, sent: Option<Request>)
    ensures r == Ok(row) && sent.None?
  {
    var db := CachedFetch(d, table, columns, row);
    var t := db.Table(table);
    var c := db.Select(One(columns));
    assert db.queryProperty.Snapshot() == TableSelect(table, columns);
    assert Lookup(db.Entries(), HashOf(TableSelect(table, columns), d)) == Some(row);
    r, sent := db.FetchAs(AllRows, rows);
  }
}
