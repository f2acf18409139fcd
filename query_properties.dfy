/**
 * The query descriptor: a record of optional clause fields that the fluent
 * builder fills in, a lazily computed and memoized hash that freezes the
 * fields already set, and a write-once result.
 */
module Descriptor {
  import opened Common
  import opened Text

  /** The fetch-type constants FETCH_SINGLE, FETCH, FETCH_ALL and FETCH_PAIRS. */
  const FETCH_SINGLE := "fetch_single"
  const FETCH := "fetch"
  const FETCH_ALL := "fetch_all"
  const FETCH_PAIRS := "fetch_pairs"

  /**
   * The two foreign library calls the hash is built from: hash('SHA256', ...)
   * and json_encode of the where arguments. Both are left uninterpreted.
   */
  datatype Digest = Digest(sha256: string -> string, json: seq<Value> -> string)

  /** The fields of one descriptor at one instant; the composite is seen only as present or absent. */
  datatype Props = Props(
    table: Option<string>,
    select: Option<string>,
    where: Option<string>,
    whereArgs: Option<seq<Value>>,
    orderBy: Option<string>,
    limit: Option<int>,
    offset: Option<int>,
    join: Option<string>,
    joinOn: Option<string>,
    hasComposite: bool,
    fetchType: Option<string>,
    hash: Option<string>,
    result: Option<Fetched>)

  /** A freshly constructed descriptor: every field null. */
  const Blank := Props(None, None, None, None, None, None, None, None, None, false, None, None, None)

  function IntText(i: Option<int>): string
  {
    if i.Some? then IntToString(i.value) else ""
  }

  /** json_encode of the where arguments: the array's encoding, or "null". */
  function ArgsJson(args: Option<seq<Value>>, d: Digest): string
  {
    if args.Some? then d.json(args.value) else "null"
  }

  /**
   * json_encode of the composite: a DBManager has private fields only, so an
   * attached composite encodes as "{}" whatever it holds, and none as "null".
   */
  function CompositeJson(hasComposite: bool): string
  {
    if hasComposite then "{}" else "null"
  }

  /** The string that is hashed: the fields concatenated in order, without separators. */
  function Canonical(p: Props, d: Digest): string
  {
    OrEmpty(p.table) + OrEmpty(p.select) + OrEmpty(p.where) + ArgsJson(p.whereArgs, d) + OrEmpty(p.orderBy)
    + IntText(p.limit) + IntText(p.offset) + OrEmpty(p.join) + OrEmpty(p.joinOn)
    + CompositeJson(p.hasComposite) + OrEmpty(p.fetchType)
  }

  /** The hash computed from the fields when none has been memoized yet. */
  function Key(p: Props, d: Digest): string
  {
    d.sha256(Canonical(p, d))
  }

  /** What getHash returns for a descriptor in state `p`: the memoized hash if there is one. */
  function HashOf(p: Props, d: Digest): (h: string)
    ensures p.hash.Some? ==> h == p.hash.value
    ensures p.hash.None? ==> h == Key(p, d)
  {
    if p.hash.Some? then p.hash.value else Key(p, d)
  }

  /** Two descriptors whose hashed fields agree receive the same hash. */
  lemma KeyDeterministic(p: Props, q: Props, d: Digest)
    requires p.table == q.table && p.select == q.select && p.where == q.where
    requires p.whereArgs == q.whereArgs && p.orderBy == q.orderBy
    requires p.limit == q.limit && p.offset == q.offset && p.join == q.join
    requires p.joinOn == q.joinOn && p.hasComposite == q.hasComposite && p.fetchType == q.fetchType
    ensures Key(p, d) == Key(q, d)
  {
  }

  /** The result and the memoized hash never reach the hash. */
  lemma KeyIgnoresResultAndHash(p: Props, d: Digest, h: Option<string>, r: Option<Fetched>)
    ensures Key(p.(hash := h, result := r), d) == Key(p, d)
  {
  }

  /**
   * Nor do the contents of the composite: two descriptors that agree on their
   * own fields and both have a composite attached hash alike, whatever the
   * two composites hold (joined tables, selects, conditions).
   */
  lemma KeyIgnoresJoinContents(p: QueryProperties, q: QueryProperties, d: Digest)
    requires p.composite != null && q.composite != null
    requires p.table == q.table && p.select == q.select && p.where == q.where
    requires p.whereArgs == q.whereArgs && p.orderBy == q.orderBy
    requires p.limit == q.limit && p.offset == q.offset && p.join == q.join
    requires p.joinOn == q.joinOn && p.fetchType == q.fetchType
    ensures Key(p.Snapshot(), d) == Key(q.Snapshot(), d)
  {
  }

  class QueryProperties {
    var table: Option<string>
    var select: Option<string>
    var where: Option<string>
    var whereArgs: Option<seq<Value>>
    var orderBy: Option<string>
    var limit: Option<int>
    var offset: Option<int>
    var join: Option<string>
    var joinOn: Option<string>
    /** The joined builder, recorded by its own descriptor. */
    var composite: QueryProperties?
    var fetchType: Option<string>
    var hash: Option<string>
    var result: Option<Fetched>

    constructor ()
      ensures Snapshot() == Blank && composite == null
    {
      table, select, where, whereArgs, orderBy := None, None, None, None, None;
      limit, offset, join, joinOn, composite := None, None, None, None, null;
      fetchType, hash, result := None, None, None;
    }

    function Snapshot(): Props
      reads this
    {
      Props(table, select, where, whereArgs, orderBy, limit, offset, join, joinOn,
            composite != null, fetchType, hash, result)
    }

    /** The state of the joined descriptor, if one is attached. */
    function JoinView(): (v: Option<Props>)
      reads this, composite
      ensures v.Some? <==> composite != null
    {
      if composite != null then Some(composite.Snapshot()) else None
    }

    /** True when a setter of a field in state `f` must throw: set already and hashed already. */
    predicate Locked<T>(f: Option<T>)
      reads this
    {
      f.Some? && hash.Some?
    }

    /** getHash: computes the hash on first use, then returns the memoized value forever. */
    method GetHash(d: Digest) returns (h: string)
      modifies this`hash
      ensures h == HashOf(old(Snapshot()), d)
      ensures hash == Some(h)
    {
      if hash.None? {
        hash := Some(Key(Snapshot(), d));
      }
      h := hash.value;
    }

    method SetTable(x: string) returns (s: Status)
      modifies this`table
      ensures s.Failed? <==> old(Locked(table))
      ensures s.Failed? ==> s.error == Frozen(TableField) && table == old(table)
      ensures s.Done? ==> table == Some(x)
    {
      if Locked(table) {
        return Failed(Frozen(TableField));
      }
      table := Some(x);
      s := Done;
    }

    method SetSelect(x: string) returns (s: Status)
      modifies this`select
      ensures s.Failed? <==> old(Locked(select))
      ensures s.Failed? ==> s.error == Frozen(SelectField) && select == old(select)
      ensures s.Done? ==> select == Some(x)
    {
      if Locked(select) {
        return Failed(Frozen(SelectField));
      }
      select := Some(x);
      s := Done;
    }

    method SetWhere(x: string) returns (s: Status)
      modifies this`where
      ensures s.Failed? <==> old(Locked(where))
      ensures s.Failed? ==> s.error == Frozen(WhereField) && where == old(where)
      ensures s.Done? ==> where == Some(x)
    {
      if Locked(where) {
        return Failed(Frozen(WhereField));
      }
      where := Some(x);
      s := Done;
    }

    method SetWhereArgs(x: seq<Value>) returns (s: Status)
      modifies this`whereArgs
      ensures s.Failed? <==> old(Locked(whereArgs))
      ensures s.Failed? ==> s.error == Frozen(WhereArgsField) && whereArgs == old(whereArgs)
      ensures s.Done? ==> whereArgs == Some(x)
    {
      if Locked(whereArgs) {
        return Failed(Frozen(WhereArgsField));
      }
      whereArgs := Some(x);
      s := Done;
    }

    method SetOrderBy(x: string) returns (s: Status)
      modifies this`orderBy
      ensures s.Failed? <==> old(Locked(orderBy))
      ensures s.Failed? ==> s.error == Frozen(OrderByField) && orderBy == old(orderBy)
      ensures s.Done? ==> orderBy == Some(x)
    {
      if Locked(orderBy) {
        return Failed(Frozen(OrderByField));
      }
      orderBy := Some(x);
      s := Done;
    }

    method SetLimit(x: int) returns (s: Status)
      modifies this`limit
      ensures s.Failed? <==> old(Locked(limit))
      ensures s.Failed? ==> s.error == Frozen(LimitField) && limit == old(limit)
      ensures s.Done? ==> limit == Some(x)
    {
      if Locked(limit) {
        return Failed(Frozen(LimitField));
      }
      limit := Some(x);
      s := Done;
    }

    method SetOffset(x: int) returns (s: Status)
      modifies this`offset
      ensures s.Failed? <==> old(Locked(offset))
      ensures s.Failed? ==> s.error == Frozen(OffsetField) && offset == old(offset)
      ensures s.Done? ==> offset == Some(x)
    {
      if Locked(offset) {
        return Failed(Frozen(OffsetField));
      }
      offset := Some(x);
      s := Done;
    }

    method SetJoin(x: string) returns (s: Status)
      modifies this`join
      ensures s.Failed? <==> old(Locked(join))
      ensures s.Failed? ==> s.error == Frozen(JoinField) && join == old(join)
      ensures s.Done? ==> join == Some(x)
    {
      if Locked(join) {
        return Failed(Frozen(JoinField));
      }
      join := Some(x);
      s := Done;
    }

    method SetJoinOn(x: string) returns (s: Status)
      modifies this`joinOn
      ensures s.Failed? <==> old(Locked(joinOn))
      ensures s.Failed? ==> s.error == Frozen(JoinOnField) && joinOn == old(joinOn)
      ensures s.Done? ==> joinOn == Some(x)
    {
      if Locked(joinOn) {
        return Failed(Frozen(JoinOnField));
      }
      joinOn := Some(x);
      s := Done;
    }

    method SetComposite(x: QueryProperties) returns (s: Status)
      modifies this`composite
      ensures s.Failed? <==> old(composite != null && hash.Some?)
      ensures s.Failed? ==> s.error == Frozen(CompositeField) && composite == old(composite)
      ensures s.Done? ==> composite == x
    {
      if composite != null && hash.Some? {
        return Failed(Frozen(CompositeField));
      }
      composite := x;
      s := Done;
    }

    /**
     * setFetchType as written: the guard reads `fetchType`, but the assignment
     * goes to a misspelled property, so `fetchType` itself is never written.
     */
    method SetFetchType(x: string) returns (s: Status)
      ensures s.Failed? <==> Locked(fetchType)
      ensures s.Failed? ==> s.error == Frozen(FetchTypeField)
    {
      if Locked(fetchType) {
        return Failed(Frozen(FetchTypeField));
      }
      s := Done;
    }

    /** setResult: write-once, whatever the state of the hash. */
    method SetResult(x: Fetched) returns (s: Status)
      modifies this`result
      ensures s.Failed? <==> old(result).Some?
      ensures s.Failed? ==> s.error == ResultAlreadySet && result == old(result)
      ensures s.Done? ==> result == Some(x)
    {
      if result.Some? {
        return Failed(ResultAlreadySet);
      }
      result := Some(x);
      s := Done;
    }
  }
}
