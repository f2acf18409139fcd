/**
 * The statement texts the builder assembles: the SELECT built by createQuery
 * and createJoinQueriesPart, the clause strings built by select and where
 * from lists, and the INSERT and UPDATE masks with their bound values.
 */
module Compiler {
  import opened Common
  import opened Text
  import opened Descriptor

  /** rtrim($s, ', ') */
  const ListTrim: set<char> := {',', ' '}
  /** rtrim($s, 'AND ') */
  const AndTrim: set<char> := {'A', 'N', 'D', ' '}
  /** The column-name suffix that marks a value as raw SQL. */
  const RawTag := "%sql"

  /** A `string|array` argument of select and where. */
  datatype Listing = One(text: string) | Many(items: seq<string>)

  /** The select string stored by select(): a list is joined by " , ", then right-trimmed. */
  function SelectText(sel: Listing): string
  {
    match sel
    case One(s) => s
    case Many(cols) => RTrim(Suffixed(cols, " , "), ListTrim)
  }

  /** The where string stored by where(): a list gets "AND " after every condition, then right-trimmed. */
  function WhereText(w: Listing): string
  {
    match w
    case One(s) => s
    case Many(conds) => RTrim(Suffixed(conds, "AND "), AndTrim)
  }

  /** A list of columns is stored joined by " , " unless its last column ends in ',' or ' '. */
  lemma SelectListJoined(cols: seq<string>)
    requires cols != [] && |cols[|cols| - 1]| > 0
    requires cols[|cols| - 1][|cols[|cols| - 1]| - 1] !in ListTrim
    ensures SelectText(Many(cols)) == Joined(cols, " , ")
  {
    TrimmedSuffixedIsJoined(cols, " , ", ListTrim);
  }

  /**
   * A list of conditions is stored joined by "AND " (no space before AND)
   * unless the last condition ends in 'A', 'N', 'D' or ' '.
   */
  lemma WhereListJoined(conds: seq<string>)
    requires conds != [] && |conds[|conds| - 1]| > 0
    requires conds[|conds| - 1][|conds[|conds| - 1]| - 1] !in AndTrim
    ensures WhereText(Many(conds)) == Joined(conds, "AND ")
  {
    TrimmedSuffixedIsJoined(conds, "AND ", AndTrim);
  }

  /**
   * The trimming also eats into the last condition when it ends in A, N, D
   * or a space: ["a = ID"] renders as "a = I", and ["a = 1", "b = ID"] as
   * "a = 1AND b = I".
   */
  lemma WhereListOverTrims()
    ensures WhereText(Many(["a = ID"])) == "a = I"
  {
    var items := ["a = ID"];
    assert items[..0] == [];
    var s := Suffixed(items, "AND ");
    assert s == "a = ID" + "AND ";
    assert s == "a = I" + "DAND ";
    RTrimAppend("a = I", "DAND ", AndTrim);
    assert 'I' !in AndTrim;
  }

  /** The two strings createJoinQueriesPart hands back. */
  datatype JoinParts = JoinParts(join: string, select: string)

  /**
   * createJoinQueriesPart for the joined descriptor `c`. The recursive call on
   * c's own composite writes into an undefined variable and its result is
   * dropped, so only `c` itself contributes.
   */
  function JoinQueriesPart(c: Props): (r: JoinParts)
    ensures c.join.Some? && c.table.Some? && c.joinOn.Some? ==>
      r.join == c.join.value + " " + c.table.value + " ON " + c.joinOn.value + " "
    ensures r.select == OrEmpty(c.select)
  {
    JoinParts(OrEmpty(c.join) + " " + OrEmpty(c.table) + " " + "ON " + OrEmpty(c.joinOn) + " ", OrEmpty(c.select))
  }

  /** Whatever hangs off the joined descriptor, its rendering is the same: only the first link reaches the SQL. */
  lemma OnlyFirstJoinLink(c: Props, deeper: bool)
    ensures JoinQueriesPart(c.(hasComposite := deeper)) == JoinQueriesPart(c)
  {
  }

  /** The optional tail: "WHERE w ", "ORDER BY o ", "LIMIT n ", "OFFSET m", in that order. */
  function Clauses(p: Props): (r: string)
    ensures r == "" <==> p.where.None? && p.orderBy.None? && p.limit.None? && p.offset.None?
  {
    var where := if p.where.Some? then "WHERE " + p.where.value + " " else "";
    var order := if p.orderBy.Some? then "ORDER BY " + p.orderBy.value + " " else "";
    var limit := if p.limit.Some? then "LIMIT " + IntToString(p.limit.value) + " " else "";
    var offset := if p.offset.Some? then "OFFSET " + IntToString(p.offset.value) else "";
    assert |where| == 0 <==> p.where.None?;
    assert |order| == 0 <==> p.orderBy.None?;
    assert |limit| == 0 <==> p.limit.None?;
    assert |offset| == 0 <==> p.offset.None?;
    where + order + limit + offset
  }

  /**
   * createQuery for the descriptor `p` whose composite, if any, is `j`.
   * Throws when the table or the select is missing (the table is checked first).
   */
  function CreateQuery(p: Props, j: Option<Props>): (r: Result<string>)
    ensures r.Err? <==> p.table.None? || p.select.None?
    ensures r.Err? ==> r.error == (if p.table.None? then MissingTable else MissingSelect)
    ensures r.Ok? ==> var head := "SELECT " + p.select.value;
      |head| <= |r.value| && r.value[..|head|] == head
  {
    if p.table.None? then Err(MissingTable)
    else if p.select.None? then Err(MissingSelect)
    else
      var parts := if j.Some? then Some(JoinQueriesPart(j.value)) else None;
      // 'SELECT ' is never empty, so the ", " separator is always added.
      var select := "SELECT " + p.select.value + (if parts.Some? then ", " + parts.value.select else "");
      var from := " FROM " + p.table.value + " ";
      var join := if parts.Some? then parts.value.join else "";
      Ok(select + from + join + Clauses(p))
  }

  /**
   * Attaching a join splices exactly two pieces into the statement: ", " and
   * the joined select right after the base select, and the join clause right
   * after " FROM <table> ".
   */
  lemma JoinSplice(p: Props, c: Props)
    requires CreateQuery(p, None).Ok?
    ensures
      var base := CreateQuery(p, None).value;
      var k := |"SELECT " + p.select.value|;
      var m := k + |" FROM " + p.table.value + " "|;
      m <= |base| &&
      CreateQuery(p, Some(c))
        == Ok(base[..k] + (", " + OrEmpty(c.select)) + base[k..m] + JoinQueriesPart(c).join + base[m..])
  {
    var head := "SELECT " + p.select.value;
    var from := " FROM " + p.table.value + " ";
    var parts := JoinQueriesPart(c);
    var base := CreateQuery(p, None).value;
    QueryLayout(p, None);
    QueryLayout(p, Some(c));
    Splice(base, head, from, Clauses(p), ", " + parts.select, parts.join);
    var k, m := |head|, |head| + |from|;
    var spliced := base[..k] + (", " + parts.select) + base[k..m] + parts.join + base[m..];
    assert spliced == head + (", " + parts.select) + from + parts.join + Clauses(p);
    assert CreateQuery(p, Some(c)) == Ok(spliced);
  }

  /** The memoized hash does not enter the statement: hashing a descriptor does not change what it renders. */
  lemma CreateQueryIgnoresHash(p: Props, j: Option<Props>, h: Option<string>)
    ensures CreateQuery(p.(hash := h), j) == CreateQuery(p, j)
  {
  }

  /** The order of the pieces of a statement, without and with a join. */
  lemma QueryLayout(p: Props, j: Option<Props>)
    requires p.table.Some? && p.select.Some?
    ensures j.None? ==> CreateQuery(p, j) == Ok(("SELECT " + p.select.value) + (" FROM " + p.table.value + " ") + Clauses(p))
    ensures j.Some? ==> CreateQuery(p, j) == Ok(("SELECT " + p.select.value) + (", " + JoinQueriesPart(j.value).select)
      + (" FROM " + p.table.value + " ") + JoinQueriesPart(j.value).join + Clauses(p))
  {
    var head := "SELECT " + p.select.value;
    var from := " FROM " + p.table.value + " ";
    assert head + "" == head;
    assert (head + "") + from + "" == head + from;
  }

  /** Inserting x after a and y after b in base = a + b + c, stated on the slices of base. */
  lemma Splice(base: string, a: string, b: string, c: string, x: string, y: string)
    requires base == a + b + c
    ensures |a| + |b| <= |base|
    ensures base[..|a|] + x + base[|a|..|a| + |b|] + y + base[|a| + |b|..] == a + x + b + y + c
  {
    assert base[..|a|] == a;
    assert base[|a|..|a| + |b|] == b;
    assert base[|a| + |b|..] == c;
  }

  // ---------------------------------------------------------------------------
  // INSERT and UPDATE masks

  /** A column whose name ends in "%sql" carries raw SQL. */
  predicate IsRaw(column: string)
  {
    EndsWith(column, RawTag)
  }

  /** The name written into the statement: str_replace('%sql', '', ...) for a raw column. */
  function ColumnName(column: string): string
  {
    if IsRaw(column) then RemoveAll(column, RawTag) else column
  }

  /** A raw column named "<name>%sql" is written as <name> when the name has no '%'. */
  lemma RawColumnName(name: string)
    requires '%' !in name
    ensures IsRaw(name + RawTag)
    ensures ColumnName(name + RawTag) == name
  {
    var c := name + RawTag;
    assert c[|c| - |RawTag|..] == RawTag;
    RemoveAppendedTag(name, RawTag);
  }

  /** PHP's string conversion of a value, as `.=` performs it. */
  function ValueText(v: Value): string
  {
    match v
    case Str(s) => s
    case Int(i) => IntToString(i)
    case Null => ""
  }

  /** The column names of `data`, in order. */
  function Columns(data: seq<(string, Value)>): (names: seq<string>)
    ensures |names| == |data|
    ensures forall i :: 0 <= i < |data| ==> names[i] == ColumnName(data[i].0)
  {
    if data == [] then [] else Columns(data[..|data| - 1]) + [ColumnName(data[|data| - 1].0)]
  }

  /** One entry's contribution to VALUES(...): a raw value is appended WITHOUT a separator. */
  function ValuePiece(column: string, v: Value): string
  {
    if IsRaw(column) then ValueText(v) else ":" + column + ", "
  }

  function ValuesMask(data: seq<(string, Value)>): string
  {
    if data == [] then "" else ValuesMask(data[..|data| - 1]) + ValuePiece(data[|data| - 1].0, data[|data| - 1].1)
  }

  /** The `:column => value` map both insert and update hand to execute(). */
  function ColumnBindings(data: seq<(string, Value)>): map<string, Value>
  {
    if data == [] then map[]
    else
      var (c, v) := data[|data| - 1];
      var m := ColumnBindings(data[..|data| - 1]);
      if IsRaw(c) then m else m[":" + c := v]
  }

  /** The placeholders `:column` of the bound (non-raw) columns. */
  function Marks(data: seq<(string, Value)>): seq<string>
  {
    if data == [] then [] else
      var c := data[|data| - 1].0;
      Marks(data[..|data| - 1]) + (if IsRaw(c) then [] else [":" + c])
  }

  /** Exactly one binding `:c` per column c that is not raw. */
  lemma {:induction false} ColumnBindingsKeys(data: seq<(string, Value)>, k: string)
    ensures k in ColumnBindings(data) <==> exists i :: 0 <= i < |data| && !IsRaw(data[i].0) && k == ":" + data[i].0
    decreases |data|
  {
    if data != [] {
      var init := data[..|data| - 1];
      ColumnBindingsKeys(init, k);
      if k in ColumnBindings(init) {
        var i :| 0 <= i < |init| && !IsRaw(init[i].0) && k == ":" + init[i].0;
        assert data[i] == init[i];
      }
      if exists i :: 0 <= i < |data| && !IsRaw(data[i].0) && k == ":" + data[i].0 {
        var i :| 0 <= i < |data| && !IsRaw(data[i].0) && k == ":" + data[i].0;
        if i < |init| {
          assert init[i] == data[i];
        }
      }
    }
  }

  /** With distinct column names, the binding of `:c` is c's own value. */
  lemma {:induction false} ColumnBindingValue(data: seq<(string, Value)>, i: nat)
    requires i < |data| && !IsRaw(data[i].0)
    requires forall a, b :: 0 <= a < b < |data| ==> data[a].0 != data[b].0
    ensures ":" + data[i].0 in ColumnBindings(data)
    ensures ColumnBindings(data)[":" + data[i].0] == data[i].1
    decreases |data|
  {
    var init := data[..|data| - 1];
    var (c, v) := data[|data| - 1];
    if i < |init| {
      ColumnBindingValue(init, i);
      assert init[i] == data[i];
      assert c != data[i].0;
      assert (":" + c)[1..] == c && (":" + data[i].0)[1..] == data[i].0;
    }
  }

  /** With no raw column, VALUES(...) lists one `:c` per column, separated by ", ". */
  lemma InsertValuesAllBound(data: seq<(string, Value)>)
    requires data != [] && forall i :: 0 <= i < |data| ==> !IsRaw(data[i].0)
    requires var c := data[|data| - 1].0; |c| > 0 && c[|c| - 1] !in ListTrim
    ensures RTrim(ValuesMask(data), ListTrim) == Joined(Marks(data), ", ")
  {
    ValuesMaskBound(data);
    var c := data[|data| - 1].0;
    var marks := Marks(data);
    assert marks == Marks(data[..|data| - 1]) + [":" + c];
    assert marks[|marks| - 1] == ":" + c;
    TrimmedSuffixedIsJoined(marks, ", ", ListTrim);
  }

  lemma {:induction false} ValuesMaskBound(data: seq<(string, Value)>)
    requires forall i :: 0 <= i < |data| ==> !IsRaw(data[i].0)
    ensures ValuesMask(data) == Suffixed(Marks(data), ", ")
    decreases |data|
  {
    if data != [] {
      var init := data[..|data| - 1];
      ValuesMaskBound(init);
      var marks := Marks(data);
      assert marks == Marks(init) + [":" + data[|data| - 1].0];
      assert marks[..|marks| - 1] == Marks(init);
    }
  }

  /** As written, a raw value is glued to the placeholder after it: the raw column must come last. */
  lemma RawValueNotSeparated()
    ensures ValuesMask([("created_at%sql", Str("NOW()")), ("name", Str("Karel"))]) == "NOW():name, "
  {
    var data := [("created_at%sql", Str("NOW()")), ("name", Str("Karel"))];
    assert IsRaw(data[0].0) by { assert data[0].0[|data[0].0| - 4..] == RawTag; }
    assert !IsRaw(data[1].0);
    assert data[..1][..0] == [];
  }

  /** The statement insert() prepares. */
  function InsertSql(table: Option<string>, data: seq<(string, Value)>): string
  {
    "INSERT INTO " + OrEmpty(table) + " (" + RTrim(Suffixed(Columns(data), ", "), ListTrim)
    + ") VALUES(" + RTrim(ValuesMask(data), ListTrim) + ")"
  }

  /** One entry's contribution to SET: `c=:c, ` or, for a raw column, `name=value, `. */
  function SetPiece(column: string, v: Value): string
  {
    if IsRaw(column) then ColumnName(column) + "=" + ValueText(v) + ", " else column + "=:" + column + ", "
  }

  function SetMask(data: seq<(string, Value)>): string
  {
    if data == [] then "" else SetMask(data[..|data| - 1]) + SetPiece(data[|data| - 1].0, data[|data| - 1].1)
  }

  /** The named placeholder that replaces the i-th '?' of the where template. */
  function Placeholder(i: nat): string
  {
    " :" + NatToString(i) + " "
  }

  /** $whereConditions[$key]: a missing index reads as null, which concatenates as "". */
  function Fragment(fragments: seq<string>, i: nat): string
  {
    if i < |fragments| then fragments[i] else ""
  }

  /** The WHERE text update() builds from the first `n` fragments, one per where argument. */
  function WhereMask(fragments: seq<string>, n: nat): string
  {
    if n == 0 then "" else WhereMask(fragments, n - 1) + Fragment(fragments, n - 1) + Placeholder(n - 1)
  }

  /** The argument bindings `:0`, `:1`, ... added over `m`, in order. */
  function ArgBindings(m: map<string, Value>, args: seq<Value>): map<string, Value>
  {
    if args == [] then m else ArgBindings(m, args[..|args| - 1])[":" + NatToString(|args| - 1) := args[|args| - 1]]
  }

  /** Every where argument i is bound, under `:i`, to itself. */
  lemma {:induction false} ArgBindingsExact(m: map<string, Value>, args: seq<Value>, i: nat)
    requires i < |args|
    ensures ":" + NatToString(i) in ArgBindings(m, args)
    ensures ArgBindings(m, args)[":" + NatToString(i)] == args[i]
    decreases |args|
  {
    var n := |args| - 1;
    if i < n {
      ArgBindingsExact(m, args[..n], i);
      if ":" + NatToString(n) == ":" + NatToString(i) {
        assert NatToString(n) == (":" + NatToString(n))[1..];
        NatToStringInjective(n, i);
      }
    }
  }

  /** Keys other than the argument placeholders keep their column bindings. */
  lemma {:induction false} ArgBindingsKeep(m: map<string, Value>, args: seq<Value>, k: string)
    requires forall i :: 0 <= i < |args| ==> k != ":" + NatToString(i)
    ensures k in ArgBindings(m, args) <==> k in m
    ensures k in m ==> ArgBindings(m, args)[k] == m[k]
    decreases |args|
  {
    if args != [] {
      ArgBindingsKeep(m, args[..|args| - 1], k);
    }
  }

  /** The where template with its i-th '?' replaced by Placeholder(k + i). */
  function Substituted(s: string, k: nat): string
    decreases |s|
  {
    if s == [] then ""
    else if s[0] == '?' then Placeholder(k) + Substituted(s[1..], k + 1)
    else [s[0]] + Substituted(s[1..], k)
  }

  /**
   * The fragments read from the front, each but the last followed by its
   * placeholder: fragment i is followed by " :(k + i) ".
   */
  function Rebuilt(fragments: seq<string>, k: nat): string
    requires fragments != []
    decreases |fragments|
  {
    if |fragments| == 1 then fragments[0] else fragments[0] + Placeholder(k) + Rebuilt(fragments[1..], k + 1)
  }

  /** Reading the '?' fragments of the template from the front rebuilds it with each '?' replaced by the next placeholder from `:k` on. */
  lemma {:induction false} RebuiltSplit(s: string, k: nat)
    ensures Rebuilt(Split(s, '?'), k) == Substituted(s, k)
    decreases |s|
  {
    if s != [] {
      if s[0] == '?' {
        RebuiltSplit(s[1..], k + 1);
        RebuiltSplitMark(s, k);
      } else {
        RebuiltSplit(s[1..], k);
        RebuiltSplitOther(s, k);
      }
    }
  }

  /** RebuiltSplit's step over a leading '?': an empty fragment, then the placeholder `:k`. */
  lemma RebuiltSplitMark(s: string, k: nat)
    requires s != [] && s[0] == '?'
    requires Rebuilt(Split(s[1..], '?'), k + 1) == Substituted(s[1..], k + 1)
    ensures Rebuilt(Split(s, '?'), k) == Substituted(s, k)
  {
    var rest := Split(s[1..], '?');
    var parts := [""] + rest;
    assert Split(s, '?') == parts && parts[1..] == rest;
    assert "" + Placeholder(k) == Placeholder(k);
    assert Rebuilt(parts, k) == Placeholder(k) + Rebuilt(rest, k + 1);
  }

  /** RebuiltSplit's step over a leading ordinary character: it joins the first fragment. */
  lemma RebuiltSplitOther(s: string, k: nat)
    requires s != [] && s[0] != '?'
    requires Rebuilt(Split(s[1..], '?'), k) == Substituted(s[1..], k)
    ensures Rebuilt(Split(s, '?'), k) == Substituted(s, k)
  {
    var rest := Split(s[1..], '?');
    assert Split(s, '?') == [[s[0]] + rest[0]] + rest[1..];
    RebuiltCons(s[0], rest, k);
  }

  /** A character put in front of the first fragment comes out in front of the rebuilt text. */
  lemma RebuiltCons(c: char, fragments: seq<string>, k: nat)
    requires fragments != []
    ensures Rebuilt([[c] + fragments[0]] + fragments[1..], k) == [c] + Rebuilt(fragments, k)
  {
    var parts := [[c] + fragments[0]] + fragments[1..];
    if |fragments| > 1 {
      assert parts[1..] == fragments[1..];
      var tail := Placeholder(k) + Rebuilt(fragments[1..], k + 1);
      AppendAssoc([c], fragments[0], tail);
    }
  }

  /** The first n steps of update()'s loop, followed by the front reading of the remaining fragments, give the whole front reading. */
  lemma {:induction false} WhereMaskFront(fragments: seq<string>, n: nat)
    requires n < |fragments|
    ensures WhereMask(fragments, n) + Rebuilt(fragments[n..], n) == Rebuilt(fragments, 0)
    decreases n
  {
    if n > 0 {
      WhereMaskFront(fragments, n - 1);
      var rest := fragments[n - 1..];
      assert rest[0] == fragments[n - 1] && rest[1..] == fragments[n..];
      var tail := Rebuilt(fragments[n..], n);
      assert Rebuilt(rest, n - 1) == fragments[n - 1] + Placeholder(n - 1) + tail;
      assert WhereMask(fragments, n) == WhereMask(fragments, n - 1) + fragments[n - 1] + Placeholder(n - 1);
    }
  }

  /**
   * With one argument per '?', update() rewrites the where template by
   * replacing the i-th '?' with " :i " — except that the text after the last
   * '?' is dropped: it is the template's last fragment and no argument reaches it.
   */
  lemma WhereRebuild(where: string)
    ensures var parts := Split(where, '?');
      WhereMask(parts, Count(where, '?')) + parts[|parts| - 1] == Substituted(where, 0)
  {
    var parts := Split(where, '?');
    var n := |parts| - 1;
    WhereMaskFront(parts, n);
    assert parts[n..] == [parts[n]];
    RebuiltSplit(where, 0);
  }

  /** The statement update() prepares, for `argCount` where arguments. */
  function UpdateSql(table: string, data: seq<(string, Value)>, where: string, argCount: nat): string
  {
    "UPDATE " + table + " SET " + RTrim(SetMask(data), ListTrim) + " WHERE " + WhereMask(Split(where, '?'), argCount)
  }
}
