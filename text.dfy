/**
 * The PHP string primitives the builder relies on: rtrim with a character
 * list, the `.=` accumulation loops, explode, str_replace, str_ends_with and
 * the decimal conversion of integers.
 */
module Text {

  /**
   * rtrim($s, $chars): strips every trailing character that belongs to the SET
   * `cs` (rtrim($s, 'AND ') strips any of 'A', 'N', 'D', ' ', not the word).
   * The result is the longest prefix of `s` that does not end in `cs`.
   */
  function RTrim(s: string, cs: set<char>): (r: string)
    ensures |r| <= |s| && r == s[..|r|]
    ensures |r| == 0 || r[|r| - 1] !in cs
    ensures forall i :: |r| <= i < |s| ==> s[i] in cs
    decreases |s|
  {
    if |s| > 0 && s[|s| - 1] in cs then RTrim(s[..|s| - 1], cs) else s
  }

  /** Appending only trimmed characters does not change what rtrim leaves. */
  lemma {:induction false} RTrimAppend(a: string, b: string, cs: set<char>)
    requires forall i :: 0 <= i < |b| ==> b[i] in cs
    ensures RTrim(a + b, cs) == RTrim(a, cs)
    decreases |b|
  {
    if |b| > 0 {
      var b' := b[..|b| - 1];
      assert (a + b)[..|a + b| - 1] == a + b';
      RTrimAppend(a, b', cs);
    } else {
      assert a + b == a;
    }
  }

  /** String concatenation regroups freely. */
  lemma AppendAssoc(a: string, b: string, c: string)
    ensures a + b + c == a + (b + c)
  {
  }

  /** The string a `foreach` loop builds by appending `item . suffix` for every item. */
  function Suffixed(items: seq<string>, suffix: string): string
  {
    if items == [] then "" else Suffixed(items[..|items| - 1], suffix) + items[|items| - 1] + suffix
  }

  /** implode($sep, $items): the items with `sep` between consecutive ones. */
  function Joined(items: seq<string>, sep: string): string
  {
    if |items| == 0 then ""
    else if |items| == 1 then items[0]
    else items[0] + sep + Joined(items[1..], sep)
  }

  lemma {:induction false} JoinedSnoc(items: seq<string>, x: string, sep: string)
    requires items != []
    ensures Joined(items + [x], sep) == Joined(items, sep) + sep + x
    decreases |items|
  {
    if |items| == 1 {
      assert (items + [x])[1..] == [x];
    } else {
      assert (items + [x])[1..] == items[1..] + [x];
      JoinedSnoc(items[1..], x, sep);
    }
  }

  /** Appending `suffix` after every item is joining with `suffix` and appending one more. */
  lemma {:induction false} SuffixedIsJoined(items: seq<string>, suffix: string)
    requires items != []
    ensures Suffixed(items, suffix) == Joined(items, suffix) + suffix
    decreases |items|
  {
    var init := items[..|items| - 1];
    var last := items[|items| - 1];
    if |items| == 1 {
      assert init == [];
    } else {
      SuffixedIsJoined(init, suffix);
      JoinedSnoc(init, last, suffix);
      assert init + [last] == items;
    }
  }

  /**
   * The loop-then-rtrim idiom yields exactly the joined list, provided the
   * separator consists of trimmed characters only and the last item does not
   * itself end in one (otherwise rtrim eats into the last item too).
   */
  lemma TrimmedSuffixedIsJoined(items: seq<string>, sep: string, cs: set<char>)
    requires items != []
    requires forall i :: 0 <= i < |sep| ==> sep[i] in cs
    requires |items[|items| - 1]| > 0
    requires items[|items| - 1][|items[|items| - 1]| - 1] !in cs
    ensures RTrim(Suffixed(items, sep), cs) == Joined(items, sep)
  {
    SuffixedIsJoined(items, sep);
    RTrimAppend(Joined(items, sep), sep, cs);
    JoinedLast(items, sep);
  }

  /** A non-empty last item is where the joined string ends. */
  lemma {:induction false} JoinedLast(items: seq<string>, sep: string)
    requires items != [] && |items[|items| - 1]| > 0
    ensures |Joined(items, sep)| > 0
    ensures Joined(items, sep)[|Joined(items, sep)| - 1] == items[|items| - 1][|items[|items| - 1]| - 1]
    decreases |items|
  {
    if |items| > 1 {
      JoinedLast(items[1..], sep);
    }
  }

  /** Number of occurrences of `c` in `s`. */
  function Count(s: string, c: char): nat
  {
    if s == [] then 0 else (if s[0] == c then 1 else 0) + Count(s[1..], c)
  }

  /**
   * explode($sep, $s) for a one-character separator: the fragments between
   * separators, one more fragment than there are separators.
   */
  function Split(s: string, sep: char): (parts: seq<string>)
    ensures |parts| == Count(s, sep) + 1
    decreases |s|
  {
    if s == [] then [""]
    else
      var rest := Split(s[1..], sep);
      if s[0] == sep then [""] + rest
      else [[s[0]] + rest[0]] + rest[1..]
  }

  /** No fragment of explode contains the separator. */
  lemma {:induction false} SplitFragmentsFree(s: string, sep: char)
    ensures forall i :: 0 <= i < |Split(s, sep)| ==> sep !in Split(s, sep)[i]
    decreases |s|
  {
    if s != [] {
      SplitFragmentsFree(s[1..], sep);
      var rest := Split(s[1..], sep);
      if s[0] != sep {
        assert sep !in [s[0]] + rest[0];
      }
    }
  }

  /** explode is undone by implode with the same separator. */
  lemma {:induction false} SplitJoined(s: string, sep: char)
    ensures Joined(Split(s, sep), [sep]) == s
    decreases |s|
  {
    if s != [] {
      var rest := Split(s[1..], sep);
      SplitJoined(s[1..], sep);
      if s[0] == sep {
        assert ([""] + rest)[1..] == rest;
      } else {
        var parts := [[s[0]] + rest[0]] + rest[1..];
        assert parts[1..] == rest[1..];
      }
    }
  }

  /** str_ends_with($s, $suffix). */
  predicate EndsWith(s: string, suffix: string)
  {
    |suffix| <= |s| && s[|s| - |suffix|..] == suffix
  }

  /** str_replace($pat, '', $s): removes every occurrence of `pat`, scanning left to right. */
  function RemoveAll(s: string, pat: string): string
    requires pat != []
    decreases |s|
  {
    if |s| < |pat| then s
    else if s[..|pat|] == pat then RemoveAll(s[|pat|..], pat)
    else [s[0]] + RemoveAll(s[1..], pat)
  }

  /** A tag appended to a name that does not contain the tag's first character comes off cleanly. */
  lemma {:induction false} RemoveAppendedTag(name: string, pat: string)
    requires pat != [] && pat[0] !in name
    ensures RemoveAll(name + pat, pat) == name
    decreases |name|
  {
    var s := name + pat;
    if name == [] {
      assert s[..|pat|] == pat && s[|pat|..] == [];
    } else {
      assert s[0] == name[0] != pat[0];
      assert s[..|pat|] != pat by { assert s[..|pat|][0] == s[0]; }
      assert s[1..] == name[1..] + pat;
      RemoveAppendedTag(name[1..], pat);
    }
  }

  function Digit(d: nat): (c: char)
    requires d < 10
    ensures '0' <= c <= '9'
  {
    ('0' as int + d) as char
  }

  /** PHP's decimal conversion of a non-negative integer. */
  function NatToString(n: nat): (r: string)
    ensures |r| > 0
    ensures forall i :: 0 <= i < |r| ==> '0' <= r[i] <= '9'
    decreases n
  {
    if n < 10 then [Digit(n)] else NatToString(n / 10) + [Digit(n % 10)]
  }

  /** Reads a string of decimal digits back as a number. */
  function ParseNat(s: string): nat
  {
    if s == [] then 0
    else
      var d := s[|s| - 1] as int - '0' as int;
      ParseNat(s[..|s| - 1]) * 10 + (if 0 <= d then d else 0)
  }

  lemma {:induction false} ParseNatToString(n: nat)
    ensures ParseNat(NatToString(n)) == n
    decreases n
  {
    var s := NatToString(n);
    if n >= 10 {
      ParseNatToString(n / 10);
      assert s[..|s| - 1] == NatToString(n / 10);
    }
  }

  /** Distinct numbers have distinct decimal texts, so `:0`, `:1`, ... never collide. */
  lemma NatToStringInjective(a: nat, b: nat)
    requires NatToString(a) == NatToString(b)
    ensures a == b
  {
    ParseNatToString(a);
    ParseNatToString(b);
  }

  /** PHP's decimal conversion of any integer. */
  function IntToString(i: int): string
  {
    if i < 0 then "-" + NatToString(-i) else NatToString(i)
  }
}
