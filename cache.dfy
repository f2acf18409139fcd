/**
 * The result cache seen as a value: the ordered list of (hash, result)
 * entries held by the cached descriptors, probed front to back, and
 * extended FIFO-fashion by cacheAndResetQueryProperties.
 */
module Cache {
  import opened Common

  /** A cached descriptor, as the cache sees it: its memoized hash and its result. */
  type Entry = (string, Fetched)

  /** checkQueriesCache's scan: the result of the first entry whose hash is `h`. */
  function Lookup(entries: seq<Entry>, h: string): Option<Fetched>
  {
    if entries == [] then None
    else if entries[0].0 == h then Some(entries[0].1)
    else Lookup(entries[1..], h)
  }

  /** The scan misses exactly when no entry carries the hash. */
  lemma {:induction false} LookupMiss(entries: seq<Entry>, h: string)
    ensures Lookup(entries, h).None? <==> forall i :: 0 <= i < |entries| ==> entries[i].0 != h
    decreases |entries|
  {
    if entries != [] {
      LookupMiss(entries[1..], h);
      assert forall i :: 1 <= i < |entries| ==> entries[i] == entries[1..][i - 1];
    }
  }

  /** The scan hits the FIRST entry carrying the hash, and returns that entry's result. */
  lemma {:induction false} LookupHit(entries: seq<Entry>, h: string, i: nat)
    requires i < |entries| && entries[i].0 == h
    requires forall j :: 0 <= j < i ==> entries[j].0 != h
    ensures Lookup(entries, h) == Some(entries[i].1)
    decreases i
  {
    if i > 0 {
      LookupHit(entries[1..], h, i - 1);
    }
  }

  /**
   * The caching step for a non-null result: nothing when the capacity is not
   * positive; otherwise drop the oldest entry when the count EQUALS the
   * capacity, then append.
   */
  function Admit(entries: seq<Entry>, capacity: int, e: Entry): seq<Entry>
  {
    if capacity <= 0 then entries
    else (if |entries| == capacity then entries[1..] else entries) + [e]
  }

  /** A cache within its capacity stays within it. */
  lemma AdmitBounded(entries: seq<Entry>, capacity: int, e: Entry)
    requires |entries| <= capacity
    ensures |Admit(entries, capacity, e)| <= capacity
  {
  }

  /**
   * The eviction test is an equality: once the capacity has been lowered
   * below the count, nothing is evicted any more and the cache keeps growing.
   */
  lemma AdmitBeyondCapacity(entries: seq<Entry>, capacity: int, e: Entry)
    requires 0 < capacity < |entries|
    ensures Admit(entries, capacity, e) == entries + [e]
  {
  }

  /** Caching is off at capacity 0 (or below): the cache never changes, so every fetch goes to the database. */
  lemma AdmitDisabled(entries: seq<Entry>, capacity: int, e: Entry)
    requires capacity <= 0
    ensures Admit(entries, capacity, e) == entries
    ensures Lookup(Admit(entries, capacity, e), e.0) == Lookup(entries, e.0)
  {
  }

  /** Round trip: a result cached under a hash not yet cached is what the next lookup of that hash returns. */
  lemma CachedThenFound(entries: seq<Entry>, capacity: int, h: string, r: Fetched)
    requires capacity > 0 && Lookup(entries, h).None?
    ensures Lookup(Admit(entries, capacity, (h, r)), h) == Some(r)
  {
    var kept := if |entries| == capacity then entries[1..] else entries;
    var after := kept + [(h, r)];
    LookupMiss(entries, h);
    assert forall j :: 0 <= j < |kept| ==> after[j].0 != h by {
      forall j | 0 <= j < |kept|
        ensures after[j].0 != h
      {
        if |entries| == capacity {
          assert after[j] == entries[j + 1];
        } else {
          assert after[j] == entries[j];
        }
      }
    }
    LookupHit(after, h, |kept|);
  }

  /** No two entries carry the same hash. */
  predicate Distinct(entries: seq<Entry>)
  {
    forall i, j :: 0 <= i < j < |entries| ==> entries[i].0 != entries[j].0
  }

  /**
   * Only a probe that missed is ever cached, so the hashes in the cache stay
   * pairwise distinct: admitting an entry whose hash the cache lacks keeps
   * a cache of distinct hashes distinct, evicting or not.
   */
  lemma AdmitKeepsDistinct(entries: seq<Entry>, capacity: int, e: Entry)
    requires Distinct(entries) && Lookup(entries, e.0).None?
    ensures Distinct(Admit(entries, capacity, e))
  {
    LookupMiss(entries, e.0);
    if capacity > 0 && |entries| == capacity {
      var kept := entries[1..];
      assert forall i :: 0 <= i < |kept| ==> kept[i] == entries[i + 1];
      SnocDistinct(kept, e);
    } else if capacity > 0 {
      SnocDistinct(entries, e);
    }
  }

  /** Appending an entry whose hash no entry carries keeps the hashes distinct. */
  lemma SnocDistinct(entries: seq<Entry>, e: Entry)
    requires Distinct(entries) && forall i :: 0 <= i < |entries| ==> entries[i].0 != e.0
    ensures Distinct(entries + [e])
  {
    var after := entries + [e];
    forall i, j | 0 <= i < j < |after|
      ensures after[i].0 != after[j].0
    {
      assert after[i] == entries[i];
    }
  }

  /** Admitting a whole run of results, oldest first. */
  function AdmitAll(entries: seq<Entry>, capacity: int, run: seq<Entry>): seq<Entry>
  {
    if run == [] then entries
    else Admit(AdmitAll(entries, capacity, run[..|run| - 1]), capacity, run[|run| - 1])
  }

  /**
   * FIFO: starting within capacity, after any run of admissions the cache
   * holds exactly the `capacity` most recent entries (all of them if fewer),
   * oldest first.
   */
  lemma {:induction false} AdmitAllKeepsNewest(entries: seq<Entry>, capacity: int, run: seq<Entry>)
    requires 0 < capacity && |entries| <= capacity
    ensures var all := entries + run;
      AdmitAll(entries, capacity, run) == all[(if |all| > capacity then |all| - capacity else 0)..]
    decreases |run|
  {
    if run != [] {
      var init := run[..|run| - 1];
      var last := run[|run| - 1];
      AdmitAllKeepsNewest(entries, capacity, init);
      var s := entries + init;
      assert entries + run == s + [last];
    }
  }
}
