/**
 * Sequence and map operations the in-memory tables are built from:
 * filtering, reversal, key lookup, removal and the page window.
 */
module Tables {
  import opened Wrappers

  predicate NoDuplicates<T(==)>(s: seq<T>) {
    forall i, j :: 0 <= i < j < |s| ==> s[i] != s[j]
  }

  /** The elements of `s` that `keep` accepts, in their order. */
  function Filter<T>(s: seq<T>, keep: T -> bool): (r: seq<T>)
    ensures |r| <= |s|
    ensures forall k :: 0 <= k < |r| ==> r[k] in s && keep(r[k])
    ensures forall k :: 0 <= k < |s| && keep(s[k]) ==> s[k] in r
  {
    if s == [] then []
    else (if keep(s[0]) then [s[0]] else []) + Filter(s[1..], keep)
  }

  lemma {:induction false} FilterKeepsNoDuplicates<T>(s: seq<T>, keep: T -> bool)
    requires NoDuplicates(s)
    ensures NoDuplicates(Filter(s, keep))
  {
    if s != [] {
      var tail := s[1..];
      assert NoDuplicates(tail) by {
        forall i, j | 0 <= i < j < |tail| ensures tail[i] != tail[j] {
          assert tail[i] == s[i + 1] && tail[j] == s[j + 1];
        }
      }
      FilterKeepsNoDuplicates(tail, keep);
      assert s[0] !in tail;
    }
  }

  /** `before` holds of every two elements of `s`, taken in their order in `s`. */
  ghost predicate SortedBy<T>(s: seq<T>, before: (T, T) -> bool) {
    forall i, j :: 0 <= i < j < |s| ==> before(s[i], s[j])
  }

  /** Filtering keeps the relative order of what it keeps. */
  lemma {:induction false} FilterKeepsSortedBy<T>(s: seq<T>, keep: T -> bool, before: (T, T) -> bool)
    requires SortedBy(s, before)
    ensures SortedBy(Filter(s, keep), before)
  {
    if s != [] {
      var tail := s[1..];
      assert SortedBy(tail, before) by {
        forall i, j | 0 <= i < j < |tail| ensures before(tail[i], tail[j]) {
          assert tail[i] == s[i + 1] && tail[j] == s[j + 1];
        }
      }
      FilterKeepsSortedBy(tail, keep, before);
      var rest := Filter(tail, keep);
      var r := Filter(s, keep);
      if keep(s[0]) {
        assert r == [s[0]] + rest;
        forall i, j | 0 <= i < j < |r| ensures before(r[i], r[j]) {
          if i == 0 {
            assert r[j] == rest[j - 1] && rest[j - 1] in tail;
            var k :| 0 <= k < |tail| && tail[k] == rest[j - 1];
            assert tail[k] == s[k + 1];
          } else {
            assert r[i] == rest[i - 1] && r[j] == rest[j - 1];
          }
        }
      } else {
        assert r == rest;
      }
    }
  }

  /** `s` read back to front. */
  function Reverse<T>(s: seq<T>): (r: seq<T>)
    ensures |r| == |s|
  {
    seq(|s|, k requires 0 <= k < |s| => s[|s| - 1 - k])
  }

  lemma ReverseKeepsElements<T>(s: seq<T>)
    ensures forall x :: x in Reverse(s) <==> x in s
    ensures NoDuplicates(s) ==> NoDuplicates(Reverse(s))
  {
    var r := Reverse(s);
    forall x | x in s ensures x in r {
      var k :| 0 <= k < |s| && s[k] == x;
      assert r[|s| - 1 - k] == x;
    }
  }

  /** The values stored under `ids`, in the order of `ids`. */
  function Lookup<K, V>(rows: map<K, V>, ids: seq<K>): (r: seq<V>)
    requires forall id :: id in ids ==> id in rows
    ensures |r| == |ids|
    ensures forall k :: 0 <= k < |ids| ==> r[k] == rows[ids[k]]
  {
    if ids == [] then [] else [rows[ids[0]]] + Lookup(rows, ids[1..])
  }

  /** The keys among `ids` whose stored value `keep` accepts. */
  ghost function MatchingKeys<K, V>(rows: map<K, V>, ids: seq<K>, keep: V -> bool): set<K> {
    set id | id in ids && id in rows && keep(rows[id])
  }

  /**
   * Counting the filtered listing counts the matching rows: with no
   * duplicate ids, the filter keeps one value per matching key.
   */
  lemma {:induction false} CountMatching<K, V>(rows: map<K, V>, ids: seq<K>, keep: V -> bool)
    requires NoDuplicates(ids)
    requires forall id :: id in ids ==> id in rows
    ensures |Filter(Lookup(rows, ids), keep)| == |MatchingKeys(rows, ids, keep)|
  {
    if ids != [] {
      var tail := ids[1..];
      assert NoDuplicates(tail) by {
        forall i, j | 0 <= i < j < |tail| ensures tail[i] != tail[j] {
          assert tail[i] == ids[i + 1] && tail[j] == ids[j + 1];
        }
      }
      CountMatching(rows, tail, keep);
      var l := Lookup(rows, ids);
      assert l[1..] == Lookup(rows, tail);
      var head := ids[0];
      assert head !in tail;
      if keep(rows[head]) {
        assert MatchingKeys(rows, ids, keep) == {head} + MatchingKeys(rows, tail, keep);
      } else {
        assert MatchingKeys(rows, ids, keep) == MatchingKeys(rows, tail, keep);
      }
    }
  }

  /** The part of `items` a query with `skip` and `take` returns. */
  function Window<T>(items: seq<T>, skip: nat, take: nat): (r: seq<T>)
    ensures |r| <= take
    ensures skip + |r| <= |items| || |r| == 0
    ensures |r| == take || skip + |r| >= |items|
    ensures forall k :: 0 <= k < |r| ==> r[k] == items[skip + k]
  {
    if skip >= |items| then []
    else if skip + take <= |items| then items[skip..skip + take]
    else items[skip..]
  }

  /** A window holds items of the listing only. */
  lemma WindowWithin<T>(items: seq<T>, skip: nat, take: nat)
    ensures forall k :: 0 <= k < |Window(items, skip, take)| ==> Window(items, skip, take)[k] in items
  {
    var w := Window(items, skip, take);
    forall k | 0 <= k < |w| ensures w[k] in items {
      assert w[k] == items[skip + k];
    }
  }

  /** A window keeps the order of the listing and lists nothing twice that the listing does not. */
  lemma WindowKeepsOrder<T>(items: seq<T>, skip: nat, take: nat, before: (T, T) -> bool)
    ensures SortedBy(items, before) ==> SortedBy(Window(items, skip, take), before)
    ensures NoDuplicates(items) ==> NoDuplicates(Window(items, skip, take))
  {
    var w := Window(items, skip, take);
    forall i, j | 0 <= i < j < |w| ensures w[i] == items[skip + i] && w[j] == items[skip + j] { }
  }

  /** Item o of a window is item skip + o of the listing, when both exist. */
  lemma WindowAt<T>(items: seq<T>, skip: nat, take: nat, o: nat)
    requires o < take && skip + o < |items|
    ensures o < |Window(items, skip, take)| && Window(items, skip, take)[o] == items[skip + o]
  {
  }

  /**
   * With page size `limit`, the item at index i of the listing is on page
   * i / limit + 1 (skipping (i / limit) * limit items), at offset i % limit.
   */
  lemma ItemOnItsPage<T>(items: seq<T>, limit: nat, i: nat)
    requires 0 < limit && i < |items|
    ensures var w := Window(items, (i / limit) * limit, limit);
            i % limit < |w| && w[i % limit] == items[i]
  {
    var skip := (i / limit) * limit;
    assert skip + i % limit == i;
    assert i % limit < limit;
  }
}
