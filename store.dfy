/**
 * The in-memory table every repository keeps: rows by id, the ids in
 * creation order, and the counter the next id is generated from. This
 * module states the table's invariant once and proves that inserting,
 * replacing and removing a row keep it.
 */
module Store {
  import opened Ids
  import opened Tables

  /**
   * The ids in `order` are exactly the keys of `rows`, each once, and every
   * key was generated from a counter value below `nextSeq`.
   */
  ghost predicate WellFormed<T>(rows: map<Id, T>, order: seq<Id>, nextSeq: nat) {
    && (forall id :: id in rows <==> id in order)
    && NoDuplicates(order)
    && (forall id :: id in rows ==> Issued(id, nextSeq))
  }

  /** `id` was generated from a counter value below `nextSeq`. */
  ghost predicate Issued(id: Id, nextSeq: nat) {
    exists n: nat :: n < nextSeq && IdOf(n) == id
  }

  /** The id generated next is not taken. */
  lemma FreshId<T>(rows: map<Id, T>, order: seq<Id>, nextSeq: nat)
    requires WellFormed(rows, order, nextSeq)
    ensures IdOf(nextSeq) !in rows
  {
    if IdOf(nextSeq) in rows {
      assert Issued(IdOf(nextSeq), nextSeq);
      var n: nat :| n < nextSeq && IdOf(n) == IdOf(nextSeq);
      IdOfInjective(n, nextSeq);
    }
  }

  lemma InsertKeepsWellFormed<T>(rows: map<Id, T>, order: seq<Id>, nextSeq: nat, value: T)
    requires WellFormed(rows, order, nextSeq)
    ensures IdOf(nextSeq) !in rows
    ensures WellFormed(rows[IdOf(nextSeq) := value], order + [IdOf(nextSeq)], nextSeq + 1)
  {
    FreshId(rows, order, nextSeq);
    var id := IdOf(nextSeq);
    var rows', order' := rows[id := value], order + [id];
    assert NoDuplicates(order') by {
      forall i, j | 0 <= i < j < |order'| ensures order'[i] != order'[j] {
        if j < |order| { assert order'[i] == order[i] && order'[j] == order[j]; }
        else { assert order'[i] == order[i] && order[i] in order; }
      }
    }
    forall x | x in rows' ensures Issued(x, nextSeq + 1) {
      if x == id { assert IdOf(nextSeq) == x; } else { assert Issued(x, nextSeq); }
    }
  }

  /** The test that keeps every id but `id`. */
  function Except(id: Id): Id -> bool {
    (x: Id) => x != id
  }

  /** Ids in creation order without `id`. */
  function Without(order: seq<Id>, id: Id): seq<Id> {
    Filter(order, Except(id))
  }

  /** Replacing the row under an existing key leaves keys and order as they were. */
  lemma ReplaceKeepsWellFormed<T>(rows: map<Id, T>, order: seq<Id>, nextSeq: nat, id: Id, value: T)
    requires WellFormed(rows, order, nextSeq) && id in rows
    ensures WellFormed(rows[id := value], order, nextSeq)
  {
    assert rows[id := value].Keys == rows.Keys;
  }

  lemma RemoveKeepsWellFormed<T>(rows: map<Id, T>, order: seq<Id>, nextSeq: nat, id: Id)
    requires WellFormed(rows, order, nextSeq)
    ensures WellFormed(rows - {id}, Without(order, id), nextSeq)
  {
    var order' := Without(order, id);
    FilterKeepsNoDuplicates(order, Except(id));
    forall x | x in rows - {id} ensures x in order' {
      var k :| 0 <= k < |order| && order[k] == x;
    }
  }

  /** The rows, newest first. */
  function NewestFirst<T>(rows: map<Id, T>, order: seq<Id>): (r: seq<T>)
    requires forall id :: id in order ==> id in rows
    ensures |r| == |order|
    ensures forall k :: 0 <= k < |r| ==> r[k] == rows[order[|order| - 1 - k]]
  {
    Lookup(rows, Reverse(order))
  }

  /** Every row appears in the listing newest first. */
  lemma NewestFirstHasEveryRow<T>(rows: map<Id, T>, order: seq<Id>, nextSeq: nat)
    requires WellFormed(rows, order, nextSeq)
    ensures forall id :: id in rows ==> rows[id] in NewestFirst(rows, order)
  {
    var r := NewestFirst(rows, order);
    forall id | id in rows ensures rows[id] in r {
      var k :| 0 <= k < |order| && order[k] == id;
      assert r[|order| - 1 - k] == rows[id];
    }
  }

  /** The keys of the rows `keep` accepts. */
  ghost function KeysWhere<T>(rows: map<Id, T>, keep: T -> bool): set<Id> {
    set id | id in rows && keep(rows[id])
  }

  /** The rows newest first contain every row exactly once, so filtering them counts the matching rows. */
  lemma CountRows<T>(rows: map<Id, T>, order: seq<Id>, nextSeq: nat, keep: T -> bool)
    requires WellFormed(rows, order, nextSeq)
    ensures |Filter(NewestFirst(rows, order), keep)| == |KeysWhere(rows, keep)|
  {
    var ids := Reverse(order);
    ReverseKeepsElements(order);
    CountMatching(rows, ids, keep);
    assert MatchingKeys(rows, ids, keep) == KeysWhere(rows, keep);
  }

  /**
   * Orders two ids by the stamps of the rows they key (an id without a row
   * is ordered with nothing).
   */
  function StampOrder<T>(rows: map<Id, T>, stamp: T -> int): (Id, Id) -> bool {
    (a: Id, b: Id) => a in rows && b in rows && stamp(rows[a]) <= stamp(rows[b])
  }

  /** `order` lists the rows by non-decreasing stamp. */
  ghost predicate Ascending<T>(rows: map<Id, T>, order: seq<Id>, stamp: T -> int) {
    SortedBy(order, StampOrder(rows, stamp))
  }

  /** Orders two rows newest stamp first. */
  function Later<T>(stamp: T -> int): (T, T) -> bool {
    (a: T, b: T) => stamp(b) <= stamp(a)
  }

  /** Appending a row stamped no earlier than any stored row keeps the order ascending. */
  lemma InsertKeepsAscending<T>(rows: map<Id, T>, order: seq<Id>, stamp: T -> int, id: Id, value: T)
    requires Ascending(rows, order, stamp) && id !in rows
    requires forall x :: x in order ==> x in rows && stamp(rows[x]) <= stamp(value)
    ensures Ascending(rows[id := value], order + [id], stamp)
  {
    var rows', order' := rows[id := value], order + [id];
    forall i, j | 0 <= i < j < |order'| ensures StampOrder(rows', stamp)(order'[i], order'[j]) {
      assert order'[i] == order[i] && order[i] in order;
      if j < |order| {
        assert order'[j] == order[j] && order[j] in order;
        assert StampOrder(rows, stamp)(order[i], order[j]);
      }
    }
  }

  /** Replacing a row by one with the same stamp keeps the order ascending. */
  lemma ReplaceKeepsAscending<T>(rows: map<Id, T>, order: seq<Id>, stamp: T -> int, id: Id, value: T)
    requires Ascending(rows, order, stamp) && id in rows && stamp(value) == stamp(rows[id])
    ensures Ascending(rows[id := value], order, stamp)
  {
    var rows' := rows[id := value];
    forall i, j | 0 <= i < j < |order| ensures StampOrder(rows', stamp)(order[i], order[j]) {
      assert StampOrder(rows, stamp)(order[i], order[j]);
    }
  }

  /** Removing a row keeps the order ascending. */
  lemma RemoveKeepsAscending<T>(rows: map<Id, T>, order: seq<Id>, stamp: T -> int, id: Id)
    requires Ascending(rows, order, stamp)
    ensures Ascending(rows - {id}, Without(order, id), stamp)
  {
    var w := Without(order, id);
    FilterKeepsSortedBy(order, Except(id), StampOrder(rows, stamp));
    forall i, j | 0 <= i < j < |w| ensures StampOrder(rows - {id}, stamp)(w[i], w[j]) {
      assert Except(id)(w[i]) && Except(id)(w[j]);
      assert StampOrder(rows, stamp)(w[i], w[j]);
    }
  }

  /** Read back to front, an ascending order lists the newest stamp first. */
  lemma NewestFirstDescending<T>(rows: map<Id, T>, order: seq<Id>, stamp: T -> int)
    requires forall id :: id in order ==> id in rows
    requires Ascending(rows, order, stamp)
    ensures SortedBy(NewestFirst(rows, order), Later(stamp))
  {
    var r := NewestFirst(rows, order);
    var n := |order|;
    forall i, j | 0 <= i < j < |r| ensures Later(stamp)(r[i], r[j]) {
      assert StampOrder(rows, stamp)(order[n - 1 - j], order[n - 1 - i]);
    }
  }

  /** Rows that carry their own keys are listed once each. */
  lemma NewestFirstNoDuplicates<T>(rows: map<Id, T>, order: seq<Id>, nextSeq: nat, key: T -> Id)
    requires WellFormed(rows, order, nextSeq)
    requires forall id :: id in rows ==> key(rows[id]) == id
    ensures NoDuplicates(NewestFirst(rows, order))
  {
    var r := NewestFirst(rows, order);
    var n := |order|;
    forall i, j | 0 <= i < j < |r| ensures r[i] != r[j] {
      assert order[n - 1 - j] in rows && order[n - 1 - i] in rows;
      assert key(r[i]) == order[n - 1 - i] && key(r[j]) == order[n - 1 - j];
    }
  }

  /** A listing sorted newest stamp first, read element by element. */
  lemma LaterMeansDescending<T>(s: seq<T>, stamp: T -> int)
    requires SortedBy(s, Later(stamp))
    ensures forall i, j :: 0 <= i < j < |s| ==> stamp(s[j]) <= stamp(s[i])
  {
    forall i, j | 0 <= i < j < |s| ensures stamp(s[j]) <= stamp(s[i]) {
      assert Later(stamp)(s[i], s[j]);
    }
  }
}
