/**
 * PrismaUserRepository over an in-memory table of users.
 */
module UserInfra {
  import opened Wrappers
  import opened Ids
  import opened Errors
  import opened Strings
  import opened Tables
  import opened Store
  import opened Domain

  /** The `where` object findAll builds from the truthy filters. */
  datatype UserWhere = UserWhere(email: Option<string>, role: Option<Role>)

  function WhereOf(f: UserFilters): UserWhere {
    UserWhere(if Present(f.email) then f.email else None, f.role)
  }

  predicate SatisfiesWhere(u: User, w: UserWhere) {
    && (w.email.Some? ==> Contains(u.email, w.email.value))
    && (w.role.Some? ==> u.role == w.role.value)
  }

  predicate MatchesFilters(u: User, f: UserFilters) {
    SatisfiesWhere(u, WhereOf(f))
  }

  function FilterBy(w: UserWhere): User -> bool {
    (u: User) => SatisfiesWhere(u, w)
  }

  /** The email filter is a substring test, the role filter an equality. */
  lemma FiltersAreConjunctive(u: User, f: UserFilters)
    ensures MatchesFilters(u, f) <==>
      && (Present(f.email) ==> exists k: nat :: OccursAt(u.email, f.email.value, k))
      && (f.role.Some? ==> u.role == f.role.value)
  {
    if Present(f.email) { ContainsIffOccurs(u.email, f.email.value); }
  }

  /**
   * The user `update` writes: each of email, password (stored as the
   * hash, unchanged) and role only when it is truthy.
   */
  function Applied(before: User, data: UpdateUserData, now: Timestamp): User {
    before.(
      email := if Present(data.email) then data.email.value else before.email,
      passwordHash := if Present(data.password) then data.password.value else before.passwordHash,
      role := if data.role.Some? then data.role.value else before.role,
      updatedAt := now)
  }

  /** Applying the same update twice gives what applying it once gives. */
  lemma AppliedIsIdempotent(before: User, data: UpdateUserData, now: Timestamp)
    ensures Applied(Applied(before, data, now), data, now) == Applied(before, data, now)
  {
  }

  /** The column the listings are ordered by. */
  function CreatedAtOf(x: User): int {
    x.createdAt
  }

  function KeyOf(x: User): Id {
    x.id
  }

  /** Ordered by createdAt, newest first. */
  predicate NewestCreatedFirst(s: seq<User>) {
    forall i, j :: 0 <= i < j < |s| ==> s[j].createdAt <= s[i].createdAt
  }

  class PrismaUserRepository {
    var rows: map<Id, User>
    /** Ids in creation order, oldest first. */
    var order: seq<Id>
    var nextSeq: nat

    ghost predicate Valid()
      reads this
    {
      && WellFormed(rows, order, nextSeq)
      && (forall id :: id in rows ==> rows[id].id == id)
      && Ascending(rows, order, CreatedAtOf)
    }

    /** No stored row was created after `now`: the clock does not go back. */
    ghost predicate CreatedNoLaterThan(now: Timestamp)
      reads this
    {
      forall id :: id in rows ==> rows[id].createdAt <= now
    }

    constructor ()
      ensures Valid() && rows == map[] && order == []
    {
      rows, order, nextSeq := map[], [], 0;
    }

    /** The stored users, most recently created first. */
    function NewestFirst(): (r: seq<User>)
      reads this
      requires Valid()
      ensures forall k :: 0 <= k < |r| ==> r[k].id in rows && rows[r[k].id] == r[k]
      ensures forall id :: id in rows ==> rows[id] in r
    {
      NewestFirstHasEveryRow(rows, order, nextSeq);
      Store.NewestFirst(rows, order)
    }

    /**
     * create: stores the given password field as the password hash, unchanged (the
     * caller hashes it first), and the role admin when none is given.
     */
    method Create(data: CreateUserData, now: Timestamp) returns (created: User)
      requires Valid()
      requires CreatedNoLaterThan(now)
      modifies this
      ensures Valid()
      ensures created.id !in old(rows)
      ensures created == User(created.id, data.email, data.password,
                              if data.role.Some? then data.role.value else Admin, now, now)
      ensures rows == old(rows)[created.id := created]
      ensures order == old(order) + [created.id]
    {
      var id := IdOf(nextSeq);
      var role := if data.role.Some? then data.role.value else Admin;
      created := User(id, data.email, data.password, role, now, now);
      InsertKeepsWellFormed(rows, order, nextSeq, created);
      InsertKeepsAscending(rows, order, CreatedAtOf, id, created);
      rows := rows[id := created];
      order := order + [id];
      nextSeq := nextSeq + 1;
    }

    function FindById(id: Id): (r: Option<User>)
      reads this
      requires Valid()
      ensures r.Some? <==> id in rows
      ensures r.Some? ==> r.value == rows[id] && r.value.id == id
    {
      if id in rows then Some(rows[id]) else None
    }

    /** A lookup on the unique column email: an exact, case-sensitive match. */
    function FindByEmail(email: string): (r: Option<User>)
      reads this
      requires Valid()
      ensures r.None? <==> forall id :: id in rows ==> rows[id].email != email
      ensures r.Some? ==> r.value.id in rows && rows[r.value.id] == r.value && r.value.email == email
    {
      var found := Filter(NewestFirst(), (u: User) => u.email == email);
      if found == [] then None else Some(found[0])
    }

    /** The ids of the stored users that match the filters. */
    ghost function MatchingIds(filters: UserFilters): set<Id>
      reads this
    {
      set id | id in rows && MatchesFilters(rows[id], filters)
    }

    /** The users matching the filters, newest first. */
    function Matching(filters: UserFilters): seq<User>
      reads this
      requires Valid()
    {
      Filter(NewestFirst(), FilterBy(WhereOf(filters)))
    }

    /**
     * findAll: page `page` (default 1) of `limit` (default 10) users among
     * those matching the filters, newest first, and the number of matching
     * users.
     */
    function FindAll(filters: UserFilters): (r: Listing<User>)
      reads this
      requires Valid()
      ensures |r.items| <= EffectiveLimit(filters.limit)
      ensures r.items == Window(Matching(filters), SkipOf(filters.page, filters.limit), EffectiveLimit(filters.limit))
      ensures r.total == |MatchingIds(filters)|
    {
      var matching := Matching(filters);
      var page := Window(matching, SkipOf(filters.page, filters.limit), EffectiveLimit(filters.limit));
      CountMatchingUsers(filters);
      Listing(page, |matching|)
    }

    lemma CountMatchingUsers(filters: UserFilters)
      requires Valid()
      ensures |Matching(filters)| == |MatchingIds(filters)|
    {
      var keep := FilterBy(WhereOf(filters));
      CountRows(rows, order, nextSeq, keep);
      assert Matching(filters) == Filter(Store.NewestFirst(rows, order), keep);
      assert KeysWhere(rows, keep) == MatchingIds(filters) by {
        forall id | id in rows ensures keep(rows[id]) == MatchesFilters(rows[id], filters) { }
      }
    }

    /** findAll lists stored users that match the filters, and no others. */
    lemma ListedAreStoredMatches(filters: UserFilters)
      requires Valid()
      ensures var items := FindAll(filters).items;
              forall k :: 0 <= k < |items| ==>
                items[k].id in rows && rows[items[k].id] == items[k] && MatchesFilters(items[k], filters)
    {
      MatchingAreStored(filters);
      WindowWithin(Matching(filters), SkipOf(filters.page, filters.limit), EffectiveLimit(filters.limit));
    }

    /** The stored users newest first are ordered by createdAt, and each is listed once. */
    lemma NewestFirstByCreatedAt()
      requires Valid()
      ensures SortedBy(NewestFirst(), Later(CreatedAtOf))
      ensures NoDuplicates(NewestFirst())
    {
      NewestFirstDescending(rows, order, CreatedAtOf);
      NewestFirstNoDuplicates(rows, order, nextSeq, KeyOf);
    }

    /** Every page lists its users by createdAt, newest first, and none of them twice. */
    lemma ListingIsNewestFirst(filters: UserFilters)
      requires Valid()
      ensures NewestCreatedFirst(FindAll(filters).items)
      ensures NoDuplicates(FindAll(filters).items)
    {
      var keep := FilterBy(WhereOf(filters));
      NewestFirstByCreatedAt();
      FilterKeepsSortedBy(NewestFirst(), keep, Later(CreatedAtOf));
      FilterKeepsNoDuplicates(NewestFirst(), keep);
      WindowKeepsOrder(Matching(filters), SkipOf(filters.page, filters.limit), EffectiveLimit(filters.limit), Later(CreatedAtOf));
      LaterMeansDescending(FindAll(filters).items, CreatedAtOf);
    }

    lemma MatchingAreStored(filters: UserFilters)
      requires Valid()
      ensures forall k :: 0 <= k < |Matching(filters)| ==>
                var u := Matching(filters)[k];
                u.id in rows && rows[u.id] == u && MatchesFilters(u, filters)
    {
      var all := NewestFirst();
      var m := Matching(filters);
      forall k | 0 <= k < |m| ensures m[k].id in rows && rows[m[k].id] == m[k] && MatchesFilters(m[k], filters) {
        var j :| 0 <= j < |all| && all[j] == m[k];
      }
    }

    /**
     * Every matching user is listed: the match at position p * limit + o
     * (o < limit) is item o of page p + 1.
     */
    lemma EveryMatchOnItsPage(filters: UserFilters, limit: nat, p: nat, o: nat)
      requires Valid()
      requires 0 < limit && o < limit && p * limit + o < |Matching(filters)|
      ensures var page := FindAll(filters.(page := Some(p + 1), limit := Some(limit)));
              o < |page.items| && page.items[o] == Matching(filters)[p * limit + o]
    {
      PageOf(filters, limit, p);
      WindowAt(Matching(filters), p * limit, limit, o);
    }

    /** Page p + 1 of size `limit` is the window after the first p * limit matches. */
    lemma PageOf(filters: UserFilters, limit: nat, p: nat)
      requires Valid()
      requires 0 < limit
      ensures FindAll(filters.(page := Some(p + 1), limit := Some(limit))).items == Window(Matching(filters), p * limit, limit)
    {
      MatchingIgnoresPaging(filters, Some(p + 1), Some(limit));
      SkipOfPage(p, limit);
    }

    /** Paging selects among the matching users, it does not change which match. */
    lemma MatchingIgnoresPaging(filters: UserFilters, page: Option<nat>, limit: Option<nat>)
      requires Valid()
      ensures Matching(filters.(page := page, limit := limit)) == Matching(filters)
    {
      assert WhereOf(filters.(page := page, limit := limit)) == WhereOf(filters);
    }

    /** update: builds the new row field by field; a missing id is Prisma's RecordNotFound. */
    method Update(id: Id, data: UpdateUserData, now: Timestamp) returns (r: Result<User, Error>)
      requires Valid()
      modifies this
      ensures Valid() && order == old(order)
      ensures id !in old(rows) ==> r == Failure(RecordNotFound) && rows == old(rows)
      ensures id in old(rows) ==>
        && r == Success(Applied(old(rows[id]), data, now))
        && rows == old(rows)[id := r.value]
    {
      if id !in rows {
        return Failure(RecordNotFound);
      }
      var record := rows[id];
      if Present(data.email) { record := record.(email := data.email.value); }
      if Present(data.password) { record := record.(passwordHash := data.password.value); }
      if data.role.Some? { record := record.(role := data.role.value); }
      record := record.(updatedAt := now);
      ReplaceKeepsWellFormed(rows, order, nextSeq, id, record);
      ReplaceKeepsAscending(rows, order, CreatedAtOf, id, record);
      rows := rows[id := record];
      r := Success(record);
    }

    method Delete(id: Id) returns (r: Outcome<Error>)
      requires Valid()
      modifies this
      ensures Valid()
      ensures id !in old(rows) ==> r == Fail(RecordNotFound) && rows == old(rows) && order == old(order)
      ensures id in old(rows) ==> r == Pass && rows == old(rows) - {id} && order == Without(old(order), id)
    {
      if id !in rows {
        return Fail(RecordNotFound);
      }
      RemoveKeepsWellFormed(rows, order, nextSeq, id);
      RemoveKeepsAscending(rows, order, CreatedAtOf, id);
      rows := rows - {id};
      order := Without(order, id);
      r := Pass;
    }

    function ExistsByEmail(email: string): (b: bool)
      reads this
      requires Valid()
      ensures b <==> exists id :: id in rows && rows[id].email == email
    {
      FindByEmail(email).Some?
    }

    function ExistsById(id: Id): (b: bool)
      reads this
      requires Valid()
      ensures b <==> id in rows
    {
      FindById(id).Some?
    }
  }
}
