/**
 * PrismaClientRepository over an in-memory table of clients.
 */
module ClientInfra {
  import opened Wrappers
  import opened Ids
  import opened Errors
  import opened Strings
  import opened Tables
  import opened Store
  import opened Domain

  /**
   * The `where` object findAll builds: a `contains` condition per truthy
   * filter, none for an absent or empty one.
   */
  datatype ClientWhere = ClientWhere(
    name: Option<string>,
    email: Option<string>,
    phone: Option<string>)

  function WhereOf(f: ClientFilters): ClientWhere {
    ClientWhere(
      if Present(f.name) then f.name else None,
      if Present(f.email) then f.email else None,
      if Present(f.phone) then f.phone else None)
  }

  /** A `contains` condition on a nullable column: a null never matches. */
  predicate ColumnContains(column: Option<string>, sub: Option<string>) {
    sub.Some? ==> column.Some? && Contains(column.value, sub.value)
  }

  predicate SatisfiesWhere(c: Client, w: ClientWhere) {
    && (w.name.Some? ==> Contains(c.name, w.name.value))
    && ColumnContains(c.email, w.email)
    && ColumnContains(c.phone, w.phone)
  }

  predicate MatchesFilters(c: Client, f: ClientFilters) {
    SatisfiesWhere(c, WhereOf(f))
  }

  function FilterBy(w: ClientWhere): Client -> bool {
    (c: Client) => SatisfiesWhere(c, w)
  }

  /**
   * The filters are one conjunction of substring conditions; a client
   * without an email (phone) is left out whenever an email (phone) filter
   * is given.
   */
  lemma FiltersAreConjunctive(c: Client, f: ClientFilters)
    ensures MatchesFilters(c, f) <==>
      && (Present(f.name) ==> exists k: nat :: OccursAt(c.name, f.name.value, k))
      && (Present(f.email) ==> c.email.Some? && exists k: nat :: OccursAt(c.email.value, f.email.value, k))
      && (Present(f.phone) ==> c.phone.Some? && exists k: nat :: OccursAt(c.phone.value, f.phone.value, k))
  {
    if Present(f.name) { ContainsIffOccurs(c.name, f.name.value); }
    if Present(f.email) && c.email.Some? { ContainsIffOccurs(c.email.value, f.email.value); }
    if Present(f.phone) && c.phone.Some? { ContainsIffOccurs(c.phone.value, f.phone.value); }
  }

  /** An absent or empty optional field is stored as null. */
  function OrNull(value: Option<string>): (r: Option<string>)
    ensures r.Some? <==> Present(value)
    ensures r.Some? ==> r == value
  {
    if Present(value) then value else None
  }

  /**
   * The client `update` writes: the name only when it is non-empty; email
   * and phone whenever they are given, the empty string included.
   */
  function Applied(before: Client, data: UpdateClientData, now: Timestamp): Client {
    before.(
      name := if Present(data.name) then data.name.value else before.name,
      email := if data.email.Some? then data.email else before.email,
      phone := if data.phone.Some? then data.phone else before.phone,
      updatedAt := now)
  }

  /** Applying the same update twice gives what applying it once gives. */
  lemma AppliedIsIdempotent(before: Client, data: UpdateClientData, now: Timestamp)
    ensures Applied(Applied(before, data, now), data, now) == Applied(before, data, now)
  {
  }

  /**
   * Unlike create, update stores a given empty email or phone as "" rather
   * than null; an empty name leaves the name as it was.
   */
  lemma UpdateStoresEmptyContact(before: Client, now: Timestamp)
    ensures Applied(before, UpdateClientData(Some(""), Some(""), Some("")), now) ==
            before.(email := Some(""), phone := Some(""), updatedAt := now)
    ensures OrNull(Some("")) == None
  {
  }

  /** The row filter of existsByEmail: an exact match on the email column. */
  function WithEmail(email: string): Client -> bool {
    (c: Client) => c.email == Some(email)
  }

  /** The column the listings are ordered by. */
  function CreatedAtOf(x: Client): int {
    x.createdAt
  }

  function KeyOf(x: Client): Id {
    x.id
  }

  /** Ordered by createdAt, newest first. */
  predicate NewestCreatedFirst(s: seq<Client>) {
    forall i, j :: 0 <= i < j < |s| ==> s[j].createdAt <= s[i].createdAt
  }

  class PrismaClientRepository {
    var rows: map<Id, Client>
    /** Ids in creation order, oldest first. */
    var order: seq<Id>
    var nextSeq: nat

    ghost predicate Valid()
      reads this
    {
      && WellFormed(rows, order, nextSeq)
      && (forall id :: id in rows ==> rows[id].id == id)
      && Ascending(rows, order, CreatedAtOf)
    }

    /** No stored row was created after `now`: the clock does not go back. */
    ghost predicate CreatedNoLaterThan(now: Timestamp)
      reads this
    {
      forall id :: id in rows ==> rows[id].createdAt <= now
    }

    constructor ()
      ensures Valid() && rows == map[] && order == []
    {
      rows, order, nextSeq := map[], [], 0;
    }

    /** The stored clients, most recently created first. */
    function NewestFirst(): (r: seq<Client>)
      reads this
      requires Valid()
      ensures forall k :: 0 <= k < |r| ==> r[k].id in rows && rows[r[k].id] == r[k]
      ensures forall id :: id in rows ==> rows[id] in r
    {
      NewestFirstHasEveryRow(rows, order, nextSeq);
      Store.NewestFirst(rows, order)
    }

    /** create: stores the name as given and an empty email or phone as null. */
    method Create(data: CreateClientData, now: Timestamp) returns (created: Client)
      requires Valid()
      requires CreatedNoLaterThan(now)
      modifies this
      ensures Valid()
      ensures created.id !in old(rows)
      ensures created == Client(created.id, data.name, OrNull(data.email), OrNull(data.phone), now, now)
      ensures rows == old(rows)[created.id := created]
      ensures order == old(order) + [created.id]
    {
      var id := IdOf(nextSeq);
      created := Client(id, data.name, OrNull(data.email), OrNull(data.phone), now, now);
      InsertKeepsWellFormed(rows, order, nextSeq, created);
      InsertKeepsAscending(rows, order, CreatedAtOf, id, created);
      rows := rows[id := created];
      order := order + [id];
      nextSeq := nextSeq + 1;
    }

    function FindById(id: Id): (r: Option<Client>)
      reads this
      requires Valid()
      ensures r.Some? <==> id in rows
      ensures r.Some? ==> r.value == rows[id] && r.value.id == id
    {
      if id in rows then Some(rows[id]) else None
    }

    /** The ids of the stored clients that match the filters. */
    ghost function MatchingIds(filters: ClientFilters): set<Id>
      reads this
    {
      set id | id in rows && MatchesFilters(rows[id], filters)
    }

    /** The clients matching the filters, newest first. */
    function Matching(filters: ClientFilters): seq<Client>
      reads this
      requires Valid()
    {
      Filter(NewestFirst(), FilterBy(WhereOf(filters)))
    }

    /**
     * findAll: page `page` (default 1) of `limit` (default 10) clients
     * among those matching the filters, newest first, and the number of
     * matching clients.
     */
    function FindAll(filters: ClientFilters): (r: Listing<Client>)
      reads this
      requires Valid()
      ensures |r.items| <= EffectiveLimit(filters.limit)
      ensures r.items == Window(Matching(filters), SkipOf(filters.page, filters.limit), EffectiveLimit(filters.limit))
      ensures r.total == |MatchingIds(filters)|
    {
      var matching := Matching(filters);
      var page := Window(matching, SkipOf(filters.page, filters.limit), EffectiveLimit(filters.limit));
      CountMatchingClients(filters);
      Listing(page, |matching|)
    }

    lemma CountMatchingClients(filters: ClientFilters)
      requires Valid()
      ensures |Matching(filters)| == |MatchingIds(filters)|
    {
      var keep := FilterBy(WhereOf(filters));
      CountRows(rows, order, nextSeq, keep);
      assert Matching(filters) == Filter(Store.NewestFirst(rows, order), keep);
      assert KeysWhere(rows, keep) == MatchingIds(filters) by {
        forall id | id in rows ensures keep(rows[id]) == MatchesFilters(rows[id], filters) { }
      }
    }

    /** findAll lists stored clients that match the filters, and no others. */
    lemma ListedAreStoredMatches(filters: ClientFilters)
      requires Valid()
      ensures var items := FindAll(filters).items;
              forall k :: 0 <= k < |items| ==>
                items[k].id in rows && rows[items[k].id] == items[k] && MatchesFilters(items[k], filters)
    {
      MatchingAreStored(filters);
      WindowWithin(Matching(filters), SkipOf(filters.page, filters.limit), EffectiveLimit(filters.limit));
    }

    /** The stored clients newest first are ordered by createdAt, and each is listed once. */
    lemma NewestFirstByCreatedAt()
      requires Valid()
      ensures SortedBy(NewestFirst(), Later(CreatedAtOf))
      ensures NoDuplicates(NewestFirst())
    {
      NewestFirstDescending(rows, order, CreatedAtOf);
      NewestFirstNoDuplicates(rows, order, nextSeq, KeyOf);
    }

    /** Every page lists its clients by createdAt, newest first, and none of them twice. */
    lemma ListingIsNewestFirst(filters: ClientFilters)
      requires Valid()
      ensures NewestCreatedFirst(FindAll(filters).items)
      ensures NoDuplicates(FindAll(filters).items)
    {
      var keep := FilterBy(WhereOf(filters));
      NewestFirstByCreatedAt();
      FilterKeepsSortedBy(NewestFirst(), keep, Later(CreatedAtOf));
      FilterKeepsNoDuplicates(NewestFirst(), keep);
      WindowKeepsOrder(Matching(filters), SkipOf(filters.page, filters.limit), EffectiveLimit(filters.limit), Later(CreatedAtOf));
      LaterMeansDescending(FindAll(filters).items, CreatedAtOf);
    }

    lemma MatchingAreStored(filters: ClientFilters)
      requires Valid()
      ensures forall k :: 0 <= k < |Matching(filters)| ==>
                var c := Matching(filters)[k];
                c.id in rows && rows[c.id] == c && MatchesFilters(c, filters)
    {
      var all := NewestFirst();
      var m := Matching(filters);
      forall k | 0 <= k < |m| ensures m[k].id in rows && rows[m[k].id] == m[k] && MatchesFilters(m[k], filters) {
        var j :| 0 <= j < |all| && all[j] == m[k];
      }
    }

    /**
     * Every matching client is listed: the match at position p * limit + o
     * (o < limit) is item o of page p + 1.
     */
    lemma EveryMatchOnItsPage(filters: ClientFilters, limit: nat, p: nat, o: nat)
      requires Valid()
      requires 0 < limit && o < limit && p * limit + o < |Matching(filters)|
      ensures var page := FindAll(filters.(page := Some(p + 1), limit := Some(limit)));
              o < |page.items| && page.items[o] == Matching(filters)[p * limit + o]
    {
      PageOf(filters, limit, p);
      WindowAt(Matching(filters), p * limit, limit, o);
    }

    /** Page p + 1 of size `limit` is the window after the first p * limit matches. */
    lemma PageOf(filters: ClientFilters, limit: nat, p: nat)
      requires Valid()
      requires 0 < limit
      ensures FindAll(filters.(page := Some(p + 1), limit := Some(limit))).items == Window(Matching(filters), p * limit, limit)
    {
      MatchingIgnoresPaging(filters, Some(p + 1), Some(limit));
      SkipOfPage(p, limit);
    }

    /** Paging selects among the matching clients, it does not change which match. */
    lemma MatchingIgnoresPaging(filters: ClientFilters, page: Option<nat>, limit: Option<nat>)
      requires Valid()
      ensures Matching(filters.(page := page, limit := limit)) == Matching(filters)
    {
      assert WhereOf(filters.(page := page, limit := limit)) == WhereOf(filters);
    }

    /** update: builds the new row field by field; a missing id is Prisma's RecordNotFound. */
    method Update(id: Id, data: UpdateClientData, now: Timestamp) returns (r: Result<Client, Error>)
      requires Valid()
      modifies this
      ensures Valid() && order == old(order)
      ensures id !in old(rows) ==> r == Failure(RecordNotFound) && rows == old(rows)
      ensures id in old(rows) ==>
        && r == Success(Applied(old(rows[id]), data, now))
        && rows == old(rows)[id := r.value]
    {
      if id !in rows {
        return Failure(RecordNotFound);
      }
      var record := rows[id];
      if Present(data.name) { record := record.(name := data.name.value); }
      if data.email.Some? { record := record.(email := data.email); }
      if data.phone.Some? { record := record.(phone := data.phone); }
      record := record.(updatedAt := now);
      ReplaceKeepsWellFormed(rows, order, nextSeq, id, record);
      ReplaceKeepsAscending(rows, order, CreatedAtOf, id, record);
      rows := rows[id := record];
      r := Success(record);
    }

    method Delete(id: Id) returns (r: Outcome<Error>)
      requires Valid()
      modifies this
      ensures Valid()
      ensures id !in old(rows) ==> r == Fail(RecordNotFound) && rows == old(rows) && order == old(order)
      ensures id in old(rows) ==> r == Pass && rows == old(rows) - {id} && order == Without(old(order), id)
    {
      if id !in rows {
        return Fail(RecordNotFound);
      }
      RemoveKeepsWellFormed(rows, order, nextSeq, id);
      RemoveKeepsAscending(rows, order, CreatedAtOf, id);
      rows := rows - {id};
      order := Without(order, id);
      r := Pass;
    }

    /** A lookup on the unique column email: an exact, case-sensitive match. */
    function ExistsByEmail(email: string): (b: bool)
      reads this
      requires Valid()
      ensures b <==> exists id :: id in rows && rows[id].email == Some(email)
    {
      EmailLookup(email);
      Filter(NewestFirst(), WithEmail(email)) != []
    }

    /** The filtered listing is non-empty exactly when some stored client has the email. */
    lemma EmailLookup(email: string)
      requires Valid()
      ensures Filter(NewestFirst(), WithEmail(email)) != [] <==> exists id :: id in rows && rows[id].email == Some(email)
    {
      var all := NewestFirst();
      var found := Filter(all, WithEmail(email));
      if found != [] {
        var j :| 0 <= j < |all| && all[j] == found[0];
        assert rows[all[j].id].email == Some(email);
      }
      if exists id :: id in rows && rows[id].email == Some(email) {
        var id :| id in rows && rows[id].email == Some(email);
        var j :| 0 <= j < |all| && all[j] == rows[id];
        assert WithEmail(email)(all[j]);
        assert all[j] in found;
      }
    }

    function ExistsById(id: Id): (b: bool)
      reads this
      requires Valid()
      ensures b <==> id in rows
    {
      FindById(id).Some?
    }
  }
}
