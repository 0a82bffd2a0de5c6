/**
 * PrismaInsuranceRepository over an in-memory table of policies.
 */
module InsuranceInfra {
  import opened Wrappers
  import opened Ids
  import opened Errors
  import opened Strings
  import opened Tables
  import opened Store
  import opened Domain

  /** A date condition of a Prisma `where`: `gte` or `lte`. */
  datatype DateBound = AtLeast(bound: Timestamp) | AtMost(bound: Timestamp)

  /** The `where` object findAll builds; an absent key places no condition. */
  datatype InsuranceWhere = InsuranceWhere(
    clientId: Option<Id>,
    policyNumber: Option<string>,
    coverage: Option<string>,
    status: Option<InsuranceStatus>,
    startDate: Option<DateBound>,
    endDate: Option<DateBound>)

  /**
   * Each truthy filter spreads one key into the `where` object. Two
   * spreads write the key startDate (and two write endDate); the later
   * one, the `lte` bound, replaces the earlier `gte` one.
   */
  function WhereOf(f: InsuranceFilters): InsuranceWhere {
    InsuranceWhere(
      if Present(f.clientId) then f.clientId else None,
      if Present(f.policyNumber) then f.policyNumber else None,
      if Present(f.coverage) then f.coverage else None,
      f.status,
      if f.startDateTo.Some? then Some(AtMost(f.startDateTo.value))
      else if f.startDateFrom.Some? then Some(AtLeast(f.startDateFrom.value))
      else None,
      if f.endDateTo.Some? then Some(AtMost(f.endDateTo.value))
      else if f.endDateFrom.Some? then Some(AtLeast(f.endDateFrom.value))
      else None)
  }

  predicate WithinBound(t: Timestamp, b: Option<DateBound>) {
    match b
    case None => true
    case Some(AtLeast(lo)) => lo <= t
    case Some(AtMost(hi)) => t <= hi
  }

  /** How the database evaluates the `where` object on one row. */
  predicate SatisfiesWhere(x: Insurance, w: InsuranceWhere) {
    && (w.clientId.Some? ==> x.clientId == w.clientId.value)
    && (w.policyNumber.Some? ==> Contains(x.policyNumber, w.policyNumber.value))
    && (w.coverage.Some? ==> Contains(x.coverage, w.coverage.value))
    && (w.status.Some? ==> x.status == w.status.value)
    && WithinBound(x.startDate, w.startDate)
    && WithinBound(x.endDate, w.endDate)
  }

  predicate MatchesFilters(x: Insurance, f: InsuranceFilters) {
    SatisfiesWhere(x, WhereOf(f))
  }

  /** The `where` object as a test on rows. */
  function FilterBy(w: InsuranceWhere): Insurance -> bool {
    (x: Insurance) => SatisfiesWhere(x, w)
  }

  ghost predicate Occurs(s: string, sub: string) {
    exists k: nat :: OccursAt(s, sub, k)
  }

  /**
   * The filters are one conjunction: client and status by equality, policy
   * number and coverage by substring, each date by its `lte` bound when one
   * is given and by its `gte` bound only otherwise.
   */
  lemma FiltersAreConjunctive(x: Insurance, f: InsuranceFilters)
    ensures MatchesFilters(x, f) <==>
      && (Present(f.clientId) ==> x.clientId == f.clientId.value)
      && (Present(f.policyNumber) ==> Occurs(x.policyNumber, f.policyNumber.value))
      && (Present(f.coverage) ==> Occurs(x.coverage, f.coverage.value))
      && (f.status.Some? ==> x.status == f.status.value)
      && (f.startDateTo.Some? ==> x.startDate <= f.startDateTo.value)
      && (f.startDateTo.None? && f.startDateFrom.Some? ==> f.startDateFrom.value <= x.startDate)
      && (f.endDateTo.Some? ==> x.endDate <= f.endDateTo.value)
      && (f.endDateTo.None? && f.endDateFrom.Some? ==> f.endDateFrom.value <= x.endDate)
  {
    if Present(f.policyNumber) { ContainsIffOccurs(x.policyNumber, f.policyNumber.value); }
    if Present(f.coverage) { ContainsIffOccurs(x.coverage, f.coverage.value); }
  }

  /**
   * When both bounds of a date are given, the lower one has no effect: a
   * policy that starts (or ends) before `startDateFrom` (`endDateFrom`) is
   * still listed.
   */
  lemma LowerDateBoundsIgnoredWithUpperBounds(x: Insurance, f: InsuranceFilters)
    requires f.startDateTo.Some? && f.endDateTo.Some?
    ensures MatchesFilters(x, f) == MatchesFilters(x, f.(startDateFrom := None, endDateFrom := None))
  {
  }

  /**
   * The policy `update` writes: each field of `data` that is truthy (every
   * given date and status is) replaces the stored one.
   */
  function Applied(before: Insurance, data: UpdateInsuranceData, now: Timestamp): Insurance {
    before.(
      clientId := if Present(data.clientId) then data.clientId.value else before.clientId,
      policyNumber := if Present(data.policyNumber) then data.policyNumber.value else before.policyNumber,
      coverage := if Present(data.coverage) then data.coverage.value else before.coverage,
      startDate := if data.startDate.Some? then data.startDate.value else before.startDate,
      endDate := if data.endDate.Some? then data.endDate.value else before.endDate,
      status := if data.status.Some? then data.status.value else before.status,
      updatedAt := now)
  }

  /** Applying the same update twice gives what applying it once gives. */
  lemma AppliedIsIdempotent(before: Insurance, data: UpdateInsuranceData, now: Timestamp)
    ensures Applied(Applied(before, data, now), data, now) == Applied(before, data, now)
  {
  }

  /**
   * An update with no truthy field, an empty policy number among
   * them, only moves updatedAt; id and createdAt never change.
   */
  lemma AppliedKeepsWhatIsNotGiven(before: Insurance, data: UpdateInsuranceData, now: Timestamp)
    ensures Applied(before, data, now).id == before.id
    ensures Applied(before, data, now).createdAt == before.createdAt
    ensures !Present(data.clientId) && !Present(data.policyNumber) && !Present(data.coverage) &&
            data.startDate.None? && data.endDate.None? && data.status.None? ==>
            Applied(before, data, now) == before.(updatedAt := now)
  {
  }

  /** The column the listings are ordered by. */
  function CreatedAtOf(x: Insurance): int {
    x.createdAt
  }

  function KeyOf(x: Insurance): Id {
    x.id
  }

  /** Ordered by createdAt, newest first. */
  predicate NewestCreatedFirst(s: seq<Insurance>) {
    forall i, j :: 0 <= i < j < |s| ==> s[j].createdAt <= s[i].createdAt
  }

  class PrismaInsuranceRepository {
    var rows: map<Id, Insurance>
    /** Ids in creation order, oldest first. */
    var order: seq<Id>
    var nextSeq: nat

    ghost predicate Valid()
      reads this
    {
      && WellFormed(rows, order, nextSeq)
      && (forall id :: id in rows ==> rows[id].id == id)
      && Ascending(rows, order, CreatedAtOf)
    }

    /** No stored row was created after `now`: the clock does not go back. */
    ghost predicate CreatedNoLaterThan(now: Timestamp)
      reads this
    {
      forall id :: id in rows ==> rows[id].createdAt <= now
    }

    constructor ()
      ensures Valid() && rows == map[] && order == []
    {
      rows, order, nextSeq := map[], [], 0;
    }

    /** The stored policies, most recently created first. */
    function NewestFirst(): (r: seq<Insurance>)
      reads this
      requires Valid()
      ensures forall k :: 0 <= k < |r| ==> r[k].id in rows && rows[r[k].id] == r[k]
      ensures forall id :: id in rows ==> rows[id] in r
    {
      NewestFirstHasEveryRow(rows, order, nextSeq);
      Store.NewestFirst(rows, order)
    }

    /** create: copies the caller's fields and always stores status active. */
    method Create(data: InsuranceDraft, now: Timestamp) returns (created: Insurance)
      requires Valid()
      requires CreatedNoLaterThan(now)
      modifies this
      ensures Valid()
      ensures created.id !in old(rows)
      ensures created == Insurance(created.id, data.clientId, data.policyNumber, data.coverage,
                                   data.startDate, data.endDate, Active, now, now)
      ensures rows == old(rows)[created.id := created]
      ensures order == old(order) + [created.id]
    {
      var id := IdOf(nextSeq);
      created := Insurance(id, data.clientId, data.policyNumber, data.coverage,
                           data.startDate, data.endDate, Active, now, now);
      InsertKeepsWellFormed(rows, order, nextSeq, created);
      InsertKeepsAscending(rows, order, CreatedAtOf, id, created);
      rows := rows[id := created];
      order := order + [id];
      nextSeq := nextSeq + 1;
    }

    function FindById(id: Id): (r: Option<Insurance>)
      reads this
      requires Valid()
      ensures r.Some? <==> id in rows
      ensures r.Some? ==> r.value == rows[id] && r.value.id == id
    {
      if id in rows then Some(rows[id]) else None
    }

    /** A lookup on the unique column policyNumber. */
    function FindByPolicyNumber(policyNumber: string): (r: Option<Insurance>)
      reads this
      requires Valid()
      ensures r.None? <==> forall id :: id in rows ==> rows[id].policyNumber != policyNumber
      ensures r.Some? ==> r.value.id in rows && rows[r.value.id] == r.value &&
                          r.value.policyNumber == policyNumber
    {
      var found := Filter(NewestFirst(), (x: Insurance) => x.policyNumber == policyNumber);
      if found == [] then None else Some(found[0])
    }

    /** The ids of the stored policies that match the filters. */
    ghost function MatchingIds(filters: InsuranceFilters): set<Id>
      reads this
    {
      set id | id in rows && MatchesFilters(rows[id], filters)
    }

    /** The policies matching the filters, newest first. */
    function Matching(filters: InsuranceFilters): seq<Insurance>
      reads this
      requires Valid()
    {
      Filter(NewestFirst(), FilterBy(WhereOf(filters)))
    }

    /**
     * findAll: page `page` (default 1) of `limit` (default 10) policies
     * among those matching the filters, newest first, and the number of
     * matching policies.
     */
    function FindAll(filters: InsuranceFilters): (r: Listing<Insurance>)
      reads this
      requires Valid()
      ensures |r.items| <= EffectiveLimit(filters.limit)
      ensures r.items == Window(Matching(filters), SkipOf(filters.page, filters.limit), EffectiveLimit(filters.limit))
      ensures r.total == |MatchingIds(filters)|
    {
      var matching := Matching(filters);
      var page := Window(matching, SkipOf(filters.page, filters.limit), EffectiveLimit(filters.limit));
      CountMatchingPolicies(filters);
      Listing(page, |matching|)
    }

    lemma CountMatchingPolicies(filters: InsuranceFilters)
      requires Valid()
      ensures |Matching(filters)| == |MatchingIds(filters)|
    {
      var keep := FilterBy(WhereOf(filters));
      CountRows(rows, order, nextSeq, keep);
      assert Matching(filters) == Filter(Store.NewestFirst(rows, order), keep);
      assert KeysWhere(rows, keep) == MatchingIds(filters) by {
        forall id | id in rows ensures keep(rows[id]) == MatchesFilters(rows[id], filters) { }
      }
    }

    /** findAll lists stored policys that match the filters, and no others. */
    lemma ListedAreStoredMatches(filters: InsuranceFilters)
      requires Valid()
      ensures var items := FindAll(filters).items;
              forall k :: 0 <= k < |items| ==>
                items[k].id in rows && rows[items[k].id] == items[k] && MatchesFilters(items[k], filters)
    {
      MatchingAreStored(filters);
      WindowWithin(Matching(filters), SkipOf(filters.page, filters.limit), EffectiveLimit(filters.limit));
    }

    /** The stored policies newest first are ordered by createdAt, and each is listed once. */
    lemma NewestFirstByCreatedAt()
      requires Valid()
      ensures SortedBy(NewestFirst(), Later(CreatedAtOf))
      ensures NoDuplicates(NewestFirst())
    {
      NewestFirstDescending(rows, order, CreatedAtOf);
      NewestFirstNoDuplicates(rows, order, nextSeq, KeyOf);
    }

    /** Every page lists its policies by createdAt, newest first, and none of them twice. */
    lemma ListingIsNewestFirst(filters: InsuranceFilters)
      requires Valid()
      ensures NewestCreatedFirst(FindAll(filters).items)
      ensures NoDuplicates(FindAll(filters).items)
    {
      var keep := FilterBy(WhereOf(filters));
      NewestFirstByCreatedAt();
      FilterKeepsSortedBy(NewestFirst(), keep, Later(CreatedAtOf));
      FilterKeepsNoDuplicates(NewestFirst(), keep);
      WindowKeepsOrder(Matching(filters), SkipOf(filters.page, filters.limit), EffectiveLimit(filters.limit), Later(CreatedAtOf));
      LaterMeansDescending(FindAll(filters).items, CreatedAtOf);
    }

    lemma MatchingAreStored(filters: InsuranceFilters)
      requires Valid()
      ensures forall k :: 0 <= k < |Matching(filters)| ==>
                var x := Matching(filters)[k];
                x.id in rows && rows[x.id] == x && MatchesFilters(x, filters)
    {
      var all := NewestFirst();
      var m := Matching(filters);
      forall k | 0 <= k < |m| ensures m[k].id in rows && rows[m[k].id] == m[k] && MatchesFilters(m[k], filters) {
        var j :| 0 <= j < |all| && all[j] == m[k];
      }
    }

    /**
     * Every matching policy is listed: the match at position p * limit + o
     * (o < limit) is item o of page p + 1.
     */
    lemma EveryMatchOnItsPage(filters: InsuranceFilters, limit: nat, p: nat, o: nat)
      requires Valid()
      requires 0 < limit && o < limit && p * limit + o < |Matching(filters)|
      ensures var page := FindAll(filters.(page := Some(p + 1), limit := Some(limit)));
              o < |page.items| && page.items[o] == Matching(filters)[p * limit + o]
    {
      PageOf(filters, limit, p);
      WindowAt(Matching(filters), p * limit, limit, o);
    }

    /** Page p + 1 of size `limit` is the window after the first p * limit matches. */
    lemma PageOf(filters: InsuranceFilters, limit: nat, p: nat)
      requires Valid()
      requires 0 < limit
      ensures FindAll(filters.(page := Some(p + 1), limit := Some(limit))).items == Window(Matching(filters), p * limit, limit)
    {
      MatchingIgnoresPaging(filters, Some(p + 1), Some(limit));
      SkipOfPage(p, limit);
    }

    /** Paging selects among the matching policies, it does not change which match. */
    lemma MatchingIgnoresPaging(filters: InsuranceFilters, page: Option<nat>, limit: Option<nat>)
      requires Valid()
      ensures Matching(filters.(page := page, limit := limit)) == Matching(filters)
    {
      assert WhereOf(filters.(page := page, limit := limit)) == WhereOf(filters);
    }

    /** update: builds the new row field by field; a missing id is Prisma's RecordNotFound. */
    method Update(id: Id, data: UpdateInsuranceData, now: Timestamp) returns (r: Result<Insurance, Error>)
      requires Valid()
      modifies this
      ensures Valid() && order == old(order)
      ensures id !in old(rows) ==> r == Failure(RecordNotFound) && rows == old(rows)
      ensures id in old(rows) ==>
        && r == Success(Applied(old(rows[id]), data, now))
        && rows == old(rows)[id := r.value]
    {
      if id !in rows {
        return Failure(RecordNotFound);
      }
      ghost var written := Applied(rows[id], data, now);
      ReplaceKeepsWellFormed(rows, order, nextSeq, id, written);
      ReplaceKeepsAscending(rows, order, CreatedAtOf, id, written);
      var record := rows[id];
      if Present(data.clientId) { record := record.(clientId := data.clientId.value); }
      if Present(data.policyNumber) { record := record.(policyNumber := data.policyNumber.value); }
      if Present(data.coverage) { record := record.(coverage := data.coverage.value); }
      if data.startDate.Some? { record := record.(startDate := data.startDate.value); }
      if data.endDate.Some? { record := record.(endDate := data.endDate.value); }
      if data.status.Some? { record := record.(status := data.status.value); }
      record := record.(updatedAt := now);
      assert record == written;
      rows := rows[id := record];
      r := Success(record);
    }

    /** updateStatus: sets the status of one policy and nothing else. */
    method UpdateStatus(id: Id, status: InsuranceStatus, now: Timestamp) returns (r: Result<Insurance, Error>)
      requires Valid()
      modifies this
      ensures Valid() && order == old(order)
      ensures id !in old(rows) ==> r == Failure(RecordNotFound) && rows == old(rows)
      ensures id in old(rows) ==>
        && r == Success(old(rows[id]).(status := status, updatedAt := now))
        && rows == old(rows)[id := r.value]
    {
      if id !in rows {
        return Failure(RecordNotFound);
      }
      var record := rows[id].(status := status, updatedAt := now);
      ReplaceKeepsWellFormed(rows, order, nextSeq, id, record);
      ReplaceKeepsAscending(rows, order, CreatedAtOf, id, record);
      rows := rows[id := record];
      r := Success(record);
    }

    method Delete(id: Id) returns (r: Outcome<Error>)
      requires Valid()
      modifies this
      ensures Valid()
      ensures id !in old(rows) ==> r == Fail(RecordNotFound) && rows == old(rows) && order == old(order)
      ensures id in old(rows) ==> r == Pass && rows == old(rows) - {id} && order == Without(old(order), id)
    {
      if id !in rows {
        return Fail(RecordNotFound);
      }
      RemoveKeepsWellFormed(rows, order, nextSeq, id);
      RemoveKeepsAscending(rows, order, CreatedAtOf, id);
      rows := rows - {id};
      order := Without(order, id);
      r := Pass;
    }

    function ExistsByPolicyNumber(policyNumber: string): (b: bool)
      reads this
      requires Valid()
      ensures b <==> exists id :: id in rows && rows[id].policyNumber == policyNumber
    {
      FindByPolicyNumber(policyNumber).Some?
    }

    function ExistsById(id: Id): (b: bool)
      reads this
      requires Valid()
      ensures b <==> id in rows
    {
      FindById(id).Some?
    }

    /** The policies of one client (plain equality, even for ""), newest first. */
    function FindByClientId(clientId: Id): (r: seq<Insurance>)
      reads this
      requires Valid()
      ensures forall k :: 0 <= k < |r| ==> r[k].id in rows && rows[r[k].id] == r[k] && r[k].clientId == clientId
      ensures forall id :: id in rows && rows[id].clientId == clientId ==> rows[id] in r
      ensures NewestCreatedFirst(r) && NoDuplicates(r)
    {
      var ofClient := (x: Insurance) => x.clientId == clientId;
      FilteredNewestFirst(ofClient);
      Filter(NewestFirst(), ofClient)
    }

    /** The stored policies `keep` accepts, newest first: each once, and every one of them. */
    lemma FilteredNewestFirst(keep: Insurance -> bool)
      requires Valid()
      ensures var r := Filter(NewestFirst(), keep);
              && NewestCreatedFirst(r) && NoDuplicates(r)
              && forall id :: id in rows && keep(rows[id]) ==> rows[id] in r
    {
      var all := NewestFirst();
      var r := Filter(all, keep);
      NewestFirstByCreatedAt();
      FilterKeepsSortedBy(all, keep, Later(CreatedAtOf));
      FilterKeepsNoDuplicates(all, keep);
      LaterMeansDescending(r, CreatedAtOf);
      NewestFirstHasEveryRow(rows, order, nextSeq);
      forall id | id in rows && keep(rows[id]) ensures rows[id] in r {
        var k :| 0 <= k < |all| && all[k] == rows[id];
      }
    }
  }
}
