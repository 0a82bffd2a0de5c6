/**
 * InsuranceService: the business rules on policies, over the repository.
 */
module InsuranceApplication {
  import opened Wrappers
  import opened Ids
  import opened Errors
  import opened Strings
  import opened Tables
  import opened Store
  import opened Domain
  import opened InsuranceInfra

  /** No two stored policies share a policy number. */
  ghost predicate PolicyNumbersUnique(rows: map<Id, Insurance>) {
    forall a, b :: a in rows && b in rows && a != b ==> rows[a].policyNumber != rows[b].policyNumber
  }

  /** Client id, policy number and coverage must all be non-empty. */
  predicate RequiredFieldsPresent(data: CreateInsuranceData) {
    data.clientId != [] && data.policyNumber != [] && data.coverage != []
  }

  /** The status create computes: expired when the policy already ended, else active. */
  function InitialStatus(endDate: Timestamp, now: Timestamp): (s: InsuranceStatus)
    ensures s != Canceled
    ensures s == Expired <==> endDate < now
  {
    if endDate < now then Expired else Active
  }

  /** checkDateRange: the end must come strictly after the start. */
  function CheckDateRange(startDate: Timestamp, endDate: Timestamp): (r: Outcome<Error>)
    ensures r.Pass? <==> startDate < endDate
    ensures r.Fail? ==> r.error == EndNotAfterStart
  {
    if endDate <= startDate then Fail(EndNotAfterStart) else Pass
  }

  /** validateInsuranceData accepts the data of either create or update. */
  datatype InsuranceInput = ForCreate(create: CreateInsuranceData) | ForUpdate(update: UpdateInsuranceData)

  function PolicyNumberOf(data: InsuranceInput): Option<string> {
    match data
    case ForCreate(c) => Some(c.policyNumber)
    case ForUpdate(u) => u.policyNumber
  }

  function CoverageOf(data: InsuranceInput): Option<string> {
    match data
    case ForCreate(c) => Some(c.coverage)
    case ForUpdate(u) => u.coverage
  }

  function DatesOf(data: InsuranceInput): (Option<Timestamp>, Option<Timestamp>) {
    match data
    case ForCreate(c) => (c.startDate, c.endDate)
    case ForUpdate(u) => (u.startDate, u.endDate)
  }

  /**
   * validateInsuranceData: a non-empty policy number or coverage made of
   * whitespace only is refused, policy number first; when both dates are
   * given the range is checked. An empty policy number or coverage passes.
   */
  function ValidateInsuranceData(data: InsuranceInput): (r: Outcome<Error>)
    ensures r.Pass? <==>
      && !(Present(PolicyNumberOf(data)) && IsBlank(PolicyNumberOf(data).value))
      && !(Present(CoverageOf(data)) && IsBlank(CoverageOf(data).value))
      && (DatesOf(data).0.Some? && DatesOf(data).1.Some? ==> DatesOf(data).0.value < DatesOf(data).1.value)
    ensures Present(PolicyNumberOf(data)) && IsBlank(PolicyNumberOf(data).value) ==> r == Fail(PolicyNumberRequired)
    ensures r == Fail(CoverageRequired) <==>
      && !(Present(PolicyNumberOf(data)) && IsBlank(PolicyNumberOf(data).value))
      && Present(CoverageOf(data)) && IsBlank(CoverageOf(data).value)
    ensures r == Fail(EndNotAfterStart) <==>
      && !(Present(PolicyNumberOf(data)) && IsBlank(PolicyNumberOf(data).value))
      && !(Present(CoverageOf(data)) && IsBlank(CoverageOf(data).value))
      && DatesOf(data).0.Some? && DatesOf(data).1.Some? && DatesOf(data).1.value <= DatesOf(data).0.value
  {
    var (startDate, endDate) := DatesOf(data);
    if TrimsToEmpty(PolicyNumberOf(data)) then Fail(PolicyNumberRequired)
    else if TrimsToEmpty(CoverageOf(data)) then Fail(CoverageRequired)
    else if startDate.Some? && endDate.Some? then CheckDateRange(startDate.value, endDate.value)
    else Pass
  }

  /** A given, truthy policy number other than the policy's own that another policy already has. */
  ghost predicate PolicyNumberConflict(rows: map<Id, Insurance>, id: Id, data: UpdateInsuranceData)
    requires id in rows
  {
    && Present(data.policyNumber)
    && data.policyNumber.value != rows[id].policyNumber
    && exists other :: other in rows && rows[other].policyNumber == data.policyNumber.value
  }

  /** Given together, the dates of an update must be in order. */
  predicate DatesInOrder(data: UpdateInsuranceData) {
    data.startDate.Some? && data.endDate.Some? ==> data.startDate.value < data.endDate.value
  }

  /** Adding a policy whose number no stored policy has keeps the numbers unique. */
  lemma InsertKeepsPolicyNumbersUnique(rows: map<Id, Insurance>, x: Insurance)
    requires PolicyNumbersUnique(rows)
    requires x.id !in rows
    requires forall id :: id in rows ==> rows[id].policyNumber != x.policyNumber
    ensures PolicyNumbersUnique(rows[x.id := x])
  {
  }

  /** An update that passed the policy-number check keeps the numbers unique. */
  lemma UpdateKeepsPolicyNumbersUnique(rows: map<Id, Insurance>, id: Id, data: UpdateInsuranceData, now: Timestamp)
    requires PolicyNumbersUnique(rows)
    requires id in rows && !PolicyNumberConflict(rows, id, data)
    ensures PolicyNumbersUnique(rows[id := Applied(rows[id], data, now)])
  {
    var after := rows[id := Applied(rows[id], data, now)];
    forall a, b | a in after && b in after && a != b
      ensures after[a].policyNumber != after[b].policyNumber
    {
      if a == id {
        assert after[b] == rows[b];
      } else if b == id {
        assert after[a] == rows[a];
      }
    }
  }

  class InsuranceService {
    const repo: PrismaInsuranceRepository

    constructor (repo: PrismaInsuranceRepository)
      ensures this.repo == repo
    {
      this.repo := repo;
    }

    /**
     * create: the three text fields must be non-empty, both dates given and
     * in order, and the policy number unused; checked in that order. The
     * repository stores the policy as active, whatever status was computed.
     */
    method Create(data: CreateInsuranceData, now: Timestamp) returns (r: Result<Insurance, Error>)
      requires repo.Valid()
      requires repo.CreatedNoLaterThan(now)
      modifies repo
      ensures repo.Valid()
      ensures !RequiredFieldsPresent(data) ==> r == Failure(PolicyFieldsRequired)
      ensures RequiredFieldsPresent(data) && (data.startDate.None? || data.endDate.None?) ==>
                r == Failure(DatesRequired)
      ensures (RequiredFieldsPresent(data) && data.startDate.Some? && data.endDate.Some? &&
               data.endDate.value <= data.startDate.value) ==> r == Failure(EndNotAfterStart)
      ensures r == Failure(PolicyNumberInUse) <==>
                && RequiredFieldsPresent(data) && data.startDate.Some? && data.endDate.Some?
                && data.startDate.value < data.endDate.value
                && exists id :: id in old(repo.rows) && old(repo.rows)[id].policyNumber == data.policyNumber
      ensures r.Failure? ==> repo.rows == old(repo.rows) && repo.order == old(repo.order)
      ensures r.Success? <==>
                && RequiredFieldsPresent(data) && data.startDate.Some? && data.endDate.Some?
                && data.startDate.value < data.endDate.value
                && !exists id :: id in old(repo.rows) && old(repo.rows)[id].policyNumber == data.policyNumber
      ensures r.Success? ==>
                && r.value.id !in old(repo.rows)
                && r.value == Insurance(r.value.id, data.clientId, data.policyNumber, data.coverage,
                                        data.startDate.value, data.endDate.value, Active, now, now)
                && repo.rows == old(repo.rows)[r.value.id := r.value]
                && repo.order == old(repo.order) + [r.value.id]
      ensures PolicyNumbersUnique(old(repo.rows)) ==> PolicyNumbersUnique(repo.rows)
    {
      if !RequiredFieldsPresent(data) {
        return Failure(PolicyFieldsRequired);
      }
      if data.startDate.None? || data.endDate.None? {
        return Failure(DatesRequired);
      }
      var startDate, endDate := data.startDate.value, data.endDate.value;
      if endDate <= startDate {
        return Failure(EndNotAfterStart);
      }
      var existing := repo.FindByPolicyNumber(data.policyNumber);
      if existing.Some? {
        return Failure(PolicyNumberInUse);
      }
      var status := InitialStatus(endDate, now);
      var draft := InsuranceDraft(data.clientId, data.policyNumber, data.coverage, startDate, endDate, status);
      ghost var before := repo.rows;
      var created := repo.Create(draft, now);
      if PolicyNumbersUnique(before) {
        InsertKeepsPolicyNumbersUnique(before, created);
      }
      r := Success(created);
    }

    function FindById(id: Id): (r: Option<Insurance>)
      reads repo
      requires repo.Valid()
      ensures r.Some? <==> id in repo.rows
      ensures r.Some? ==> r.value == repo.rows[id]
    {
      repo.FindById(id)
    }

    /** getInsuranceByPolicyNumber: the policy with that number, or "not found". */
    function GetInsuranceByPolicyNumber(policyNumber: string): (r: Result<Insurance, Error>)
      reads repo
      requires repo.Valid()
      ensures r.Failure? <==> forall id :: id in repo.rows ==> repo.rows[id].policyNumber != policyNumber
      ensures r.Failure? ==> r.error == PolicyNotFound
      ensures r.Success? ==> r.value.id in repo.rows && repo.rows[r.value.id] == r.value &&
                             r.value.policyNumber == policyNumber
    {
      match repo.FindByPolicyNumber(policyNumber)
      case None => Failure(PolicyNotFound)
      case Some(insurance) => Success(insurance)
    }

    /** findAll: the repository's listing, passed through. */
    function FindAll(filters: InsuranceFilters): (r: Listing<Insurance>)
      reads repo
      requires repo.Valid()
      ensures |r.items| <= EffectiveLimit(filters.limit)
      ensures forall k :: 0 <= k < |r.items| ==> r.items[k] in repo.Matching(filters)
      ensures r.total == |repo.MatchingIds(filters)|
      ensures NewestCreatedFirst(r.items) && NoDuplicates(r.items)
    {
      WindowWithin(repo.Matching(filters), SkipOf(filters.page, filters.limit), EffectiveLimit(filters.limit));
      repo.ListingIsNewestFirst(filters);
      repo.FindAll(filters)
    }

    /** getInsurancesByClientId: the client's policies, passed through. */
    function GetInsurancesByClientId(clientId: Id): (r: seq<Insurance>)
      reads repo
      requires repo.Valid()
      ensures forall k :: 0 <= k < |r| ==> r[k].id in repo.rows && r[k].clientId == clientId
      ensures forall id :: id in repo.rows && repo.rows[id].clientId == clientId ==> repo.rows[id] in r
      ensures NewestCreatedFirst(r) && NoDuplicates(r)
    {
      repo.FindByClientId(clientId)
    }

    /**
     * update: the policy must exist; a new, different, truthy policy number
     * must be unused; when both dates are given they must be in order. Then
     * the repository applies the truthy fields, status included.
     */
    method Update(id: Id, data: UpdateInsuranceData, now: Timestamp) returns (r: Result<Insurance, Error>)
      requires repo.Valid()
      modifies repo
      ensures repo.Valid() && repo.order == old(repo.order)
      ensures id !in old(repo.rows) ==> r == Failure(PolicyNotFound)
      ensures r == Failure(PolicyNumberInUse) <==> id in old(repo.rows) && PolicyNumberConflict(old(repo.rows), id, data)
      ensures r == Failure(EndNotAfterStart) <==>
                id in old(repo.rows) && !PolicyNumberConflict(old(repo.rows), id, data) && !DatesInOrder(data)
      ensures r.Failure? ==> repo.rows == old(repo.rows)
      ensures r.Success? <==> id in old(repo.rows) && !PolicyNumberConflict(old(repo.rows), id, data) && DatesInOrder(data)
      ensures r.Success? ==>
                && r.value == Applied(old(repo.rows)[id], data, now)
                && repo.rows == old(repo.rows)[id := r.value]
      ensures PolicyNumbersUnique(old(repo.rows)) ==> PolicyNumbersUnique(repo.rows)
    {
      var existing := repo.FindById(id);
      if existing.None? {
        return Failure(PolicyNotFound);
      }
      if Present(data.policyNumber) && data.policyNumber.value != existing.value.policyNumber {
        var taken := repo.ExistsByPolicyNumber(data.policyNumber.value);
        if taken {
          return Failure(PolicyNumberInUse);
        }
      }
      if data.startDate.Some? && data.endDate.Some? && data.endDate.value <= data.startDate.value {
        return Failure(EndNotAfterStart);
      }
      ghost var before := repo.rows;
      if PolicyNumbersUnique(before) {
        UpdateKeepsPolicyNumbersUnique(before, id, data, now);
      }
      r := repo.Update(id, data, now);
    }

    /** cancelInsurance: an existing policy that is not canceled yet becomes canceled. */
    method CancelInsurance(id: Id, now: Timestamp) returns (r: Result<Insurance, Error>)
      requires repo.Valid()
      modifies repo
      ensures repo.Valid() && repo.order == old(repo.order)
      ensures id !in old(repo.rows) ==> r == Failure(PolicyNotFound)
      ensures id in old(repo.rows) && old(repo.rows)[id].status == Canceled ==> r == Failure(PolicyAlreadyCanceled)
      ensures r.Failure? ==> repo.rows == old(repo.rows)
      ensures r.Success? <==> id in old(repo.rows) && old(repo.rows)[id].status != Canceled
      ensures r.Success? ==>
                && r.value == old(repo.rows)[id].(status := Canceled, updatedAt := now)
                && repo.rows == old(repo.rows)[id := r.value]
    {
      var existing := repo.FindById(id);
      if existing.None? {
        return Failure(PolicyNotFound);
      }
      if existing.value.status == Canceled {
        return Failure(PolicyAlreadyCanceled);
      }
      r := repo.UpdateStatus(id, Canceled, now);
    }

    /** delete: an existing policy is removed; any other id is "not found". */
    method Delete(id: Id) returns (r: Outcome<Error>)
      requires repo.Valid()
      modifies repo
      ensures repo.Valid()
      ensures id !in old(repo.rows) ==> r == Fail(PolicyNotFound) && repo.rows == old(repo.rows) &&
                                        repo.order == old(repo.order)
      ensures id in old(repo.rows) ==>
                r == Pass && repo.rows == old(repo.rows) - {id} && repo.order == Without(old(repo.order), id)
      ensures PolicyNumbersUnique(old(repo.rows)) ==> PolicyNumbersUnique(repo.rows)
    {
      var found := repo.ExistsById(id);
      if !found {
        return Fail(PolicyNotFound);
      }
      r := repo.Delete(id);
    }
  }
}
