/**
 * Sequences of service calls whose combined outcome the services promise
 * (or, for the two as-written behaviours, do not promise).
 */
module Scenarios {
  import opened Wrappers
  import opened Ids
  import opened Errors
  import opened Domain
  import opened InsuranceInfra
  import opened InsuranceApplication

  /** Canceling twice: the second call always fails, and leaves the policy canceled. */
  method CancelTwice(service: InsuranceService, id: Id, now: Timestamp) returns (first: Result<Insurance, Error>, second: Result<Insurance, Error>)
    requires service.repo.Valid()
    modifies service.repo
    ensures service.repo.Valid()
    ensures first.Success? ==> second == Failure(PolicyAlreadyCanceled) && first.value.status == Canceled
    ensures first.Failure? ==> second == first
    ensures id in service.repo.rows ==> service.repo.rows[id].status == Canceled
  {
    first := service.CancelInsurance(id, now);
    second := service.CancelInsurance(id, now);
  }

  /**
   * A policy created after its end date is stored as active: the expired
   * status create computes never reaches the table.
   */
  method CreateLapsedPolicy(service: InsuranceService, data: CreateInsuranceData, now: Timestamp) returns (r: Result<Insurance, Error>)
    requires service.repo.Valid() && service.repo.CreatedNoLaterThan(now)
    requires RequiredFieldsPresent(data) && data.startDate.Some? && data.endDate.Some?
    requires data.startDate.value < data.endDate.value < now
    requires forall id :: id in service.repo.rows ==> service.repo.rows[id].policyNumber != data.policyNumber
    modifies service.repo
    ensures service.repo.Valid()
    ensures InitialStatus(data.endDate.value, now) == Expired
    ensures r.Success? && r.value.status == Active && r.value.endDate < now
    ensures r.value.id in service.repo.rows && service.repo.rows[r.value.id] == r.value
  {
    r := service.Create(data, now);
  }

  /** Canceled is not final: the general update path can set any status again. */
  method ReactivateCanceled(service: InsuranceService, id: Id, now: Timestamp) returns (r: Result<Insurance, Error>)
    requires service.repo.Valid()
    requires id in service.repo.rows && service.repo.rows[id].status == Canceled
    modifies service.repo
    ensures r.Success? && r.value.status == Active
    ensures id in service.repo.rows && service.repo.rows[id].status == Active
  {
    var data := UpdateInsuranceData(None, None, None, None, None, Some(Active));
    r := service.Update(id, data, now);
  }
}
