/**
 * The entities of the back office and the shapes of the data the services
 * receive. A field the TypeScript services declare optional is an
 * Option; a nullable column is an Option as well. Dates are
 * integer timestamps.
 */
module Domain {
  import opened Wrappers
  import opened Ids

  type Timestamp = int

  // Insurance

  datatype InsuranceStatus = Active | Expired | Canceled

  datatype Insurance = Insurance(
    id: Id,
    clientId: Id,
    policyNumber: string,
    coverage: string,
    startDate: Timestamp,
    endDate: Timestamp,
    status: InsuranceStatus,
    createdAt: Timestamp,
    updatedAt: Timestamp)

  /**
   * What a caller hands to InsuranceService.create. The dates are declared
   * required, but the service still tests for their absence, so they are
   * optional here.
   */
  datatype CreateInsuranceData = CreateInsuranceData(
    clientId: Id,
    policyNumber: string,
    coverage: string,
    startDate: Option<Timestamp>,
    endDate: Option<Timestamp>)

  /**
   * What the service hands to the repository's create: the caller's fields,
   * with both dates known to be present, spread together with the status the
   * service computed.
   */
  datatype InsuranceDraft = InsuranceDraft(
    clientId: Id,
    policyNumber: string,
    coverage: string,
    startDate: Timestamp,
    endDate: Timestamp,
    status: InsuranceStatus)

  datatype UpdateInsuranceData = UpdateInsuranceData(
    clientId: Option<Id>,
    policyNumber: Option<string>,
    coverage: Option<string>,
    startDate: Option<Timestamp>,
    endDate: Option<Timestamp>,
    status: Option<InsuranceStatus>)

  datatype InsuranceFilters = InsuranceFilters(
    clientId: Option<Id>,
    policyNumber: Option<string>,
    coverage: Option<string>,
    status: Option<InsuranceStatus>,
    startDateFrom: Option<Timestamp>,
    startDateTo: Option<Timestamp>,
    endDateFrom: Option<Timestamp>,
    endDateTo: Option<Timestamp>,
    page: Option<nat>,
    limit: Option<nat>)

  // Client

  datatype Client = Client(
    id: Id,
    name: string,
    email: Option<string>,
    phone: Option<string>,
    createdAt: Timestamp,
    updatedAt: Timestamp)

  datatype CreateClientData = CreateClientData(
    name: string,
    email: Option<string>,
    phone: Option<string>)

  datatype UpdateClientData = UpdateClientData(
    name: Option<string>,
    email: Option<string>,
    phone: Option<string>)

  datatype ClientFilters = ClientFilters(
    name: Option<string>,
    email: Option<string>,
    phone: Option<string>,
    page: Option<nat>,
    limit: Option<nat>)

  // User

  datatype Role = Admin | Staff

  datatype User = User(
    id: Id,
    email: string,
    passwordHash: string,
    role: Role,
    createdAt: Timestamp,
    updatedAt: Timestamp)

  /** A user without its password hash, the form handed outward. */
  datatype PublicUser = PublicUser(
    id: Id,
    email: string,
    role: Role,
    createdAt: Timestamp,
    updatedAt: Timestamp)

  function PublicView(u: User): PublicUser {
    PublicUser(u.id, u.email, u.role, u.createdAt, u.updatedAt)
  }

  datatype CreateUserData = CreateUserData(
    email: string,
    password: string,
    role: Option<Role>)

  datatype UpdateUserData = UpdateUserData(
    email: Option<string>,
    password: Option<string>,
    role: Option<Role>)

  datatype UserFilters = UserFilters(
    email: Option<string>,
    role: Option<Role>,
    page: Option<nat>,
    limit: Option<nat>)

  /** A page of a listing and the number of rows matching the filter. */
  datatype Listing<T> = Listing(items: seq<T>, total: nat)

  // Pagination shared by the three repositories' findAll.

  const DefaultPage: nat := 1
  const DefaultLimit: nat := 10

  /** A missing or zero page is page 1. */
  function EffectivePage(page: Option<nat>): nat {
    if page.None? || page.value == 0 then DefaultPage else page.value
  }

  /** A missing or zero limit is 10. */
  function EffectiveLimit(limit: Option<nat>): nat {
    if limit.None? || limit.value == 0 then DefaultLimit else limit.value
  }

  /** The number of rows before the requested page. */
  function SkipOf(page: Option<nat>, limit: Option<nat>): nat {
    (EffectivePage(page) - 1) * EffectiveLimit(limit)
  }

  /** Page p + 1 of size `limit` skips the p pages before it. */
  lemma SkipOfPage(p: nat, limit: nat)
    requires 0 < limit
    ensures EffectiveLimit(Some(limit)) == limit
    ensures SkipOf(Some(p + 1), Some(limit)) == p * limit
  {
  }
}
