# smart-travel-insurance: the service layer and its repositories

This project models the core of the smart-travel-insurance back office in Dafny.
The back office manages clients, their travel insurance policies, and the admin
and staff users who log in to manage them. The model covers four services and
three repositories:

- InsuranceService: create, look up, list, update, cancel and delete policies.
- ClientService: create, look up, list, update and delete clients.
- UserService: create, look up, list, update and delete users, including the
  bcrypt password handling.
- AuthService: log in with email and password, validate a bearer token, log out.
- PrismaInsuranceRepository, PrismaClientRepository and PrismaUserRepository:
  each is modelled as an in-memory table.

Each repository is a class with three fields:

- `rows`: a map from id to record;
- `order`: the ids in the order the rows were created;
- `nextSeq`: the counter new ids come from.

`Valid()` is the table invariant. Every key is listed in `order` exactly once,
every key came from a counter value below `nextSeq`, every record carries
its own key, and createdAt never decreases along `order`.

Every `create` requires that no stored row was created after `now`: the clock
the database stamps rows with does not go back. Under that requirement the
creation order is the createdAt order, so the listings, which the source sorts
by createdAt descending, are `order` read back to front. Each listing is proved
sorted by createdAt, newest first, with no row twice.

Operations that write are methods with `modifies`. Each one states the whole new
table: its rows and its order. Read-only operations and the Prisma queries are functions that read the
table.

A query's `where` object is a datatype, built the same way the source builds it
from the truthy filters. `findMany` is the matching rows, by createdAt newest first, cut to
the `skip`/`take` window. `count` is the number of matching rows.

Each service is a class whose `repo` field is its repository. Each error the
source throws is a constructor of `Errors.Error`. An operation that can throw
returns a `Result` or an `Outcome`.

bcrypt and jsonwebtoken are modelled symbolically:

- A hash is the prefix `$2b$10$`, then the salt, then the first 72 characters of
  the password. Compare checks that shape.
- A token records what was signed, with which key and until when. It expires one
  day after signing.

Some behaviours are modelled as the code has them. Lemmas or scenario methods
make each one visible:

- `create` computes an `expired` status for a policy that already ended, but the
  repository stores `active` anyway: `Scenarios.CreateLapsedPolicy`.
- In the policy filters, an upper date bound replaces a lower bound on the same
  column. A lower bound counts only when no upper bound is given:
  `InsuranceInfra.LowerDateBoundsIgnoredWithUpperBounds`.
- A client update may store an empty email or phone: `ClientInfra.UpdateStoresEmptyContact`.
- A canceled policy can be made active again through `update`: `Scenarios.ReactivateCanceled`.

## Model

| member | source | states |
|---|---|---|
| InsuranceApplication.InsuranceService.Create | src/features/insurances/application/services/InsuranceService.ts:13-52 | The errors come in order: required text fields, required dates, end after start, policy number in use. The number-in-use error occurs exactly when another policy already has the number. On failure the table is unchanged. Success happens exactly when the required fields and both dates are given, the start is before the end and the number is unused. On success the new policy, stored as active, is inserted under a fresh id and appended to the order. Unique policy numbers stay unique. |
| InsuranceApplication.InitialStatus | src/features/insurances/application/services/InsuranceService.ts:38-44 | The computed status is never canceled. It is expired exactly when the end date is before now. |
| InsuranceApplication.InsuranceService.FindById | src/features/insurances/application/services/InsuranceService.ts:54-56 | Some exactly when the id is stored, and then the stored policy. |
| InsuranceApplication.InsuranceService.GetInsuranceByPolicyNumber | src/features/insurances/application/services/InsuranceService.ts:58-65 | Fails with "not found" exactly when no stored policy has the number. Otherwise it returns a stored policy with that number. |
| InsuranceApplication.InsuranceService.FindAll | src/features/insurances/application/services/InsuranceService.ts:67-71 | At most `limit` items, each of them a matching policy. The total is the number of matching policies. They come by createdAt, newest first, and none twice. |
| InsuranceApplication.InsuranceService.GetInsurancesByClientId | src/features/insurances/application/services/InsuranceService.ts:73-75 | Exactly the client's stored policies: every one returned is the client's, and every one of the client's is returned. They come by createdAt, newest first, and none twice. |
| InsuranceApplication.InsuranceService.Update | src/features/insurances/application/services/InsuranceService.ts:77-103 | Fails with "not found" for an unknown id. Fails with policy number in use exactly when a new, different, truthy number is taken. Fails with end not after start exactly when both dates are given and out of order. Succeeds exactly otherwise, storing the repository's update of the old record. On failure the table is unchanged. Policy numbers stay unique. |
| InsuranceApplication.InsuranceService.CancelInsurance | src/features/insurances/application/services/InsuranceService.ts:105-117 | Fails with "not found" or "already canceled". Otherwise it succeeds exactly for a policy that is not canceled, storing it canceled with a new updatedAt and nothing else changed. |
| InsuranceApplication.InsuranceService.Delete | src/features/insurances/application/services/InsuranceService.ts:119-127 | An unknown id fails and leaves the table as it was. A known id is removed from the rows and from the order, and nothing else changes. |
| InsuranceApplication.ValidateInsuranceData | src/features/insurances/application/services/InsuranceService.ts:129-154 | Passes exactly when no given, non-empty policy number or coverage is blank and, when both dates are given, they are in order. The policy number is checked first. Out-of-order dates fail with end not after start exactly when both text checks pass. An empty string passes. |
| InsuranceApplication.CheckDateRange | src/features/insurances/application/services/InsuranceService.ts:156-160 | Passes exactly when start is before end. |
| InsuranceApplication.InsertKeepsPolicyNumbersUnique | src/features/insurances/application/services/InsuranceService.ts:30-36 | Inserting a policy whose number is unused keeps the policy numbers unique. |
| InsuranceApplication.UpdateKeepsPolicyNumbersUnique | src/features/insurances/application/services/InsuranceService.ts:84-95 | An update that passed the policy-number check keeps the numbers unique. |
| InsuranceInfra.PrismaInsuranceRepository.constructor | src/features/insurances/infra/repositories/PrismaInsuranceRepository.ts:11 | An empty, valid table. |
| InsuranceInfra.PrismaInsuranceRepository.NewestFirst | src/features/insurances/infra/repositories/PrismaInsuranceRepository.ts:101-106 | Every listed policy is stored under its own id, and every stored policy is listed. |
| InsuranceInfra.PrismaInsuranceRepository.Create | src/features/insurances/infra/repositories/PrismaInsuranceRepository.ts:13-36 | Stores the given fields with status active, whatever status the draft carries, under an id not used before, as long as no stored row was created after now. The id is appended to the order and the table stays valid. |
| InsuranceInfra.PrismaInsuranceRepository.FindById | src/features/insurances/infra/repositories/PrismaInsuranceRepository.ts:38-56 | Some exactly when the id is stored, and then the stored policy. |
| InsuranceInfra.PrismaInsuranceRepository.FindByPolicyNumber | src/features/insurances/infra/repositories/PrismaInsuranceRepository.ts:58-76 | None exactly when no stored policy has the number. Otherwise it returns a stored policy with that number. |
| InsuranceInfra.PrismaInsuranceRepository.FindAll | src/features/insurances/infra/repositories/PrismaInsuranceRepository.ts:78-126 | The items are the `(page - 1) * limit` window of the matching policies, by createdAt newest first, with page and limit defaulting to 1 and 10. There are at most `limit` items. The total counts all matching stored policies. |
| InsuranceInfra.PrismaInsuranceRepository.CountMatchingPolicies | src/features/insurances/infra/repositories/PrismaInsuranceRepository.ts:107 | The number of matching policies listed equals the number of stored ids whose policy matches. |
| InsuranceInfra.PrismaInsuranceRepository.ListedAreStoredMatches | src/features/insurances/infra/repositories/PrismaInsuranceRepository.ts:100-106 | Every item of any page is a stored policy that meets every filter. |
| InsuranceInfra.PrismaInsuranceRepository.MatchingAreStored | src/features/insurances/infra/repositories/PrismaInsuranceRepository.ts:100-106 | Every matching policy is stored under its own id. |
| InsuranceInfra.PrismaInsuranceRepository.NewestFirstByCreatedAt | src/features/insurances/infra/repositories/PrismaInsuranceRepository.ts:105 | All stored policies, listed by createdAt newest first, none twice. |
| InsuranceInfra.PrismaInsuranceRepository.ListingIsNewestFirst | src/features/insurances/infra/repositories/PrismaInsuranceRepository.ts:100-106 | Every page lists its policies by createdAt, newest first, none twice. |
| InsuranceInfra.PrismaInsuranceRepository.FilteredNewestFirst | src/features/insurances/infra/repositories/PrismaInsuranceRepository.ts:179-182 | The policies a test keeps, by createdAt newest first, none twice, and every stored policy the test keeps among them. |
| InsuranceInfra.PrismaInsuranceRepository.EveryMatchOnItsPage | src/features/insurances/infra/repositories/PrismaInsuranceRepository.ts:81-83 | With page size `limit`, the match at position `p * limit + o` is item `o` of page `p + 1`. Paging therefore loses no match. |
| InsuranceInfra.PrismaInsuranceRepository.PageOf | src/features/insurances/infra/repositories/PrismaInsuranceRepository.ts:81-104 | Page `p + 1` of size `limit` is the window that starts after the first `p * limit` matches. |
| InsuranceInfra.PrismaInsuranceRepository.MatchingIgnoresPaging | src/features/insurances/infra/repositories/PrismaInsuranceRepository.ts:85-98 | Page and limit do not change which policies match. |
| InsuranceInfra.FiltersAreConjunctive | src/features/insurances/infra/repositories/PrismaInsuranceRepository.ts:85-98 | A policy matches exactly when it meets every truthy filter. Client id and status are compared for equality, and policy number and coverage by substring. Each date is checked against its upper bound when one is given, and against its lower bound only otherwise. |
| InsuranceInfra.LowerDateBoundsIgnoredWithUpperBounds | src/features/insurances/infra/repositories/PrismaInsuranceRepository.ts:92-97 | When both bounds on a date are given, a policy dated before the lower bound still matches. |
| InsuranceInfra.PrismaInsuranceRepository.Update | src/features/insurances/infra/repositories/PrismaInsuranceRepository.ts:128-154 | Fails for an unknown id. Otherwise it stores and returns the old record with each truthy field of the data written over it and updatedAt set to now. The order is unchanged. |
| InsuranceInfra.AppliedIsIdempotent | src/features/insurances/infra/repositories/PrismaInsuranceRepository.ts:129-141 | Applying the same update twice, with the same now, gives the same record as applying it once. |
| InsuranceInfra.AppliedKeepsWhatIsNotGiven | src/features/insurances/infra/repositories/PrismaInsuranceRepository.ts:129-141 | id and createdAt never change. An update with no truthy field only sets updatedAt. |
| InsuranceInfra.PrismaInsuranceRepository.UpdateStatus | src/features/insurances/infra/repositories/PrismaInsuranceRepository.ts:197-217 | Sets only the status and updatedAt of an existing policy. It fails for an unknown id. |
| InsuranceInfra.PrismaInsuranceRepository.Delete | src/features/insurances/infra/repositories/PrismaInsuranceRepository.ts:156-160 | Removes the row and its id from the order, keeping the table valid. It fails for an unknown id. |
| InsuranceInfra.PrismaInsuranceRepository.ExistsByPolicyNumber | src/features/insurances/infra/repositories/PrismaInsuranceRepository.ts:162-168 | True exactly when some stored policy has the number. |
| InsuranceInfra.PrismaInsuranceRepository.ExistsById | src/features/insurances/infra/repositories/PrismaInsuranceRepository.ts:170-176 | True exactly when the id is stored. |
| InsuranceInfra.PrismaInsuranceRepository.FindByClientId | src/features/insurances/infra/repositories/PrismaInsuranceRepository.ts:178-195 | Exactly the stored policies of the client, by createdAt newest first, none twice. |
| ClientApplication.ClientService.Create | src/features/clients/application/services/ClientService.ts:13-28 | A blank name fails with name required. A given email already in use fails with email in use, and that error occurs exactly then. Success happens exactly when neither error applies, and stores the client with an empty email or phone as null. On failure the table is unchanged. Client emails stay unique. |
| ClientApplication.ClientService.FindById | src/features/clients/application/services/ClientService.ts:30-32 | Some exactly when the id is stored, and then the stored client. |
| ClientApplication.ClientService.FindAll | src/features/clients/application/services/ClientService.ts:34-38 | At most `limit` items, each of them a matching client. The total is the number of matching clients. They come by createdAt, newest first, and none twice. |
| ClientApplication.ClientService.Update | src/features/clients/application/services/ClientService.ts:40-61 | The errors come in order: not found; email in use, exactly when a new, different, truthy email is taken; name empty, exactly when a given non-empty name is blank. Success happens exactly otherwise and stores the repository's update. On failure the table is unchanged. Client emails stay unique. |
| ClientApplication.ClientService.Delete | src/features/clients/application/services/ClientService.ts:63-71 | An unknown id fails and changes nothing. A known id is removed from the rows and from the order. Client emails stay unique. |
| ClientApplication.ValidateClientData | src/features/clients/application/services/ClientService.ts:73-86 | Passes exactly when no given, non-empty name is blank and every given, non-empty email fits the email pattern. The name is checked first. |
| ClientApplication.InsertKeepsClientEmailsUnique | src/features/clients/application/services/ClientService.ts:19-27 | Inserting a client whose email is null or unused keeps the non-empty emails unique. |
| ClientApplication.UpdateKeepsClientEmailsUnique | src/features/clients/application/services/ClientService.ts:47-60 | An update that passed the email check keeps the non-empty emails unique. |
| ClientInfra.PrismaClientRepository.constructor | src/features/clients/infra/repositories/PrismaClientRepository.ts:11 | An empty, valid table. |
| ClientInfra.PrismaClientRepository.NewestFirst | src/features/clients/infra/repositories/PrismaClientRepository.ts:62-69 | Every listed client is stored under its own id, and every stored client is listed. |
| ClientInfra.OrNull | src/features/clients/infra/repositories/PrismaClientRepository.ts:17-18 | Some exactly when the value is given and non-empty, and then that value. |
| ClientInfra.PrismaClientRepository.Create | src/features/clients/infra/repositories/PrismaClientRepository.ts:13-30 | Stores the name as given and an absent or empty email or phone as null, under an id not used before, as long as no stored row was created after now. The id is appended to the order. |
| ClientInfra.PrismaClientRepository.FindById | src/features/clients/infra/repositories/PrismaClientRepository.ts:32-47 | Some exactly when the id is stored, and then the stored client. |
| ClientInfra.PrismaClientRepository.FindAll | src/features/clients/infra/repositories/PrismaClientRepository.ts:49-85 | The items are the window of the matching clients, by createdAt newest first, with page and limit defaulting to 1 and 10. There are at most `limit` items. The total counts the matching clients. |
| ClientInfra.PrismaClientRepository.CountMatchingClients | src/features/clients/infra/repositories/PrismaClientRepository.ts:62-70 | The number of matching clients listed equals the number of stored ids whose client matches. |
| ClientInfra.PrismaClientRepository.ListedAreStoredMatches | src/features/clients/infra/repositories/PrismaClientRepository.ts:62-69 | Every item of any page is a stored client that meets every filter. |
| ClientInfra.PrismaClientRepository.MatchingAreStored | src/features/clients/infra/repositories/PrismaClientRepository.ts:62-69 | Every matching client is stored under its own id. |
| ClientInfra.PrismaClientRepository.NewestFirstByCreatedAt | src/features/clients/infra/repositories/PrismaClientRepository.ts:67 | All stored clients, listed by createdAt newest first, none twice. |
| ClientInfra.PrismaClientRepository.ListingIsNewestFirst | src/features/clients/infra/repositories/PrismaClientRepository.ts:62-69 | Every page lists its clients by createdAt, newest first, none twice. |
| ClientInfra.PrismaClientRepository.EveryMatchOnItsPage | src/features/clients/infra/repositories/PrismaClientRepository.ts:52-54 | With page size `limit`, the match at position `p * limit + o` is item `o` of page `p + 1`. |
| ClientInfra.PrismaClientRepository.PageOf | src/features/clients/infra/repositories/PrismaClientRepository.ts:52-67 | Page `p + 1` of size `limit` is the window that starts after the first `p * limit` matches. |
| ClientInfra.PrismaClientRepository.MatchingIgnoresPaging | src/features/clients/infra/repositories/PrismaClientRepository.ts:56-60 | Page and limit do not change which clients match. |
| ClientInfra.FiltersAreConjunctive | src/features/clients/infra/repositories/PrismaClientRepository.ts:56-60 | A client matches exactly when each truthy filter is a substring of its column. A null email or phone never matches a filter on it. |
| ClientInfra.PrismaClientRepository.Update | src/features/clients/infra/repositories/PrismaClientRepository.ts:87-107 | Fails for an unknown id. Otherwise it stores the old record with a truthy name, and with any given email or phone (empty included), written over it, and updatedAt set to now. |
| ClientInfra.AppliedIsIdempotent | src/features/clients/infra/repositories/PrismaClientRepository.ts:88-92 | Applying the same update twice, with the same now, gives the same record as applying it once. |
| ClientInfra.UpdateStoresEmptyContact | src/features/clients/infra/repositories/PrismaClientRepository.ts:91-92 | An update that gives an empty email or phone stores the empty string, not null. |
| ClientInfra.PrismaClientRepository.Delete | src/features/clients/infra/repositories/PrismaClientRepository.ts:109-113 | Removes the row and its id from the order. It fails for an unknown id. |
| ClientInfra.PrismaClientRepository.ExistsByEmail | src/features/clients/infra/repositories/PrismaClientRepository.ts:115-121 | True exactly when some stored client has exactly that email. |
| ClientInfra.PrismaClientRepository.EmailLookup | src/features/clients/infra/repositories/PrismaClientRepository.ts:116-118 | The email query finds a row exactly when some stored client has the email. |
| ClientInfra.PrismaClientRepository.ExistsById | src/features/clients/infra/repositories/PrismaClientRepository.ts:123-129 | True exactly when the id is stored. |
| UserApplication.UserService.Create | src/features/users/application/services/UserService.ts:14-36 | An empty email or password fails first. The email-in-use error occurs exactly when the email is taken. Success happens exactly otherwise, and stores the user with the bcrypt hash of the password, which Compare accepts. On failure the table is unchanged. User emails stay unique. |
| UserApplication.UserService.FindById | src/features/users/application/services/UserService.ts:38-40 | Some exactly when the id is stored, and then the stored user. |
| UserApplication.UserService.FindByEmail | src/features/users/application/services/UserService.ts:42-44 | None exactly when no stored user has the email. Otherwise it returns a stored user with that email, which is the only one while emails are unique. |
| UserApplication.UserService.FindAll | src/features/users/application/services/UserService.ts:46-50 | At most `limit` items, each of them a matching user. The total is the number of matching users. They come by createdAt, newest first, and none twice. |
| UserApplication.UserService.Update | src/features/users/application/services/UserService.ts:52-73 | Fails with "not found" for an unknown id. Fails with email in use exactly when a new, different, truthy email is taken. Otherwise it stores the repository's update with the password replaced by its hash. A new password is then accepted by the stored hash; without one the hash is unchanged. User emails stay unique. |
| UserApplication.UserService.Delete | src/features/users/application/services/UserService.ts:75-83 | An unknown id fails and changes nothing. A known id is removed from the rows and from the order. User emails stay unique. |
| UserApplication.ValidatePassword | src/features/users/application/services/UserService.ts:85-87 | True exactly for passwords of at least six characters. |
| UserApplication.HashPassword | src/features/users/application/services/UserService.ts:89-91 | The hash carries the `$2b$10$` prefix and accepts exactly the passwords that agree with this one on their first 72 characters. |
| UserApplication.ComparePassword | src/features/users/application/services/UserService.ts:93-95 | Accepts a password against any hash made from it, whatever the salt. |
| UserApplication.WithHashedPassword | src/features/users/application/services/UserService.ts:67-70 | A truthy password is replaced by its hash, which accepts it. Email, role and an absent or empty password are left as they were. |
| UserApplication.UpdateStoresHashOfNewPassword | src/features/users/application/services/UserService.ts:67-72 | After the update the stored hash accepts the new password when one is given, and is the old hash otherwise. |
| UserApplication.InsertKeepsUserEmailsUnique | src/features/users/application/services/UserService.ts:20-35 | Inserting a user whose email is unused keeps user emails unique. |
| UserApplication.UpdateKeepsUserEmailsUnique | src/features/users/application/services/UserService.ts:59-72 | An update that passed the email check keeps user emails unique. |
| UserInfra.PrismaUserRepository.constructor | src/features/users/infra/repositories/PrismaUserRepository.ts:11 | An empty, valid table. |
| UserInfra.PrismaUserRepository.NewestFirst | src/features/users/infra/repositories/PrismaUserRepository.ts:78-86 | Every listed user is stored under its own id, and every stored user is listed. |
| UserInfra.PrismaUserRepository.Create | src/features/users/infra/repositories/PrismaUserRepository.ts:13-30 | Stores the given password field unchanged as the password hash, with the role defaulting to admin, under an id not used before, as long as no stored row was created after now. |
| UserInfra.PrismaUserRepository.FindById | src/features/users/infra/repositories/PrismaUserRepository.ts:32-47 | Some exactly when the id is stored, and then the stored user. |
| UserInfra.PrismaUserRepository.FindByEmail | src/features/users/infra/repositories/PrismaUserRepository.ts:49-64 | None exactly when no stored user has the email. Otherwise it returns a stored user with that email. |
| UserInfra.PrismaUserRepository.FindAll | src/features/users/infra/repositories/PrismaUserRepository.ts:66-101 | The items are the window of the matching users, by createdAt newest first, with page and limit defaulting to 1 and 10. There are at most `limit` items. The total counts the matching users. |
| UserInfra.PrismaUserRepository.CountMatchingUsers | src/features/users/infra/repositories/PrismaUserRepository.ts:78-87 | The number of matching users listed equals the number of stored ids whose user matches. |
| UserInfra.PrismaUserRepository.ListedAreStoredMatches | src/features/users/infra/repositories/PrismaUserRepository.ts:78-86 | Every item of any page is a stored user that meets every filter. |
| UserInfra.PrismaUserRepository.MatchingAreStored | src/features/users/infra/repositories/PrismaUserRepository.ts:78-86 | Every matching user is stored under its own id. |
| UserInfra.PrismaUserRepository.NewestFirstByCreatedAt | src/features/users/infra/repositories/PrismaUserRepository.ts:83 | All stored users, listed by createdAt newest first, none twice. |
| UserInfra.PrismaUserRepository.ListingIsNewestFirst | src/features/users/infra/repositories/PrismaUserRepository.ts:78-86 | Every page lists its users by createdAt, newest first, none twice. |
| UserInfra.PrismaUserRepository.EveryMatchOnItsPage | src/features/users/infra/repositories/PrismaUserRepository.ts:69-71 | With page size `limit`, the match at position `p * limit + o` is item `o` of page `p + 1`. |
| UserInfra.PrismaUserRepository.PageOf | src/features/users/infra/repositories/PrismaUserRepository.ts:69-84 | Page `p + 1` of size `limit` is the window that starts after the first `p * limit` matches. |
| UserInfra.PrismaUserRepository.MatchingIgnoresPaging | src/features/users/infra/repositories/PrismaUserRepository.ts:73-76 | Page and limit do not change which users match. |
| UserInfra.FiltersAreConjunctive | src/features/users/infra/repositories/PrismaUserRepository.ts:73-76 | A user matches exactly when a truthy email filter is a substring of its email and a given role equals its role. |
| UserInfra.PrismaUserRepository.Update | src/features/users/infra/repositories/PrismaUserRepository.ts:103-123 | Fails for an unknown id. Otherwise it stores the old record with a truthy email, a truthy password (as the hash) and a given role written over it, and updatedAt set to now. |
| UserInfra.AppliedIsIdempotent | src/features/users/infra/repositories/PrismaUserRepository.ts:104-108 | Applying the same update twice, with the same now, gives the same record as applying it once. |
| UserInfra.PrismaUserRepository.Delete | src/features/users/infra/repositories/PrismaUserRepository.ts:125-129 | Removes the row and its id from the order. It fails for an unknown id. |
| UserInfra.PrismaUserRepository.ExistsByEmail | src/features/users/infra/repositories/PrismaUserRepository.ts:131-137 | True exactly when some stored user has the email. |
| UserInfra.PrismaUserRepository.ExistsById | src/features/users/infra/repositories/PrismaUserRepository.ts:139-145 | True exactly when the id is stored. |
| AuthApplication.AuthService.constructor | src/features/auth/application/services/AuthService.ts:11 | The service uses the given user service and signing key. |
| AuthApplication.AuthService.Login | src/features/auth/application/services/AuthService.ts:13-45 | Every failure is "invalid credentials". A success names a stored user with that email whose hash accepts the password. It returns that user without its hash, and a token signed with the secret that carries the user's id, email and role. |
| AuthApplication.AuthService.LoginSucceedsIffCredentialsMatch | src/features/auth/application/services/AuthService.ts:15-27 | While emails are unique, a login succeeds exactly when a stored user has the email and a hash that accepts the password. |
| AuthApplication.AuthService.CreatedUserCanLogIn | src/features/auth/application/services/AuthService.ts:15-27 | A stored user whose hash was made from a password can log in with that password and gets its own public view. |
| AuthApplication.AuthService.WrongPasswordIsRefused | src/features/auth/application/services/AuthService.ts:20-26 | A password that differs from the user's in its first 72 characters is refused with "invalid credentials". |
| AuthApplication.AuthService.ValidateToken | src/features/auth/application/services/AuthService.ts:47-67 | Some exactly when the token verifies and names a stored user, and then that user without its hash. |
| AuthApplication.AuthService.Logout | src/features/auth/application/services/AuthService.ts:69-76 | Passes exactly when the token verifies, and otherwise fails with "invalid token". |
| AuthApplication.AuthService.LoginTokenValidatesForOneDay | src/features/auth/application/services/AuthService.ts:29-44 | The token of a successful login validates to the logged-in user until one day after the login, and is refused from then on. Logout accepts it over the same period. |
| AuthApplication.ValidateLoginData | src/features/auth/application/services/AuthService.ts:78-95 | The errors come in order: empty email or password; an email that does not fit the pattern; a password shorter than six. Passes exactly when the email fits and the password has at least six characters. |
| EmailFormat.IsValidEmailIffPattern | src/features/auth/application/services/AuthService.ts:92-95 | The email check accepts a string exactly when it is a non-empty run, then '@', then a non-empty run, a '.' and a non-empty run. No run contains whitespace or '@'. |
| EmailFormat.ValidEmailMatches | src/features/clients/application/services/ClientService.ts:83-86 | Every string the email check accepts fits the pattern. |
| EmailFormat.MatchIsValidEmail | src/features/clients/application/services/ClientService.ts:83-86 | Every string that fits the pattern is accepted by the email check. |
| Crypto.CompareAcceptsOwnHash | src/features/users/application/services/UserService.ts:89-95 | A password is accepted against its own hash, whatever the salt. |
| Crypto.CompareIffSameDigest | src/features/users/application/services/UserService.ts:89-95 | A hash accepts exactly the passwords that agree with the hashed one on their first 72 characters. |
| Crypto.JwtSecret | lib/jwt.ts:3 | The key is the environment's secret when it is set and non-empty, and "fallback-secret" otherwise. It is never empty. |
| Crypto.VerifySignedToken | lib/jwt.ts:11-21 | A token signed with the secret verifies to its payload until one day after signing, and to null from then on. |
| Crypto.VerifyRejectsForeignKey | lib/jwt.ts:15-21 | A token signed with another key never verifies. |
| Strings.TrimEmptyIffBlank | src/features/clients/application/services/ClientService.ts:15 | Trimming a string leaves nothing exactly when the string is all whitespace. |
| Strings.TrimsToEmpty | src/features/insurances/application/services/InsuranceService.ts:130-143 | True exactly when the value is given and non-empty and made of whitespace only. |
| Strings.ContainsIffOccurs | src/features/clients/infra/repositories/PrismaClientRepository.ts:57-59 | A `contains` filter holds exactly when the text occurs at some position of the column. |
| Domain.SkipOfPage | src/features/insurances/infra/repositories/PrismaInsuranceRepository.ts:81-83 | With a non-zero limit, page `p + 1` skips `p * limit` rows. |
| Scenarios.CancelTwice | src/features/insurances/application/services/InsuranceService.ts:105-117 | Canceling a policy succeeds once. Canceling it again fails with "already canceled". |
| Scenarios.CreateLapsedPolicy | src/features/insurances/application/services/InsuranceService.ts:38-51 | Valid data for a policy whose end date has passed is accepted, and the policy is stored and returned as active, although the status computed for it is expired. |
| Scenarios.ReactivateCanceled | src/features/insurances/infra/repositories/PrismaInsuranceRepository.ts:136 | An update with status active succeeds on a canceled policy and stores it active again. |

## Left out

- Database I/O and the asynchronous Prisma client. Each query is a function of the in-memory table, and each write a method that changes it.
- Concurrency. `findAll` runs its two queries at once and services check before they write. The model runs every operation on its own, so races between a check and a write are not modelled.
- The database's own unique and foreign-key constraints and any cascades on delete. The schema is not part of this model, so only the service-level checks are modelled.
- Routes, pages, the seed script, the service factories, the middleware, the cookie helpers and the zod schemas. They sit around the core and are not part of this model.
- Negative, fractional or non-numeric page and limit values. The model takes them as natural numbers, with 0 standing for a falsy value.
- String lengths and positions. JavaScript counts UTF-16 code units and bcrypt counts bytes; the model counts characters.
- Randomness. The bcrypt salt is a parameter of every operation that hashes.
- Clocks. "now" is a parameter. createdAt and updatedAt are set by the database (with a default of now and an update stamp), and the model sets them the same way.
- A clock that goes back. Every `create` requires that no stored row was created after `now`; without that, the creation order and the createdAt order could differ.
- Ties in createdAt. Rows created at the same instant are listed newest created first; the database leaves their order open.
- Dates are integer timestamps. An Invalid Date (NaN), which passes the date-order checks in `create` and `checkDateRange`, is not modelled.
- Ids. Prisma's cuid generation is modelled by a counter that yields distinct ids.
- The JWT secret. The signing key is a constructor parameter of AuthService; `Crypto.JwtSecret` models how the key is chosen from the environment.
- The token's encoding. A signed token is a record of its payload, times and key; base64 and HMAC are not modelled.
- UserApplication.UserService.Update: it does not model that the source overwrites the caller's `password` field in place; the hashed data is a new value.
- EveryMatchOnItsPage (all three repositories): states the page of a match at position `p * limit + o` rather than computing the page from the position by division.
- The `findAll` and `getInsurancesByClientId` service methods pass their repository's result straight through, so their contracts restate the repository's listing properties.
