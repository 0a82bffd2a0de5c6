/**
 * ClientService: the business rules on clients, over the repository.
 */
module ClientApplication {
  import opened Wrappers
  import opened Ids
  import opened Errors
  import opened Strings
  import opened EmailFormat
  import opened Tables
  import opened Store
  import opened Domain
  import opened ClientInfra

  /**
   * No two stored clients share a non-empty email. Several clients may
   * have no email, or an email set to "" by an update.
   */
  ghost predicate ClientEmailsUnique(rows: map<Id, Client>) {
    forall a, b :: a in rows && b in rows && a != b && Present(rows[a].email) ==> rows[a].email != rows[b].email
  }

  /** Some stored client has exactly this email. */
  ghost predicate EmailTaken(rows: map<Id, Client>, email: string) {
    exists id :: id in rows && rows[id].email == Some(email)
  }

  /** A truthy email other than the client's own that another client already has. */
  ghost predicate EmailConflict(rows: map<Id, Client>, id: Id, data: UpdateClientData)
    requires id in rows
  {
    Present(data.email) && data.email != rows[id].email && EmailTaken(rows, data.email.value)
  }

  /** Adding a client whose email is null or unused keeps the emails unique. */
  lemma InsertKeepsClientEmailsUnique(rows: map<Id, Client>, c: Client)
    requires ClientEmailsUnique(rows)
    requires c.id !in rows
    requires Present(c.email) ==> !EmailTaken(rows, c.email.value)
    ensures ClientEmailsUnique(rows[c.id := c])
  {
    var after := rows[c.id := c];
    forall a, b | a in after && b in after && a != b && Present(after[a].email)
      ensures after[a].email != after[b].email
    {
      if a == c.id {
        assert after[b] == rows[b];
      } else if b == c.id {
        assert after[a] == rows[a];
      }
    }
  }

  /** An update that passed the email check keeps the emails unique. */
  lemma UpdateKeepsClientEmailsUnique(rows: map<Id, Client>, id: Id, data: UpdateClientData, now: Timestamp)
    requires ClientEmailsUnique(rows)
    requires id in rows && !EmailConflict(rows, id, data)
    ensures ClientEmailsUnique(rows[id := Applied(rows[id], data, now)])
  {
    var after := rows[id := Applied(rows[id], data, now)];
    forall a, b | a in after && b in after && a != b && Present(after[a].email)
      ensures after[a].email != after[b].email
    {
      if a == id {
        assert after[b] == rows[b];
        if after[a].email != rows[id].email {
          assert !EmailTaken(rows, after[a].email.value);
        }
      } else if b == id {
        assert after[a] == rows[a];
        if after[b].email != rows[id].email && Present(after[b].email) {
          assert !EmailTaken(rows, after[b].email.value);
        }
      }
    }
  }

  /** validateClientData accepts the data of either create or update. */
  datatype ClientInput = ForCreate(create: CreateClientData) | ForUpdate(update: UpdateClientData)

  function NameOf(data: ClientInput): Option<string> {
    match data
    case ForCreate(c) => Some(c.name)
    case ForUpdate(u) => u.name
  }

  function EmailOf(data: ClientInput): Option<string> {
    match data
    case ForCreate(c) => c.email
    case ForUpdate(u) => u.email
  }

  /**
   * validateClientData: a non-empty name of whitespace only is refused,
   * then a non-empty email that is not `local@domain.tld` with no
   * whitespace and a single '@'. Empty names and emails pass.
   */
  function ValidateClientData(data: ClientInput): (r: Outcome<Error>)
    ensures r.Pass? <==>
      && !(Present(NameOf(data)) && IsBlank(NameOf(data).value))
      && (Present(EmailOf(data)) ==> MatchesEmailPattern(EmailOf(data).value))
    ensures Present(NameOf(data)) && IsBlank(NameOf(data).value) ==> r == Fail(NameEmpty)
    ensures r == Fail(InvalidEmail) <==>
      && !(Present(NameOf(data)) && IsBlank(NameOf(data).value))
      && Present(EmailOf(data)) && !MatchesEmailPattern(EmailOf(data).value)
  {
    var email := EmailOf(data);
    if TrimsToEmpty(NameOf(data)) then Fail(NameEmpty)
    else if Present(email) && !IsValidEmail(email.value) then
      IsValidEmailIffPattern(email.value);
      Fail(InvalidEmail)
    else
      assert Present(email) ==> MatchesEmailPattern(email.value) by {
        if Present(email) { IsValidEmailIffPattern(email.value); }
      }
      Pass
  }

  class ClientService {
    const repo: PrismaClientRepository

    constructor (repo: PrismaClientRepository)
      ensures this.repo == repo
    {
      this.repo := repo;
    }

    /**
     * create: the name must not be blank (an empty name is blank); a truthy
     * email must be unused. The repository stores the client.
     */
    method Create(data: CreateClientData, now: Timestamp) returns (r: Result<Client, Error>)
      requires repo.Valid()
      requires repo.CreatedNoLaterThan(now)
      modifies repo
      ensures repo.Valid()
      ensures IsBlank(data.name) ==> r == Failure(NameRequired)
      ensures r == Failure(EmailInUse) <==>
                !IsBlank(data.name) && Present(data.email) && EmailTaken(old(repo.rows), data.email.value)
      ensures r.Failure? ==> repo.rows == old(repo.rows) && repo.order == old(repo.order)
      ensures r.Success? <==> !IsBlank(data.name) && !(Present(data.email) && EmailTaken(old(repo.rows), data.email.value))
      ensures r.Success? ==>
                && r.value.id !in old(repo.rows)
                && r.value == Client(r.value.id, data.name, OrNull(data.email), OrNull(data.phone), now, now)
                && repo.rows == old(repo.rows)[r.value.id := r.value]
                && repo.order == old(repo.order) + [r.value.id]
      ensures ClientEmailsUnique(old(repo.rows)) ==> ClientEmailsUnique(repo.rows)
    {
      if data.name == [] || TrimsToEmpty(Some(data.name)) {
        return Failure(NameRequired);
      }
      if Present(data.email) {
        var taken := repo.ExistsByEmail(data.email.value);
        if taken {
          return Failure(EmailInUse);
        }
      }
      ghost var before := repo.rows;
      var created := repo.Create(data, now);
      if ClientEmailsUnique(before) {
        InsertKeepsClientEmailsUnique(before, created);
      }
      r := Success(created);
    }

    function FindById(id: Id): (r: Option<Client>)
      reads repo
      requires repo.Valid()
      ensures r.Some? <==> id in repo.rows
      ensures r.Some? ==> r.value == repo.rows[id]
    {
      repo.FindById(id)
    }

    /** findAll: the repository's listing, passed through. */
    function FindAll(filters: ClientFilters): (r: Listing<Client>)
      reads repo
      requires repo.Valid()
      ensures |r.items| <= EffectiveLimit(filters.limit)
      ensures forall k :: 0 <= k < |r.items| ==> r.items[k] in repo.Matching(filters)
      ensures r.total == |repo.MatchingIds(filters)|
      ensures NewestCreatedFirst(r.items) && NoDuplicates(r.items)
    {
      WindowWithin(repo.Matching(filters), SkipOf(filters.page, filters.limit), EffectiveLimit(filters.limit));
      repo.ListingIsNewestFirst(filters);
      repo.FindAll(filters)
    }

    /**
     * update: the client must exist; a truthy email other than its own must
     * be unused; a non-empty name must not be blank. Then the repository
     * applies the update.
     */
    method Update(id: Id, data: UpdateClientData, now: Timestamp) returns (r: Result<Client, Error>)
      requires repo.Valid()
      modifies repo
      ensures repo.Valid() && repo.order == old(repo.order)
      ensures id !in old(repo.rows) ==> r == Failure(ClientNotFound)
      ensures r == Failure(EmailInUse) <==> id in old(repo.rows) && EmailConflict(old(repo.rows), id, data)
      ensures r == Failure(NameEmpty) <==>
                && id in old(repo.rows) && !EmailConflict(old(repo.rows), id, data)
                && Present(data.name) && IsBlank(data.name.value)
      ensures r.Failure? ==> repo.rows == old(repo.rows)
      ensures r.Success? <==>
                && id in old(repo.rows) && !EmailConflict(old(repo.rows), id, data)
                && !(Present(data.name) && IsBlank(data.name.value))
      ensures r.Success? ==>
                && r.value == Applied(old(repo.rows)[id], data, now)
                && repo.rows == old(repo.rows)[id := r.value]
      ensures ClientEmailsUnique(old(repo.rows)) ==> ClientEmailsUnique(repo.rows)
    {
      var existing := repo.FindById(id);
      if existing.None? {
        return Failure(ClientNotFound);
      }
      if Present(data.email) && data.email != existing.value.email {
        var taken := repo.ExistsByEmail(data.email.value);
        if taken {
          return Failure(EmailInUse);
        }
      }
      if TrimsToEmpty(data.name) {
        return Failure(NameEmpty);
      }
      ghost var before := repo.rows;
      if ClientEmailsUnique(before) {
        UpdateKeepsClientEmailsUnique(before, id, data, now);
      }
      r := repo.Update(id, data, now);
    }

    /** delete: an existing client is removed; any other id is "not found". */
    method Delete(id: Id) returns (r: Outcome<Error>)
      requires repo.Valid()
      modifies repo
      ensures repo.Valid()
      ensures id !in old(repo.rows) ==> r == Fail(ClientNotFound) && repo.rows == old(repo.rows) &&
                                        repo.order == old(repo.order)
      ensures id in old(repo.rows) ==>
                r == Pass && repo.rows == old(repo.rows) - {id} && repo.order == Without(old(repo.order), id)
      ensures ClientEmailsUnique(old(repo.rows)) ==> ClientEmailsUnique(repo.rows)
    {
      var found := repo.ExistsById(id);
      if !found {
        return Fail(ClientNotFound);
      }
      r := repo.Delete(id);
    }
  }
}
