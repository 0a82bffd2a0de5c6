/**
 * UserService: the business rules on back-office users, over the
 * repository. Passwords reach the repository only as bcrypt hashes.
 */
module UserApplication {
  import opened Wrappers
  import opened Ids
  import opened Errors
  import opened Strings
  import opened Tables
  import opened Store
  import opened Domain
  import opened Crypto
  import opened UserInfra

  /** No two stored users share an email. */
  ghost predicate UserEmailsUnique(rows: map<Id, User>) {
    forall a, b :: a in rows && b in rows && a != b ==> rows[a].email != rows[b].email
  }

  ghost predicate EmailTaken(rows: map<Id, User>, email: string) {
    exists id :: id in rows && rows[id].email == email
  }

  /** A truthy email other than the user's own that another user already has. */
  ghost predicate EmailConflict(rows: map<Id, User>, id: Id, data: UpdateUserData)
    requires id in rows
  {
    Present(data.email) && data.email.value != rows[id].email && EmailTaken(rows, data.email.value)
  }

  /** The update data with a truthy password replaced by its bcrypt hash. */
  function WithHashedPassword(data: UpdateUserData, salt: Salt): (r: UpdateUserData)
    ensures r.email == data.email && r.role == data.role
    ensures Present(data.password) ==> r.password == Some(Hash(data.password.value, salt)) &&
                                       Compare(data.password.value, r.password.value)
    ensures !Present(data.password) ==> r.password == data.password
  {
    if Present(data.password) then
      CompareAcceptsOwnHash(data.password.value, salt);
      data.(password := Some(Hash(data.password.value, salt)))
    else data
  }

  /** validatePassword: at least six characters. */
  function ValidatePassword(password: string): (ok: bool)
    ensures ok <==> |password| >= 6
    ensures ok ==> password != []
  {
    |password| >= 6
  }

  /** hashPassword: a hash the same password is accepted against. */
  function HashPassword(password: string, salt: Salt): (hash: string)
    ensures Compare(password, hash)
    ensures hash[..|HashPrefix|] == HashPrefix
    ensures forall other :: Compare(other, hash) <==> Digest(other) == Digest(password)
  {
    var hash := Hash(password, salt);
    CompareAcceptsOwnHash(password, salt);
    assert forall other :: Compare(other, hash) <==> Digest(other) == Digest(password) by {
      forall other ensures Compare(other, hash) <==> Digest(other) == Digest(password) {
        CompareIffSameDigest(password, other, salt);
      }
    }
    hash
  }

  /** comparePassword: bcrypt.compare. */
  function ComparePassword(password: string, hash: string): (ok: bool)
    ensures forall salt: Salt :: hash == Hash(password, salt) ==> ok
  {
    assert forall salt: Salt :: hash == Hash(password, salt) ==> Compare(password, hash) by {
      forall salt: Salt | hash == Hash(password, salt) ensures Compare(password, hash) {
        CompareAcceptsOwnHash(password, salt);
      }
    }
    Compare(password, hash)
  }

  /**
   * After update the stored hash accepts the new password when one is
   * given, and is the old hash otherwise.
   */
  lemma UpdateStoresHashOfNewPassword(before: User, data: UpdateUserData, salt: Salt, now: Timestamp)
    ensures var after := Applied(before, WithHashedPassword(data, salt), now);
            && (Present(data.password) ==> Compare(data.password.value, after.passwordHash))
            && (!Present(data.password) ==> after.passwordHash == before.passwordHash)
  {
    var hashed := WithHashedPassword(data, salt);
    if Present(data.password) {
      assert Present(hashed.password);
    }
  }

  lemma InsertKeepsUserEmailsUnique(rows: map<Id, User>, u: User)
    requires UserEmailsUnique(rows)
    requires u.id !in rows && !EmailTaken(rows, u.email)
    ensures UserEmailsUnique(rows[u.id := u])
  {
    var after := rows[u.id := u];
    forall a, b | a in after && b in after && a != b ensures after[a].email != after[b].email {
      if a == u.id {
        assert after[b] == rows[b];
      } else if b == u.id {
        assert after[a] == rows[a];
      }
    }
  }

  lemma UpdateKeepsUserEmailsUnique(rows: map<Id, User>, id: Id, data: UpdateUserData, now: Timestamp)
    requires UserEmailsUnique(rows)
    requires id in rows && !EmailConflict(rows, id, data)
    ensures UserEmailsUnique(rows[id := Applied(rows[id], data, now)])
  {
    var after := rows[id := Applied(rows[id], data, now)];
    forall a, b | a in after && b in after && a != b ensures after[a].email != after[b].email {
      if a == id {
        assert after[b] == rows[b];
        if after[a].email != rows[id].email {
          assert !EmailTaken(rows, after[a].email);
        }
      } else if b == id {
        assert after[a] == rows[a];
        if after[b].email != rows[id].email {
          assert !EmailTaken(rows, after[b].email);
        }
      }
    }
  }

  class UserService {
    const repo: PrismaUserRepository

    constructor (repo: PrismaUserRepository)
      ensures this.repo == repo
    {
      this.repo := repo;
    }

    /**
     * create: email and password must be non-empty and the email unused;
     * the repository receives the caller's data with the password replaced
     * by its hash.
     */
    method Create(data: CreateUserData, salt: Salt, now: Timestamp) returns (r: Result<User, Error>)
      requires repo.Valid()
      requires repo.CreatedNoLaterThan(now)
      modifies repo
      ensures repo.Valid()
      ensures data.email == [] || data.password == [] ==> r == Failure(EmailAndPasswordRequired)
      ensures r == Failure(EmailInUse) <==>
                data.email != [] && data.password != [] && EmailTaken(old(repo.rows), data.email)
      ensures r.Failure? ==> repo.rows == old(repo.rows) && repo.order == old(repo.order)
      ensures r.Success? <==> data.email != [] && data.password != [] && !EmailTaken(old(repo.rows), data.email)
      ensures r.Success? ==>
                && r.value.id !in old(repo.rows)
                && r.value == User(r.value.id, data.email, Hash(data.password, salt),
                                   if data.role.Some? then data.role.value else Admin, now, now)
                && Compare(data.password, r.value.passwordHash)
                && repo.rows == old(repo.rows)[r.value.id := r.value]
                && repo.order == old(repo.order) + [r.value.id]
      ensures UserEmailsUnique(old(repo.rows)) ==> UserEmailsUnique(repo.rows)
    {
      if data.email == [] || data.password == [] {
        return Failure(EmailAndPasswordRequired);
      }
      var existing := repo.FindByEmail(data.email);
      if existing.Some? {
        return Failure(EmailInUse);
      }
      var passwordHash := HashPassword(data.password, salt);
      ghost var before := repo.rows;
      var created := repo.Create(data.(password := passwordHash), now);
      if UserEmailsUnique(before) {
        InsertKeepsUserEmailsUnique(before, created);
      }
      r := Success(created);
    }

    function FindById(id: Id): (r: Option<User>)
      reads repo
      requires repo.Valid()
      ensures r.Some? <==> id in repo.rows
      ensures r.Some? ==> r.value == repo.rows[id]
    {
      repo.FindById(id)
    }

    function FindByEmail(email: string): (r: Option<User>)
      reads repo
      requires repo.Valid()
      ensures r.None? <==> !EmailTaken(repo.rows, email)
      ensures r.Some? ==> r.value.id in repo.rows && repo.rows[r.value.id] == r.value && r.value.email == email
      ensures UserEmailsUnique(repo.rows) ==>
                forall id :: id in repo.rows && repo.rows[id].email == email ==> r == Some(repo.rows[id])
    {
      repo.FindByEmail(email)
    }

    /** findAll: the repository's listing, passed through. */
    function FindAll(filters: UserFilters): (r: Listing<User>)
      reads repo
      requires repo.Valid()
      ensures |r.items| <= EffectiveLimit(filters.limit)
      ensures forall k :: 0 <= k < |r.items| ==> r.items[k] in repo.Matching(filters)
      ensures r.total == |repo.MatchingIds(filters)|
      ensures NewestCreatedFirst(r.items) && NoDuplicates(r.items)
    {
      WindowWithin(repo.Matching(filters), SkipOf(filters.page, filters.limit), EffectiveLimit(filters.limit));
      repo.ListingIsNewestFirst(filters);
      repo.FindAll(filters)
    }

    /**
     * update: the user must exist and a truthy email other than its own be
     * unused; a truthy password is hashed before the repository applies
     * the update.
     */
    method Update(id: Id, data: UpdateUserData, salt: Salt, now: Timestamp) returns (r: Result<User, Error>)
      requires repo.Valid()
      modifies repo
      ensures repo.Valid() && repo.order == old(repo.order)
      ensures id !in old(repo.rows) ==> r == Failure(UserNotFound)
      ensures r == Failure(EmailInUse) <==> id in old(repo.rows) && EmailConflict(old(repo.rows), id, data)
      ensures r.Failure? ==> repo.rows == old(repo.rows)
      ensures r.Success? <==> id in old(repo.rows) && !EmailConflict(old(repo.rows), id, data)
      ensures r.Success? ==>
                && r.value == Applied(old(repo.rows)[id], WithHashedPassword(data, salt), now)
                && repo.rows == old(repo.rows)[id := r.value]
      ensures r.Success? && Present(data.password) ==> Compare(data.password.value, r.value.passwordHash)
      ensures r.Success? && !Present(data.password) ==> r.value.passwordHash == old(repo.rows)[id].passwordHash
      ensures UserEmailsUnique(old(repo.rows)) ==> UserEmailsUnique(repo.rows)
    {
      var existing := repo.FindById(id);
      if existing.None? {
        return Failure(UserNotFound);
      }
      if Present(data.email) && data.email.value != existing.value.email {
        var taken := repo.ExistsByEmail(data.email.value);
        if taken {
          return Failure(EmailInUse);
        }
      }
      var update := WithHashedPassword(data, salt);
      ghost var before := repo.rows;
      if UserEmailsUnique(before) {
        UpdateKeepsUserEmailsUnique(before, id, update, now);
      }
      UpdateStoresHashOfNewPassword(before[id], data, salt, now);
      r := repo.Update(id, update, now);
    }

    /** delete: an existing user is removed; any other id is "not found". */
    method Delete(id: Id) returns (r: Outcome<Error>)
      requires repo.Valid()
      modifies repo
      ensures repo.Valid()
      ensures id !in old(repo.rows) ==> r == Fail(UserNotFound) && repo.rows == old(repo.rows) &&
                                        repo.order == old(repo.order)
      ensures id in old(repo.rows) ==>
                r == Pass && repo.rows == old(repo.rows) - {id} && repo.order == Without(old(repo.order), id)
      ensures UserEmailsUnique(old(repo.rows)) ==> UserEmailsUnique(repo.rows)
    {
      var found := repo.ExistsById(id);
      if !found {
        return Fail(UserNotFound);
      }
      r := repo.Delete(id);
    }
  }
}
