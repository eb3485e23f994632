/** UserService: registration (join) against the user store, and login, a
    read-only check of a username and password against the store's records. */
module Service {
  import opened SnsException
  import opened UserStore

  class UserService {
    const repository: UserEntityRepository

    /** The invariant join keeps: at most one record per username. */
    ghost predicate Valid()
      reads repository
    {
      Distinct(repository.records)
    }

    constructor (repository: UserEntityRepository)
      requires Distinct(repository.records)
      ensures this.repository == repository && Valid()
    {
      this.repository := repository;
    }

    /** join: fails with DuplicatedUserName and "<userName> is duplicated" when
        the username is taken, whatever the password, leaving the store as it
        was; otherwise saves exactly one new record and returns it as a User. */
    method Join(userName: string, password: string) returns (r: Result<User>)
      requires Valid()
      modifies repository
      ensures Valid()
      ensures old(repository.FindByUserName(userName)).Some? ==>
                r == Failure(SnsApplicationException(DuplicatedUserName, userName + " is duplicated")) &&
                repository.records == old(repository.records)
      ensures old(repository.FindByUserName(userName)).None? ==>
                r == Success(User(userName, password)) &&
                repository.records == old(repository.records) + [UserEntity(userName, password)] &&
                repository.FindByUserName(userName) == Some(UserEntity(userName, password))
      ensures forall n :: n != userName ==> Lookup(repository.records, n) == Lookup(old(repository.records), n)
    {
      var existing := repository.FindByUserName(userName);
      if existing.Some? {
        r := Failure(SnsApplicationException(DuplicatedUserName, userName + " is duplicated"));
        return;
      }
      ghost var before := repository.records;
      var entity := UserEntity(userName, password);
      AppendFreshKeepsDistinct(before, entity);
      var saved := repository.Save(entity);
      r := Success(FromEntity(saved));
      LookupAppend(before, entity, userName);
      forall n | n != userName
        ensures Lookup(repository.records, n) == Lookup(before, n)
      {
        LookupAppend(before, entity, n);
      }
    }
  }

  /** login, as a function of the records in the store: an unknown username and
      a wrong password both fail with DuplicatedUserName and an empty message;
      otherwise the placeholder token "" is returned. The store is only read. */
  function Login(records: seq<UserEntity>, userName: string, password: string): (r: Result<string>)
    ensures r.Success? ==> r.value == ""
    ensures r.Failure? ==> r.error == SnsApplicationException(DuplicatedUserName, "")
    ensures (forall e :: e in records ==> e.userName != userName) ==> r.Failure?
    ensures r.Success? ==> UserEntity(userName, password) in records
  {
    match Lookup(records, userName)
    case None => Failure(SnsApplicationException(DuplicatedUserName, ""))
    case Some(entity) =>
      if entity.password != password then Failure(SnsApplicationException(DuplicatedUserName, ""))
      else Success("")
  }

  /** With distinct usernames, login succeeds exactly when the store holds a
      record with that username and exactly that password. */
  lemma LoginSucceedsIffStored(records: seq<UserEntity>, userName: string, password: string)
    requires Distinct(records)
    ensures Login(records, userName, password).Success? <==> UserEntity(userName, password) in records
  {
    LookupFindsStored(records, UserEntity(userName, password));
  }

  /** A present username with a stored password different from the supplied one fails. */
  lemma LoginWrongPasswordFails(records: seq<UserEntity>, userName: string, stored: string, supplied: string)
    requires Distinct(records)
    requires UserEntity(userName, stored) in records
    requires stored != supplied
    ensures Login(records, userName, supplied) == Failure(SnsApplicationException(DuplicatedUserName, ""))
  {
    LookupFindsStored(records, UserEntity(userName, stored));
  }

  /** After a successful join of (userName, password), login with that username
      succeeds with the same password and fails with any other. */
  lemma LoginAfterJoin(records: seq<UserEntity>, userName: string, password: string, supplied: string)
    requires Lookup(records, userName).None?
    ensures Login(records + [UserEntity(userName, password)], userName, supplied) ==
            if supplied == password then Success("")
            else Failure(SnsApplicationException(DuplicatedUserName, ""))
  {
    LookupAppend(records, UserEntity(userName, password), userName);
  }

  /** Joining one username does not change the outcome of login for any other. */
  lemma LoginUnaffectedByOtherJoin(records: seq<UserEntity>, entity: UserEntity, userName: string, password: string)
    requires userName != entity.userName
    ensures Login(records + [entity], userName, password) == Login(records, userName, password)
  {
    LookupAppend(records, entity, userName);
  }
}
