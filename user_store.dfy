/** The user store the service works against: a sequence of persisted user
    records, looked up by username and appended to by save. */
module UserStore {

  /** The result of a lookup that may find nothing. */
  datatype Option<+T> = None | Some(value: T)

  /** A persisted user record, built by UserEntity.of(userName, password):
      the name it is looked up by and the password exactly as given. */
  datatype UserEntity = UserEntity(userName: string, password: string)

  /** The user returned by a successful join. */
  datatype User = User(userName: string, password: string)

  /** User.fromEntity: the returned user carries the saved record's fields. */
  function FromEntity(entity: UserEntity): User
  {
    User(entity.userName, entity.password)
  }

  /** At most one record exists per username. */
  predicate Distinct(records: seq<UserEntity>)
  {
    forall i, j :: 0 <= i < j < |records| ==> records[i].userName != records[j].userName
  }

  /** findByUserName: the record stored under the given username, if any. */
  function Lookup(records: seq<UserEntity>, userName: string): (r: Option<UserEntity>)
    ensures r.Some? ==> r.value in records && r.value.userName == userName
    ensures r.None? <==> forall e :: e in records ==> e.userName != userName
  {
    if records == [] then None
    else if records[0].userName == userName then Some(records[0])
    else Lookup(records[1..], userName)
  }

  /** With distinct usernames, two stored records with the same name are the same record. */
  lemma DistinctSameName(records: seq<UserEntity>, a: UserEntity, b: UserEntity)
    requires Distinct(records)
    requires a in records && b in records && a.userName == b.userName
    ensures a == b
  {
    var i :| 0 <= i < |records| && records[i] == a;
    var j :| 0 <= j < |records| && records[j] == b;
    assert !(i < j) && !(j < i);
  }

  /** With distinct usernames, the lookup finds exactly the record stored under that name. */
  lemma LookupFindsStored(records: seq<UserEntity>, entity: UserEntity)
    requires Distinct(records)
    ensures Lookup(records, entity.userName) == Some(entity) <==> entity in records
  {
    if entity in records {
      var found := Lookup(records, entity.userName);
      DistinctSameName(records, found.value, entity);
    }
  }

  /** Appending a record changes the lookup only for its own username, and only
      when that username was absent. */
  lemma {:induction false} LookupAppend(records: seq<UserEntity>, entity: UserEntity, userName: string)
    ensures Lookup(records + [entity], userName) ==
            if Lookup(records, userName).Some? then Lookup(records, userName)
            else if entity.userName == userName then Some(entity)
            else None
  {
    if records == [] {
      assert records + [entity] == [entity];
    } else {
      assert (records + [entity])[0] == records[0];
      assert (records + [entity])[1..] == records[1..] + [entity];
      if records[0].userName != userName {
        LookupAppend(records[1..], entity, userName);
      }
    }
  }

  /** Appending a record whose username is absent keeps usernames distinct. */
  lemma AppendFreshKeepsDistinct(records: seq<UserEntity>, entity: UserEntity)
    requires Distinct(records)
    requires Lookup(records, entity.userName).None?
    ensures Distinct(records + [entity])
  {
    var after := records + [entity];
    forall i, j | 0 <= i < j < |after|
      ensures after[i].userName != after[j].userName
    {
      if j == |records| {
        assert after[i] == records[i] && records[i] in records;
      }
    }
  }

  /** UserEntityRepository: the store behind findByUserName and save. Saving
      appends the record; the store itself does not enforce unique names. */
  class UserEntityRepository {
    var records: seq<UserEntity>

    constructor (records: seq<UserEntity>)
      ensures this.records == records
    {
      this.records := records;
    }

    /** findByUserName */
    function FindByUserName(userName: string): Option<UserEntity>
      reads this
    {
      Lookup(records, userName)
    }

    /** save: persists the record and returns it. */
    method Save(entity: UserEntity) returns (saved: UserEntity)
      modifies this
      ensures records == old(records) + [entity]
      ensures saved == entity
    {
      records := records + [entity];
      saved := entity;
    }
  }
}
