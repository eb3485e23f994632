# UserService: join and login over a user store

This project models the user service of a small registration and login
backend. The service has two operations over a store of user records keyed by
username:

- **join(userName, password)** looks the username up. If a record exists it
  throws `SnsApplicationException(DUPLICATED_USER_NAME, "<userName> is duplicated")`
  and saves nothing. Otherwise it saves a new record holding the username and
  the password as given, and returns the saved record as a `User`.
- **login(userName, password)** looks the username up. A missing record and a
  stored password that is not exactly the supplied one both throw
  `SnsApplicationException(DUPLICATED_USER_NAME, "")`. Otherwise it returns the
  placeholder token `""`.

The store (`UserEntityRepository`) is a class whose `records` field is a
sequence of `UserEntity` values. `FindByUserName` is a lookup over it and `Save`
appends one record. The store does not enforce unique names itself. The
service keeps that invariant: `UserService.Valid()` says usernames in the store
are distinct, and `Join` preserves it. `Join` is a method that modifies the
store. `Login` only reads, so it is a function of the store's records.

The thrown exception is modelled as `Result<T>`: `Success(value)` or
`Failure(SnsApplicationException(code, message))`. The source raises one error
code, `DUPLICATED_USER_NAME`, for all three failures, and so does the model
(`DuplicatedUserName`). A design description of the system calls for distinct
"user not found" and "invalid password" kinds. The code does not have them, and
the model follows the code.

Files: `exception.dfy` (module `SnsException`), `user_store.dfy` (module
`UserStore`), `user_service.dfy` (module `Service`).

## Model

| member | source | states |
|---|---|---|
| `UserStore.Lookup` | src/main/java/com/fastcampus/sns/service/UserService.java:22 | the lookup by username returns only a stored record with that name, and returns nothing exactly when no stored record has that name |
| `UserStore.DistinctSameName` | src/main/java/com/fastcampus/sns/service/UserService.java:22-27 | while usernames are unique, two stored records with the same username are the same record |
| `UserStore.LookupFindsStored` | src/main/java/com/fastcampus/sns/service/UserService.java:34 | while usernames are unique, the lookup yields a given record exactly when that record is stored |
| `UserStore.LookupAppend` | src/main/java/com/fastcampus/sns/service/UserService.java:27 | saving a record changes the lookup only for that record's own username, and only when that name was absent before |
| `UserStore.AppendFreshKeepsDistinct` | src/main/java/com/fastcampus/sns/service/UserService.java:22-27 | saving a record whose username the lookup did not find keeps at most one record per username |
| `UserStore.UserEntityRepository.Save` | src/main/java/com/fastcampus/sns/service/UserService.java:27 | save appends exactly the given record to the store and returns it |
| `Service.UserService.constructor` | src/main/java/com/fastcampus/sns/service/UserService.java:17 | the service is built over an injected store whose usernames are unique |
| `Service.UserService.Join` | src/main/java/com/fastcampus/sns/service/UserService.java:20-29 | keeps usernames unique; a taken name fails with DuplicatedUserName and "<name> is duplicated" whatever the password, leaving the store unchanged; a free name appends exactly one record with that name and password and returns it as a User; lookups of every other name are unchanged |
| `Service.Login` | src/main/java/com/fastcampus/sns/service/UserService.java:32-44 | success returns the token ""; every failure is DuplicatedUserName with an empty message; an unknown username always fails; success implies the exact (name, password) record is stored; the store is an input only and is never changed |
| `Service.LoginSucceedsIffStored` | src/main/java/com/fastcampus/sns/service/UserService.java:34-43 | while usernames are unique, login succeeds if and only if the store holds a record with that username and exactly that password |
| `Service.LoginWrongPasswordFails` | src/main/java/com/fastcampus/sns/service/UserService.java:37-39 | a present username whose stored password differs from the supplied one fails with DuplicatedUserName and an empty message |
| `Service.LoginAfterJoin` | src/main/java/com/fastcampus/sns/service/UserService.java:27-43 | after a successful join of (name, password), login with that name succeeds with the same password and fails with any other |
| `Service.LoginUnaffectedByOtherJoin` | src/main/java/com/fastcampus/sns/service/UserService.java:27-43 | joining one username leaves the outcome of login for every other username as it was |

## Left out

- The HTTP controller (`UserController`) and the mapping of error codes to HTTP statuses: this is framework plumbing. The controller also has no login endpoint.
- Record ids and the persistence layer: `UserEntity.of`, `User.fromEntity` and the JPA repository are not part of this model. A record is its username and password; the id the store assigns is omitted, and a `User` carries the saved record's username and password.
- `ErrorCode` is not part of this model beyond the one code the service raises.
- Token generation: the source returns the placeholder `""`, and so does the model.
- Concurrency: calls are sequential. The check-then-save race between two concurrent joins of the same username is not modelled.
- Java `null` strings: usernames and passwords are always present strings here, so the `NullPointerException` a `null` stored password would raise in `equals` is not modelled.
