# Member directory — a Dafny model

This project models the member subsystem of a small Spring application: a
member is registered, logs in with email and password, is listed, looked up
by id or by email, updated and deleted. Three Java classes hold the logic:

- `MemberEntity`, a row of `member_table` (identity-column id, unique email,
  password, name), with `toMemberEntity`, which builds a row from a DTO;
- `MemberDTO`, the transfer object callers see, with `toMemberDTO`, which
  builds a DTO from a row;
- `MemberService`, which converts between the two and makes one repository
  call per operation.

The repository behind the service is Spring Data's `JpaRepository`, a
library whose code is not part of this model. Its behaviour is stated as
assumptions, in module `MemberTable`:

- a new row takes the identity counter's value as its id, and the counter
  only grows;
- no two rows share a non-null email, and a write that would break this
  fails and changes nothing;
- `save` is an upsert: an entity carrying a stored id overwrites that row,
  and any other entity is inserted under a fresh id;
- `findAll` lists the rows in insertion order, which is ascending id order;
- `deleteById` of an absent id is a no-op;
- `findByMemberEmail(null)` finds nothing;
- emails are compared exactly, character by character, both by the unique
  constraint and by the lookup (a binary collation).

Java `null` is `Option.None` throughout. A `Long` id is an `Option<nat>`.
An exception is a `Result.Failure` or an `Outcome.Fail`.

Files and modules:

- `wrappers.dfy` (`Wrappers`): `Option`, `Result`, `Outcome`.
- `records.dfy` (`Records`): the `MemberDTO` and `MemberEntity` datatypes.
  They share a module because each Java class refers to the other.
- `entity.dfy` (`Entity`): `ToMemberEntity` and `ToUpdateMemberEntity`.
- `dto.dfy` (`Dto`): `ToMemberDTO` and the round trips.
- `table.dfy` (`MemberTable`): the table as a value, its invariant, and the
  repository operations as functions.
- `repository.dfy` (`Repository`): class `MemberRepository`, whose fields hold
  the table and whose methods are proved against `MemberTable`.
- `directory.dfy` (`Directory`): what the service's lookups return for a
  given table, and lemmas about chains of service operations.
- `service.dfy` (`Service`): class `MemberService`, one method per service
  operation, over a `MemberRepository`.

Where the code and the intended behaviour differ, the model follows the code:

- `toMemberDTO` never copies `memberName`. So `login`, `findAll`, `findById`
  and `updateForm` always return a null name, although a successful login
  is meant to return the stored name. `Dto.NameIsLost` and
  `Directory.RegisterAnnThenLogin` prove the name is lost.
- `login` calls `getMemberPassword().equals(...)` on the stored row. For a
  row stored with a null password this throws a NullPointerException.
  It is modelled as `Failure(NullStoredPassword)`.
- `toUpdateMemberEntity` is called by `MemberService.update` but is not
  defined in `MemberEntity`. It is modelled as `toMemberEntity` that also
  copies the DTO's id, which is what the comment on `update` describes.
  This is an assumption.

## Model

| member | source | states |
|---|---|---|
| `Entity.ToMemberEntity` | src/main/java/com/example/member/entity/MemberEntity.java:46-52 | the new entity has the DTO's email, password and name, and no id whatever id the DTO carries |
| `Entity.ToUpdateMemberEntity` | src/main/java/com/example/member/service/MemberService.java:101-107 | (assumed definition) the entity has the DTO's id, email, password and name |
| `Entity.UpdateEntityDiffersOnlyInId` | src/main/java/com/example/member/service/MemberService.java:107 | for a DTO without id, the update conversion builds the same entity as `toMemberEntity` |
| `Entity.ToMemberEntityIgnoresId` | src/main/java/com/example/member/entity/MemberEntity.java:46-52 | the registration entity does not depend on the DTO's id |
| `Dto.ToMemberDTO` | src/main/java/com/example/member/dto/MemberDTO.java:19-25 | the DTO has the entity's id, email and password, and a null name |
| `Dto.NameIsLost` | src/main/java/com/example/member/dto/MemberDTO.java:19-25 | a stored non-null name is never the name of the converted DTO |
| `Dto.ToMemberDTOSameIff` | src/main/java/com/example/member/dto/MemberDTO.java:19-25 | two rows convert to the same DTO exactly when they agree on id, email and password |
| `Dto.RoundTrip` | src/main/java/com/example/member/dto/MemberDTO.java:19-25 | DTO to entity to DTO keeps email and password and yields no id and no name |
| `Dto.EntityRoundTrip` | src/main/java/com/example/member/entity/MemberEntity.java:46-52 | entity to DTO to entity keeps email and password and loses id and name |
| `MemberTable.KeysAreIds` | src/main/java/com/example/member/entity/MemberEntity.java:18-20 | (identity column) every row is stored under its own id, and every id is below the counter |
| `MemberTable.UniqueEmails` | src/main/java/com/example/member/entity/MemberEntity.java:26-27 | (unique constraint) no two rows share a non-null email |
| `MemberTable.OrderListsRows` | src/main/java/com/example/member/repository/MemberRepository.java:9 | the listing order holds every stored id exactly once, ascending |
| `MemberTable.Valid` | src/main/java/com/example/member/entity/MemberEntity.java:18-27 | the table invariant: identity column, listing order and unique email together |
| `MemberTable.EmailTaken` | src/main/java/com/example/member/entity/MemberEntity.java:26-27 | a write of this email would break the unique constraint: another row already holds it, compared exactly |
| `MemberTable.FindById` | src/main/java/com/example/member/repository/MemberRepository.java:9 | absent exactly when the id is not stored; otherwise the row, whose id is that id |
| `MemberTable.FindIn` | src/main/java/com/example/member/repository/MemberRepository.java:12 | a found id's row holds the email; none found means no listed row holds it |
| `MemberTable.FindByMemberEmail` | src/main/java/com/example/member/repository/MemberRepository.java:12 | absent exactly when no row holds the non-null email; otherwise the one row that holds it |
| `MemberTable.FindAll` | src/main/java/com/example/member/repository/MemberRepository.java:9 | one entry per stored row, each a stored row under its own id, ids ascending, every row present |
| `MemberTable.Save` | src/main/java/com/example/member/entity/MemberEntity.java:18-27 | keeps the invariant; the counter never goes back; fails exactly on an email held by another row, then changes nothing; an update keeps id, order and counter; an insert takes the counter's value as id (above every stored one), goes last and advances the counter by one; other rows unchanged |
| `MemberTable.OverwriteKeepsValid` | src/main/java/com/example/member/entity/MemberEntity.java:26-27 | overwriting a row with a free email keeps ids, order and email uniqueness |
| `MemberTable.InsertKeepsValid` | src/main/java/com/example/member/entity/MemberEntity.java:18-27 | inserting under the counter's value with a free email keeps ids, order and email uniqueness |
| `MemberTable.DeleteById` | src/main/java/com/example/member/repository/MemberRepository.java:9 | keeps the invariant; removes only that id, leaves other rows and the counter, no-op for an absent id |
| `MemberTable.DeleteKeepsValid` | src/main/java/com/example/member/repository/MemberRepository.java:9 | removing a row from the map and the order keeps the invariant |
| `Repository.MemberRepository.constructor` | src/main/java/com/example/member/repository/MemberRepository.java:9 | a new repository holds the empty table, counter at 1 |
| `Repository.MemberRepository.Save` | src/main/java/com/example/member/repository/MemberRepository.java:9 | result and new table are those of `MemberTable.Save` on the old table |
| `Repository.MemberRepository.FindById` | src/main/java/com/example/member/repository/MemberRepository.java:9 | returns `MemberTable.FindById` of the table, changing nothing |
| `Repository.MemberRepository.FindByMemberEmail` | src/main/java/com/example/member/repository/MemberRepository.java:12 | returns `MemberTable.FindByMemberEmail` of the table, changing nothing |
| `Repository.MemberRepository.FindAll` | src/main/java/com/example/member/repository/MemberRepository.java:9 | returns `MemberTable.FindAll` of the table, changing nothing |
| `Repository.MemberRepository.DeleteById` | src/main/java/com/example/member/repository/MemberRepository.java:9 | the new table is `MemberTable.DeleteById` of the old one |
| `Directory.Login` | src/main/java/com/example/member/service/MemberService.java:28-57 | empty for an unknown email; empty for a wrong password; fails only on a stored null password; on a match, the stored id and email, the supplied password, and a null name |
| `Directory.FindById` | src/main/java/com/example/member/service/MemberService.java:74-89 | empty exactly when the id is not stored; otherwise the row's id, email and password with a null name |
| `Directory.UpdateForm` | src/main/java/com/example/member/service/MemberService.java:91-99 | empty exactly when no row holds the email; otherwise that row's id, email and password with a null name |
| `Directory.RegisterTakesFreshId` | src/main/java/com/example/member/service/MemberService.java:19-26 | registration stores under the counter's value, which no row had, and leaves the row with the caller's id untouched |
| `Directory.RegisterThenUpdateForm` | src/main/java/com/example/member/service/MemberService.java:19-26 | after registering an unused email, looking it up gives the fresh id, the supplied email and password, and a null name |
| `Directory.RegisterThenLogin` | src/main/java/com/example/member/service/MemberService.java:28-57 | after registering, login with the same password returns the fresh id and a null name; any other password returns empty |
| `Directory.RegisterDuplicateFails` | src/main/java/com/example/member/entity/MemberEntity.java:26-27 | registering a stored email fails, changes nothing, and exactly one row holds the email |
| `Directory.UpdateThenFindById` | src/main/java/com/example/member/service/MemberService.java:101-108 | updating a stored id overwrites email, password and name, keeps the id, the order and all other rows; `findById` shows the new values |
| `Directory.DeleteThenFindById` | src/main/java/com/example/member/service/MemberService.java:110-112 | after deleting, the id is not found and every other id is found as before |
| `Directory.ListAllShowsEveryMember` | src/main/java/com/example/member/service/MemberService.java:59-72 | every stored member's id, email and password appear, with a null name, in the listing `findAll` converts |
| `Directory.RegisterAnnThenLogin` | src/main/java/com/example/member/service/MemberService.java:39-48 | registering Ann then logging in with her password returns id 1 and no name; a wrong password returns empty |
| `Service.MemberService.constructor` | src/main/java/com/example/member/service/MemberService.java:14-17 | the service uses the repository it is given |
| `Service.MemberService.Save` | src/main/java/com/example/member/service/MemberService.java:19-26 | fails, changing nothing, exactly when the email is stored; otherwise adds the DTO's data as one row under the counter's value, last in order, and advances the counter by one |
| `Service.MemberService.Login` | src/main/java/com/example/member/service/MemberService.java:28-57 | returns `Directory.Login` of the table and changes nothing |
| `Service.MemberService.FindAll` | src/main/java/com/example/member/service/MemberService.java:59-72 | one DTO per stored row, the i-th the converted i-th row of the repository's `findAll`, in that order |
| `Service.MemberService.FindById` | src/main/java/com/example/member/service/MemberService.java:74-89 | returns `Directory.FindById` of the table and changes nothing |
| `Service.MemberService.UpdateForm` | src/main/java/com/example/member/service/MemberService.java:91-99 | returns `Directory.UpdateForm` of the table and changes nothing |
| `Service.MemberService.Update` | src/main/java/com/example/member/service/MemberService.java:101-108 | for a stored id: fails unchanged when another row holds the email, else overwrites that row keeping id, order and counter; otherwise inserts as `save` does |
| `Service.MemberService.DeleteById` | src/main/java/com/example/member/service/MemberService.java:110-112 | removes only that id, keeps the counter; an absent id changes nothing |

## Left out

- `MemberController` and `HomeController`: HTTP routes, view names, redirects, session attributes and console logging are transport glue. The session email is the `myEmail` parameter of `UpdateForm`.
- The JPA and Hibernate machinery behind `JpaRepository`: SQL, persist versus merge, transactions. It is replaced by the in-memory table and the assumptions listed above.
- A backing store that cannot be reached, and any other storage failure: the only store error modelled is the duplicate email.
- Concurrent registrations and the moment the database checks the unique email: writes are sequential and the uniqueness check is part of `save`.
- Null ids for `findById` and `deleteById`: Spring Data rejects them with an IllegalArgumentException. The model's id parameters are `nat`.
- Negative ids for `findById` and `deleteById`: a `Long` path variable can be negative; no row has such an id, so the lookup finds nothing and the delete is a no-op. The model's `nat` ids cannot express the call.
- `MemberTable.FindByMemberEmail`: a null email is assumed to find nothing. Spring Data would query `IS NULL`, which could find a row or fail on several.
- `MemberTable.Save`: an entity with an id that is not stored is assumed to be inserted under a fresh id. Hibernate before 6.6 does this when it merges such an entity; Hibernate 6.6 and later instead fail with an optimistic-locking error. This affects `update` of a DTO whose id is not stored. A rejected insert is assumed not to consume an identity value.
- `MemberTable.EmailTaken`: emails are compared exactly (a binary collation). Under a case-insensitive collation, such as MySQL's default, `A@x.com` and `a@x.com` would collide on the unique constraint and `findByMemberEmail` would match either; the model does not capture this.
- The 64-bit range of `Long` ids: the identity counter is unbounded.
- Lombok getters, setters and `toString`: the records are plain datatypes.
- Password hashing: the code compares plaintext passwords, and so does the model.
