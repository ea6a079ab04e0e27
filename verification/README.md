# User registry: service rules and HTTP status mapping

A Dafny model of the core of a small Spring CRUD service that manages one
resource, `User` (id, name, nickname), under `/api/users`.

- The **service layer** (`UserService`) validates a candidate name with Java's
  `trim()` semantics. It rejects a taken name or a taken non-null nickname on
  create. On update it overwrites a row in place without a uniqueness check. On
  delete it removes an existing row.
- The **controller** (`UserController`) maps service outcomes to HTTP status
  codes. Every create failure becomes 400. Every update failure becomes 404,
  including a blank-name rejection.

The `users` table is an immutable `map<Id, User>`. Every operation is a pure
function of the table and its arguments. Each write operation (create, update,
delete) returns a result (`Result` with the errors `Validation`,
`Conflict(Name | Nickname)` and `NotFound`) together with the table the call
leaves behind. The reads (list, lookup) return only their value. The repository's generated queries are given
map meanings in `UserRepository`:

- `existsByName` / `existsByNickname`: some row holds an equal value.
- `findById` / `existsById`: key lookup.
- `save` of a new user: insert under a fresh id.
- `save` of a loaded user: overwrite that key.
- `deleteById`: remove the key.

Files:

- `wrappers.dfy`: `Option`, `Result`, `Outcome`.
- `java_string.dfy`: `String.trim()` as its two scanning loops, and the blank test.
- `user_entity.dfy`: `User`, `Record`, `Store`, and the store invariant. The invariant is: every name is non-null and non-blank, names are unique, and non-null nicknames are unique.
- `user_repository.dfy`: the query meanings above, id assignment, and `findAll` ordering.
- `user_service.dfy`: the service operations and the lemmas about them.
- `user_controller.dfy`: the endpoints and their status codes.
- `walkthrough.dfy`: one request sequence followed end to end.

## Model

| member | source | states |
|---|---|---|
| JavaString.TrimBounds | src/main/java/com/example/springtest/service/UserService.java:93 | The range `trim()` keeps is bounded by kept characters at both ends. Everything before and after it is at or below U+0020. |
| JavaString.Trim | src/main/java/com/example/springtest/service/UserService.java:93 | The trimmed name is empty exactly when every character of the name is at or below U+0020. A non-empty result starts and ends with a kept character. |
| JavaString.TrimRemovesPadding | src/main/java/com/example/springtest/service/UserService.java:93 | Trim returns exactly the core of any string made of padding, a core with kept characters at both ends, and padding. |
| JavaString.TrimIdempotent | src/main/java/com/example/springtest/service/UserService.java:93 | Trimming an already trimmed name changes nothing. |
| UserRepository.ExistsByName | src/main/java/com/example/springtest/repository/UserRepository.java:16 | `existsByName` is true exactly when some stored row holds exactly this name. |
| UserRepository.ExistsByNickname | src/main/java/com/example/springtest/repository/UserRepository.java:18 | `existsByNickname` is true exactly when some stored row holds exactly this nickname. |
| UserRepository.FindById | src/main/java/com/example/springtest/repository/UserRepository.java:10 | `findById` finds a row exactly when the id is a key, and returns that row under that id. |
| UserRepository.NextId | src/main/java/com/example/springtest/service/UserService.java:53 | Saving a new user assigns an id that no stored row has. The id is at least 1 and above every id in use. |
| UserRepository.FindAll | src/main/java/com/example/springtest/repository/UserRepository.java:10 | `findAll` returns every stored row exactly once and nothing else. |
| UserService.ValidateUser | src/main/java/com/example/springtest/service/UserService.java:91-98 | Validation fails, with the validation error, exactly when the name is null or has no character above U+0020. |
| UserService.GetAllUsers | src/main/java/com/example/springtest/service/UserService.java:21-26 | The list holds every stored row once, with distinct ids, and no row that is not stored. |
| UserService.GetUserById | src/main/java/com/example/springtest/service/UserService.java:28-37 | A lookup returns the row when the id is stored and nothing otherwise. |
| UserService.CreateUser | src/main/java/com/example/springtest/service/UserService.java:39-56 | Check order and error per failure: validation first, then a taken name, then a taken non-null nickname. Any failure leaves the table unchanged. Success inserts exactly one row, under a fresh id, holding the given name and nickname, and leaves every other row as it was. |
| UserService.UpdateUser | src/main/java/com/example/springtest/service/UserService.java:58-79 | Validation runs before the existence check, so a blank name fails even for a missing id. A valid name with a missing id fails as not found. Success overwrites only that id's row with the new name and nickname. No uniqueness condition appears among the failures. |
| UserService.DeleteUser | src/main/java/com/example/springtest/service/UserService.java:81-89 | Delete succeeds exactly when the id is stored. It then removes only that key. A missing id fails as not found with the table unchanged. |
| UserService.CreatePreservesInvariant | src/main/java/com/example/springtest/service/UserService.java:43-55 | If the table satisfied the invariant before a create, it still does afterwards. |
| UserService.CreateThenGet | src/main/java/com/example/springtest/service/UserService.java:53-55 | After a successful create, a lookup of the returned id yields the user that was sent. |
| UserService.CreateSameNameTwice | src/main/java/com/example/springtest/service/UserService.java:43-46 | A second create with a name already stored fails with a name conflict and changes nothing, whatever its nickname. |
| UserService.CreateSameNicknameTwice | src/main/java/com/example/springtest/service/UserService.java:48-51 | A second create with a valid name and a non-null nickname already stored fails with a conflict and changes nothing. |
| UserService.NullNicknameNeverConflicts | src/main/java/com/example/springtest/service/UserService.java:48 | A user without a nickname is never rejected for its nickname. |
| UserService.UpdatePreservesValidNames | src/main/java/com/example/springtest/service/UserService.java:60-75 | Update keeps every stored name non-null and non-blank. |
| UserService.UpdateCanBreakUniqueness | src/main/java/com/example/springtest/service/UserService.java:58-79 | Renaming one of two users to the other's name succeeds. It leaves a table that violates name uniqueness although the table satisfied the invariant before. |
| UserService.UpdateThenGet | src/main/java/com/example/springtest/service/UserService.java:72-78 | After a successful update, a lookup of the id yields the new name and nickname. |
| UserService.DeleteThenGet | src/main/java/com/example/springtest/service/UserService.java:83-87 | After a successful delete, a lookup of the id yields nothing. |
| UserService.DeletePreservesInvariant | src/main/java/com/example/springtest/service/UserService.java:81-89 | Delete keeps the store invariant. |
| UserController.GetAllUsers | src/main/java/com/example/springtest/controller/UserController.java:23-29 | Listing always answers 200, with every stored row and only stored rows. |
| UserController.GetUserById | src/main/java/com/example/springtest/controller/UserController.java:31-42 | A lookup answers 200 with the row when the id is stored, else 404 with no body. |
| UserController.CreateUser | src/main/java/com/example/springtest/controller/UserController.java:44-55 | Create answers 200 or 400. It answers 400, with no body and no change, exactly when the name is blank or taken, or the non-null nickname is taken. It answers 200 with the new row under a fresh id otherwise. |
| UserController.UpdateUser | src/main/java/com/example/springtest/controller/UserController.java:57-68 | Update answers only 200 or 404, never 400. It answers 404, with no body and no change, exactly when the name is blank or the id is missing. |
| UserController.DeleteUser | src/main/java/com/example/springtest/controller/UserController.java:70-81 | Delete answers 200 exactly when the id was stored and 404 otherwise. The body is always empty and the id is absent afterwards. |
| UserController.UpdateBlankNameIsNotFound | src/main/java/com/example/springtest/controller/UserController.java:64-66 | An update whose name fails the trim test answers 404 with no body and no change, whether or not the id exists. |
| Walkthrough.CreateUpdateDeleteSequence | src/main/java/com/example/springtest/controller/UserController.java:44-81 | On an empty table: creating alice/al answers 200 with id 1, and creating alice/bob then answers 400. Updating id 1 to alice2/al answers 200. Deleting id 1 answers 200, and deleting it again answers 404. |

## Left out

- Logging (SLF4J calls in both classes). It has no effect on results.
- Spring wiring, request routing annotations, and JSON (de)serialisation of request bodies. The model starts from the decoded `User`.
- An `id` supplied in a POST body. JPA's merge semantics for it live in the framework. The model always inserts under a fresh id.
- The race between the existence checks and `save`. No transaction spans them. It has no sequential meaning; each operation is atomic in the model.
- Database collation. Names and nicknames are compared with plain string equality.
- Exception message texts. Errors are datatype constructors.
- `findByName` and `findByNickname` (src/main/java/com/example/springtest/repository/UserRepository.java:12-14). The service never calls them.
- UserRepository.NextId: it promises only a fresh id above every id in use. It picks one past the largest id. A database identity column never reuses ids, while this choice can reuse the largest id after it is deleted.
- UserRepository.FindAll: the table promises no order. As a model choice, its contract fixes ascending id order. UserService.GetAllUsers and the controller's list drop that order and promise only membership and no duplicate ids.
- The 64-bit width of the `Long` id. Ids are unbounded integers.
- UTF-16: Java's `char` is a UTF-16 code unit and Dafny's is a Unicode scalar value. `trim()` only removes code points at or below U+0020, and every surrogate unit is above that. So blankness is the same under both views.
