# Employee-record service: a Dafny model

This project models the core of a Spring Boot service that keeps employee
records (first name, last name, email) in one relational table. The model has
three layers, one per source file:

- **EmployeeRepository** is the data-access layer. It holds the table as a map from
  primary key to row, plus the auto-increment counter that hands out keys.
  `employee_table.dfy` (module `EmployeeTable`) gives each repository
  operation as a function on a `Table` value and proves its properties.
  `repository.dfy` (class `Repository.EmployeeRepository`) holds the same
  state in mutable fields. Each method there is proved to change the fields
  exactly as the function says.
- **EmployeeServiceImpl** is the business-rule layer. Its one rule is that emails
  are unique. `saveEmployee` looks the email up and fails with the duplicate
  error when a record already holds it. Otherwise it hands the record to
  `save`. `employee_service.dfy` (module `EmployeeService`) gives the
  service's meaning over the table and proves that the guard keeps stored
  emails pairwise distinct. `service_impl.dfy` (class
  `ServiceImpl.EmployeeServiceImpl`) calls the repository object as the
  service does, and is proved against those functions.
- **EmployeeController** is the request handler with HTTP stripped away. In
  `controller.dfy`, each handler is a function from the table to a status
  (`Created` 201, `Ok` 200, `NotFound` 404) and a body. A service failure
  comes out as `Raised(error)`, because the controller does not map it to a
  status.

`employees.dfy` holds the shared values. These are the `Employee` record, `Option`,
`Lookup` (the outcome of a single-result query), `ServiceError` and `Result`.

Behaviour taken from the framework the code relies on:

- `save` decides by the record's id. If the id names a stored row, every field
  of that row is replaced (merge). Otherwise the record is inserted under the
  next key (persist). A record that has no id yet carries `Unassigned`
  (0), which is never a key.
- `findByEmail` and `findByJpql` are single-result queries. No match gives
  `NoMatch`. Exactly one match gives that row. Several matches give
  `NonUniqueResult`, which is the framework's incorrect-result-size error. The
  service lets that error escape as `IncorrectResultSize`. Under distinct emails
  this case cannot arise (`EmployeeTable.FindByEmail`).
- `deleteById` of an absent key does nothing, as in Spring Data JPA 3 (earlier releases throw). `delete(e)` removes the row
  keyed by `e.id`. `deleteAll` leaves the key counter where it was.

Two consequences of the code that are easy to miss:

- `saveEmployee` does not ignore a caller-supplied id: it passes the record to
  `save` as it is. A POSTed record whose id names a stored row, and whose
  email is free, overwrites that row
  (`EmployeeService.SaveEmployeeWithStoredIdOverwrites`).
- `updateEmployee` performs no email check, so emails can stop being distinct
  (`EmployeeService.UpdateEmployeeSkipsEmailCheck`). The lookup and service
  contracts are therefore stated for every table, including ones where some
  emails are shared.

## Model

| member | source | states |
|---|---|---|
| EmployeeTable.Save | src/test/java/net/javaguides/springboot/repository/EmployeeRepositoryIntegrationTestTestcontainers.java:99-114 | keeps the table valid; the stored record has the caller's field values and is what `findById` returns for its id; no other row changes; a stored id is overwritten in place with the id kept; otherwise a fresh positive id is assigned and the counter advances |
| EmployeeTable.SingleResult | src/main/java/net/javaguides/springboot/repository/EmployeeRepository.java:10-13 | a single-result query: no match exactly when no row satisfies the filter; a match is a stored row satisfying it and the only one; a non-unique result exactly when two distinct rows satisfy it |
| EmployeeTable.FindById | src/test/java/net/javaguides/springboot/repository/EmployeeRepositoryIntegrationTestTestcontainers.java:71-83 | present exactly when the key is stored, and then the row stored under it, which carries that id |
| EmployeeTable.FindByEmail | src/main/java/net/javaguides/springboot/repository/EmployeeRepository.java:10 | empty exactly when no row holds the email; a match is a stored row with that email and the only one; the non-unique error exactly when two distinct rows hold it, so never while emails are distinct |
| EmployeeTable.FindByJpql | src/main/java/net/javaguides/springboot/repository/EmployeeRepository.java:12-13 | no match exactly when no row has that first and last name; a match is a stored row with both names; non-unique exactly when two distinct rows share the pair |
| EmployeeTable.FindAll | src/test/java/net/javaguides/springboot/repository/EmployeeRepositoryIntegrationTestTestcontainers.java:50-69 | lists a record exactly when it is stored under its id, each once, in strictly ascending id order; as many records as rows |
| EmployeeTable.DeleteById | src/test/java/net/javaguides/springboot/repository/EmployeeRepositoryIntegrationTestTestcontainers.java:132-146 | afterwards `findById(id)` is empty, every other row is unchanged, the counter is kept |
| EmployeeTable.Delete | src/test/java/net/javaguides/springboot/repository/EmployeeRepositoryIntegrationTestTestcontainers.java:116-130 | removes the row keyed by the entity's id: `findById` is then empty for it, other rows unchanged |
| EmployeeTable.DeleteAll | src/test/java/net/javaguides/springboot/repository/EmployeeRepositoryIntegrationTestTestcontainers.java:26-28 | no id is found afterwards and `findAll` is empty; the counter is kept |
| EmployeeTable.SavedRecordFoundByEmail | src/test/java/net/javaguides/springboot/repository/EmployeeRepositoryIntegrationTestTestcontainers.java:85-97 | a record saved with an email no row held is exactly what `findByEmail` returns for that email |
| EmployeeTable.SavedRecordFoundByName | src/test/java/net/javaguides/springboot/repository/EmployeeRepositoryIntegrationTestTestcontainers.java:148-161 | a record saved with a name pair no row held is exactly what `findByJpql` returns for it |
| EmployeeTable.DeleteByIdIdempotent | src/test/java/net/javaguides/springboot/repository/EmployeeRepositoryIntegrationTestTestcontainers.java:139-145 | deleting an id twice leaves the same table as deleting it once |
| EmployeeTable.DeleteByIdKeepsEmailsDistinct | src/main/java/net/javaguides/springboot/service/impl/EmployeeServiceImpl.java:24 | removing a row keeps stored emails pairwise distinct |
| EmployeeTable.TwoSavesAfterDeleteAll | src/test/java/net/javaguides/springboot/repository/EmployeeRepositoryIntegrationTestTestcontainers.java:52-68 | after `deleteAll`, saving two records without ids gives them consecutive fresh ids and `findAll` returns exactly those two |
| EmployeeTable.SaveTwoDeleteFirst | src/test/java/net/javaguides/springboot/repository/EmployeeRepositoryIntegrationTestTestcontainers.java:116-130 | saving A and B into an emptied table and deleting A leaves `findAll` listing exactly B |
| Repository.EmployeeRepository.constructor | src/main/java/net/javaguides/springboot/repository/EmployeeRepository.java:9 | a new repository holds the empty table with the counter at 1 |
| Repository.EmployeeRepository.Save | src/test/java/net/javaguides/springboot/repository/EmployeeRepositoryTest.java:27-31 | updates the fields and returns the record exactly as `EmployeeTable.Save` does, keeping the invariant |
| Repository.EmployeeRepository.FindById | src/test/java/net/javaguides/springboot/repository/EmployeeRepositoryIntegrationTestTestcontainers.java:71-83 | returns the stored row for the id, or empty; changes nothing |
| Repository.EmployeeRepository.FindByEmail | src/main/java/net/javaguides/springboot/repository/EmployeeRepository.java:10 | returns `EmployeeTable.FindByEmail` of the current table; changes nothing |
| Repository.EmployeeRepository.FindByJpql | src/main/java/net/javaguides/springboot/repository/EmployeeRepository.java:12-13 | returns `EmployeeTable.FindByJpql` of the current table; changes nothing |
| Repository.EmployeeRepository.FindAll | src/test/java/net/javaguides/springboot/repository/EmployeeRepositoryIntegrationTestTestcontainers.java:63-68 | returns `EmployeeTable.FindAll` of the current table; changes nothing |
| Repository.EmployeeRepository.DeleteById | src/test/java/net/javaguides/springboot/repository/EmployeeRepositoryIntegrationTestTestcontainers.java:139 | updates the fields exactly as `EmployeeTable.DeleteById` |
| Repository.EmployeeRepository.Delete | src/test/java/net/javaguides/springboot/repository/EmployeeRepositoryIntegrationTestTestcontainers.java:123 | updates the fields exactly as `EmployeeTable.Delete` |
| Repository.EmployeeRepository.DeleteAll | src/test/java/net/javaguides/springboot/repository/EmployeeRepositoryIntegrationTestTestcontainers.java:28 | updates the fields exactly as `EmployeeTable.DeleteAll` |
| EmployeeService.SaveEmployee | src/main/java/net/javaguides/springboot/service/impl/EmployeeServiceImpl.java:23-30 | succeeds exactly when no stored row holds the email, and then returns what `save` returns and stores what `save` stores; on failure the table is untouched; the failure is the duplicate-email error exactly when one row holds the email, and otherwise the lookup's incorrect-result-size error |
| EmployeeService.GetAllEmployees | src/main/java/net/javaguides/springboot/service/impl/EmployeeServiceImpl.java:32-35 | lists exactly the stored records, each once, in ascending id order, as many as there are rows; nothing for an empty table |
| EmployeeService.GetEmployeeById | src/test/java/net/javaguides/springboot/service/EmployeeServiceTests.java:129-145 | present exactly when the id is stored, and then the row stored under it, carrying that id |
| EmployeeService.UpdateEmployee | src/test/java/net/javaguides/springboot/service/EmployeeServiceTests.java:147-167 | writes every field of the given record without merging; the result is stored under its id and no other row changes; a stored id is kept with the counter; an unstored id gives the next key and advances the counter |
| EmployeeService.DeleteEmployee | src/test/java/net/javaguides/springboot/service/EmployeeServiceTests.java:169-182 | afterwards the id is not found; every other row and the counter are unchanged |
| EmployeeService.SaveEmployeeKeepsEmailsDistinct | src/main/java/net/javaguides/springboot/service/impl/EmployeeServiceImpl.java:24-29 | if stored emails are pairwise distinct before `saveEmployee`, they are after it, whether it succeeds or fails |
| EmployeeService.SavedEmployeeFoundByEmail | src/main/java/net/javaguides/springboot/service/impl/EmployeeServiceImpl.java:25-29 | with a free email, `saveEmployee` succeeds and `findByEmail` then returns exactly the saved record |
| EmployeeService.DuplicateEmailRejected | src/test/java/net/javaguides/springboot/service/EmployeeServiceTests.java:70-86 | if exactly one stored row holds the email (other rows may share emails among themselves), `saveEmployee` fails with the duplicate-email error and leaves the table unchanged |
| EmployeeService.TwoDistinctEmailsBothSaved | src/test/java/net/javaguides/springboot/integration/EmployeeControllerIntegrationTests.java:66-91 | after `deleteAll`, two records without ids and with different emails both save, get the next two keys, and are exactly the two listed |
| EmployeeService.SaveEmployeeWithStoredIdOverwrites | src/main/java/net/javaguides/springboot/service/impl/EmployeeServiceImpl.java:29 | a record whose id is stored and whose email is free replaces that row; no key is added and the counter stays |
| EmployeeService.UpdateEmployeeSkipsEmailCheck | src/test/java/net/javaguides/springboot/service/EmployeeServiceTests.java:147-167 | a table with distinct emails, and an update of the second row to the first row's email, after which the emails are no longer distinct |
| ServiceImpl.EmployeeServiceImpl.constructor | src/main/java/net/javaguides/springboot/service/impl/EmployeeServiceImpl.java:18-20 | the service holds the repository it is given |
| ServiceImpl.EmployeeServiceImpl.SaveEmployee | src/main/java/net/javaguides/springboot/service/impl/EmployeeServiceImpl.java:23-30 | looks the email up on the repository and calls `save` only when it is free; the repository's new state and the result are those of `EmployeeService.SaveEmployee` |
| ServiceImpl.EmployeeServiceImpl.GetAllEmployees | src/main/java/net/javaguides/springboot/service/impl/EmployeeServiceImpl.java:33-35 | returns the repository's `findAll` listing and changes nothing |
| ServiceImpl.EmployeeServiceImpl.GetEmployeeById | src/test/java/net/javaguides/springboot/service/EmployeeServiceTests.java:134-139 | returns the repository's `findById` result and changes nothing |
| ServiceImpl.EmployeeServiceImpl.UpdateEmployee | src/test/java/net/javaguides/springboot/service/EmployeeServiceTests.java:152-160 | hands the record to the repository's `save`, as `EmployeeService.UpdateEmployee` |
| ServiceImpl.EmployeeServiceImpl.DeleteEmployee | src/test/java/net/javaguides/springboot/service/EmployeeServiceTests.java:173-181 | hands the id to the repository's `deleteById`, as `EmployeeService.DeleteEmployee` |
| Controller.CreateEmployee | src/main/java/net/javaguides/springboot/controller/EmployeeController.java:22-26 | 201 with exactly what `save` stored, when the email is free; otherwise the service's failure escapes unmapped and the table is untouched: the duplicate-email error exactly when one row holds the email; never any other status; keeps emails distinct |
| Controller.GetAllEmployees | src/main/java/net/javaguides/springboot/controller/EmployeeController.java:28-31 | 200 with the service's listing unchanged: exactly the stored records, as many as there are rows, an empty list for an empty table |
| Controller.GetEmployeeById | src/main/java/net/javaguides/springboot/controller/EmployeeController.java:33-42 | 200 with the stored record exactly when the id is stored, otherwise 404 with no body |
| Controller.UpdateEmployee | src/main/java/net/javaguides/springboot/controller/EmployeeController.java:44-55 | absent path id: 404 with the table unchanged and no update made; present: 200 with the service's update of the payload, whose stored fields are the payload's |
| Controller.UpdateIgnoresWhichPathId | src/main/java/net/javaguides/springboot/controller/EmployeeController.java:45-51 | two stored path ids give the same result for the same payload: the path id is only an existence check |
| Controller.UpdateWritesPayloadRow | src/main/java/net/javaguides/springboot/controller/EmployeeController.java:49-51 | a payload id naming another stored row overwrites that row, and the path's row is untouched |
| Controller.UpdateWithUnknownPayloadIdInserts | src/main/java/net/javaguides/springboot/controller/EmployeeController.java:49-51 | a payload without a stored id is inserted under a fresh key, and the path's row is untouched |
| Controller.CreateReadUpdateDeleteScenario | src/test/java/net/javaguides/springboot/integration/EmployeeControllerIntegrationTestsTestcontainers.java:59-200 | on a fresh service: create gives 201 with id 1; GET 1 gives 200 with the record; GET 0, the unassigned id, gives 404; PUT with a new first name gives 200 with it; after the service deletes id 1, GET gives 404 |

## Left out

- HTTP transport, Spring wiring and JSON are not modelled. Request mapping, dependency injection, `ResponseEntity` and body serialisation are replaced by the `Status`/`Body`/`Outcome` values.
- JPA, Hibernate and the database engine are not modelled. The query text of `findByJpql` is modelled only by its meaning, a filter on first and last name equality. Connectivity and constraint errors from the store are not modelled.
- The tests also call `findByJpqlNamedParams`, `findByNativeSql` and `findByNativeSqlNamedParams`. None of them is declared in the repository, so none is modelled. Each would behave like `EmployeeTable.FindByJpql`.
- The controller has no DELETE route, so none is modelled. The service's `deleteEmployee` is modelled as a delegation to `deleteById`.
- The service interface and the bodies of `getEmployeeById`, `updateEmployee` and `deleteEmployee` are not part of this model. They are modelled as direct delegations to `findById`, `save` and `deleteById`, which is what the service tests describe.
- The `Employee` class is not part of this model. It is assumed to have exactly the fields `id`, `firstName`, `lastName` and `email`, with an id left at 0 until the store assigns one.
- Check-then-act races are not modelled, because the model is sequential. One race is between the email check and the insert in `saveEmployee`. The other is between the existence check and the update in the controller.
- Ids are unbounded integers, so the 64-bit `long` limit on the key counter is not modelled.
- `save` in the source also writes the generated id into the caller's own object. The model returns the saved record and does not model that aliasing.
- Strings are compared exactly. The store compares them under its column collation, and MySQL's default ignores case and accents. So emails that differ only in case are duplicates there but not in the model: `findByEmail`, `findByJpql` and the `saveEmployee` guard treat them as different.
- `deleteById` of an absent key is modelled as a no-op, which is Spring Data JPA 3 behaviour. Releases before 3 throw `EmptyResultDataAccessException` instead, and no file in the repository pins the version.
- A merge of a record whose id the table lacks is modelled as an insert under a fresh key. That is the classic Hibernate behaviour. Releases from 6.6 on raise an error instead.
- `findAll` guarantees no order. The model fixes ascending id order.
- The duplicate-email exception's message text is not modelled; the error keeps only the email.
