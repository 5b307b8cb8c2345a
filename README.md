# Employee CRUD service, modelled in Dafny

This project models the employee service of a small Spring CRUD application.
`EmployeeServiceImpl` offers five operations over an employee repository:

- create (`saveEmployee`) looks the email up first and refuses an email that is already stored;
- list (`getAllEmployee`) and fetch by id (`getEmployeeById`) only read;
- update (`updateEmployee`) saves the given employee without any check;
- delete (`deleteEmployee`) looks the id up, unwraps the result and deletes that entity.

The repository is an external collaborator whose code is not part of this model. It
is replaced by a value, `EmployeeTable.Table`, with these parts:

- the stored rows keyed by id;
- the stored ids in insertion order;
- the next id to hand out.

The repository's operations are pure functions on that value (`FindById`,
`FindByEmail`, `FindAll`, `Save`, `Delete`). The repository's own tests pin down four
things, and the model keeps them:

- save gives a positive id that is not in use;
- re-saving a stored row keeps its id and replaces its fields;
- find-all returns every stored row;
- delete makes the id unresolvable.

The functions also fix more than those tests do. These are the model's own
assumptions, and some lemmas rely on them:

- ids come from a counter that starts at 1 and only grows, so the first two creates on an empty store get ids 1 and 2;
- find-all lists the rows in increasing id order, which is also insertion order;
- when several rows share an email, find-by-email returns the oldest;
- emails match as exact strings.

The invariant `EmployeeTable.Valid` holds of every reachable table:

- each row carries its key as its id;
- ids are positive and below the counter;
- `order` lists exactly the keys, in increasing order.

The service is the class `EmployeeService.EmployeeServiceImpl`. Its field
`employeeRepository` holds the repository's state. Its methods are proved against the
transition functions `SaveTransition`, `Save` and `DeleteTransition`. The lemmas in
`ServiceProperties` relate several calls:

- create keeps emails pairwise distinct;
- update can break that;
- create gives fresh ids;
- delete removes exactly one row;
- two creates give a listing of two.

Modelling choices:

- An employee's id is `Option<int>`. `None` is a `Long` id that is still null.
- Save overwrites a row only when the id is set *and* stored. Otherwise the model assumes it inserts under a fresh id. The entity's id mapping is not part of this model, and with a generated id some Hibernate versions throw instead when an entity with an unknown id is saved.
- The service's exceptions become values. A taken email gives `Failure(EmailAlreadyExists(email))`; `saveEmployee` throws it as a `ResourceNotFoundException`. An unknown id on delete gives `Fail(NoSuchElement(id))`; in `deleteEmployee` this is the `NoSuchElementException` of `Optional.get()`.
- Delete on an unknown id fails, as `Optional.get()` does in `deleteEmployee`, and nothing is deleted.

## Model

| member | source | states |
|---|---|---|
| EmployeeTable.FindById | src/test/java/com/example/springtestproject/repository/EmployeeRepositoryTests.java:65-73 | present exactly when the id is stored; then the stored row, whose id is the one asked for |
| EmployeeTable.FirstWithEmail | src/main/java/com/example/springtestproject/service/EmployeeServiceImpl.java:19 | absent exactly when no listed row has the email; otherwise a listed row with that email, and no earlier listed row has it |
| EmployeeTable.FindByEmail | src/main/java/com/example/springtestproject/service/EmployeeServiceImpl.java:19-20 | present exactly when some stored row has the email, compared as exact strings; the row returned is stored under its own id and has that email |
| EmployeeTable.RowsOf | src/test/java/com/example/springtestproject/repository/EmployeeRepositoryTests.java:53-60 | one row per listed id, the row stored under that id, in that order |
| EmployeeTable.IncreasingCardinality | src/test/java/com/example/springtestproject/repository/EmployeeRepositoryTests.java:53-60 | an increasing id sequence has as many distinct ids as its length (so the listing has no duplicates) |
| EmployeeTable.OrderCoversRows | src/test/java/com/example/springtestproject/repository/EmployeeRepositoryTests.java:53-60 | a valid table lists as many ids as it stores rows |
| EmployeeTable.FindAll | src/test/java/com/example/springtestproject/repository/EmployeeRepositoryTests.java:53-60 | every stored row and nothing else, as many entries as rows; in increasing id order, which is the model's assumption |
| EmployeeTable.Save | src/test/java/com/example/springtestproject/repository/EmployeeRepositoryTests.java:35-41 | the table stays valid; the stored row has the given names and email and a positive id; a stored id is overwritten in place and kept; otherwise the id is new and appended to the order |
| EmployeeTable.Without | src/main/java/com/example/springtestproject/service/EmployeeServiceImpl.java:44 | exactly the other ids remain, and increasing order is kept |
| EmployeeTable.Delete | src/test/java/com/example/springtestproject/repository/EmployeeRepositoryTests.java:95-103 | the table stays valid and loses exactly the row under the entity's id; an entity without an id changes nothing |
| EmployeeService.SaveTransition | src/main/java/com/example/springtestproject/service/EmployeeServiceImpl.java:18-24 | fails exactly when the email is in use, then with that email named and the table unchanged; otherwise the result and new table are the repository's save |
| EmployeeService.DeleteTransition | src/main/java/com/example/springtestproject/service/EmployeeServiceImpl.java:42-45 | fails exactly when the id is not stored, then with NoSuchElement and the table unchanged; otherwise exactly that row is gone |
| EmployeeService.EmployeeServiceImpl.constructor | src/main/java/com/example/springtestproject/service/EmployeeServiceImpl.java:14-15 | the service starts over the injected repository state |
| EmployeeService.EmployeeServiceImpl.SaveEmployee | src/main/java/com/example/springtestproject/service/EmployeeServiceImpl.java:18-24 | follows SaveTransition; fails exactly when the email was in use, and then leaves the repository unchanged |
| EmployeeService.EmployeeServiceImpl.GetAllEmployee | src/main/java/com/example/springtestproject/service/EmployeeServiceImpl.java:27-29 | every stored employee exactly once, oldest first, without changing anything |
| EmployeeService.EmployeeServiceImpl.GetEmployeeById | src/main/java/com/example/springtestproject/service/EmployeeServiceImpl.java:32-34 | the stored employee with that id, or absence when none; never fails and changes nothing |
| EmployeeService.EmployeeServiceImpl.UpdateEmployee | src/main/java/com/example/springtestproject/service/EmployeeServiceImpl.java:37-39 | exactly the repository's save of the given employee, with no existence or email check |
| EmployeeService.EmployeeServiceImpl.DeleteEmployee | src/main/java/com/example/springtestproject/service/EmployeeServiceImpl.java:42-45 | follows DeleteTransition; fails exactly when the id was not stored; afterwards the id is gone and all other rows remain |
| ServiceProperties.SaveEmployeeKeepsEmailsUnique | src/main/java/com/example/springtestproject/service/EmployeeServiceImpl.java:19-23 | if stored emails are pairwise distinct before a create, they still are after it, whether it succeeds or fails |
| ServiceProperties.SaveEmployeeRejectsTakenEmail | src/test/java/com/example/springtestproject/service/EmployeeServiceTest.java:70-82 | when some stored row has the email, create fails with that email and the table is exactly as before (save is never reached) |
| ServiceProperties.SaveEmployeeInsertsFresh | src/test/java/com/example/springtestproject/service/EmployeeServiceTest.java:56-68 | a create with a free email of an unstored employee succeeds with the same fields under a positive id not in use before, keeps every other row, and appends the row to the listing |
| ServiceProperties.UpdateCanBreakUniqueEmails | src/main/java/com/example/springtestproject/service/EmployeeServiceImpl.java:37-39 | updating one stored row with another row's email leaves two rows with one email, although emails were distinct before |
| ServiceProperties.UpdateBreaksUniquenessExample | src/test/java/com/example/springtestproject/repository/EmployeeRepositoryTests.java:77-90 | there is a valid table with distinct emails and an update after which emails are no longer distinct |
| ServiceProperties.UpdateKeepsIdReplacesFields | src/test/java/com/example/springtestproject/repository/EmployeeRepositoryTests.java:77-91 | re-saving a stored row returns it unchanged, stores it under the same id, leaves every other row alone and keeps the listing's length |
| ServiceProperties.DeleteRemovesOnlyThatRow | src/test/java/com/example/springtestproject/repository/EmployeeRepositoryTests.java:95-103 | deleting a stored id succeeds, the id is then absent, every other id resolves as before, and the listing loses exactly that row |
| ServiceProperties.TwoCreatesListTwo | src/test/java/com/example/springtestproject/repository/EmployeeRepositoryTests.java:45-61 | two creates with distinct emails on an empty store succeed with ids 1 and 2, and the listing is exactly those two rows |
| ServiceProperties.ListOfEmptyStore | src/test/java/com/example/springtestproject/service/EmployeeServiceTest.java:97-108 | the listing of an empty store is empty |
| ServiceProperties.CreateFetchUpdateDelete | src/test/java/com/example/springtestproject/integration/EmployeeControllerITest.java:54-205 | create gives id 1, a larger id is absent, update keeps id 1 with the new fields, and after delete id 1 is absent |

## Left out

- The HTTP controller and JSON mapping. The controller's code is not part of this model. Its existence check before update, which turns an absent id into a 404, is therefore not modelled; the service's update is the unconditional save.
- The repository's custom JPQL and native-SQL finders. They are query strings run by the database.
- The Testcontainers MySQL harness. It is I/O.
- The database's id-generation strategy. It is modelled only as a counter that gives a positive id not in use. Ids are unbounded integers; the 64-bit `long` range and its wrap-around are not modelled.
- EmployeeTable.FindByEmail: when an update has left two rows with one email, a derived Spring Data `findByEmail` query throws an "incorrect result size" exception. The model returns the oldest matching row instead. In both cases the create fails and nothing is saved; only the kind of failure differs.
- The repository's save of a new entity also writes the generated id into the caller's object. The model returns the stored row instead and has no aliasing.
- The exact text of the duplicate-email exception message. Only the error variant and the email are kept.
- Exceptions raised by the repository itself (a failing database), which the service only propagates.
- EmployeeTable.FindByEmail: emails match as exact, non-null strings. The store's own collation is not modelled; MySQL's default one ignores case and accents, so there `saveEmployee` would also reject "CENA@mail.ru" when "cena@mail.ru" is stored. A null email is not modelled either.
- EmployeeTable.FindAll: the listing's increasing-id order is an assumption of the model. A plain `findAll` promises no order, and the repository tests check only the size.
- EmployeeTable.Save: the counter that starts at 1 and the fresh insert for a set but unstored id are assumptions of the model, not behaviour the sources show; the exact ids proved in `TwoCreatesListTwo` and `CreateFetchUpdateDelete` rely on them.
- The mocked delete test checks `deleteById`, but the implementation calls `findById` and then `delete(entity)`. The model follows the implementation and does not model the mock verification.
- The read-then-write race between two concurrent creates with one email. This is concurrency, and the model is sequential.
