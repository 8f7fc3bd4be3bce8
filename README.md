# Book controller of a small catalog service

This project models the book controller of a Quarkus catalog service in Dafny.
The controller sits between the HTTP resource layer and the book store.
Before it lets the store create or update a book, it checks the book's author
against the listing of the external author directory. The match is linear,
exact and case-sensitive.

- `wrappers.dfy`: `Option`, `Result` and `Outcome`, standing in for Java `null` and for thrown exceptions.
- `authors.dfy`: the `Author` record as the directory lists it.
- `books.dfy`: the `Book` record, whose title and author may be null; the title rule `ValidTitle`; the errors `InvalidAuthor`, `InvalidTitle` and `NotFound`.
- `book_controller.dfy`: the table of books as a value (`Store`: a `map<int, Book>` plus the next id to hand out) and its invariant.
  It also holds the author check, one specifying function per operation, and the class `BookController`.
  That class keeps the table in two fields and changes them in place.
  Each of its methods is proved equal to its specifying function.
- `book_properties.dfy`: lemmas relating several operations.
  They cover create-then-find, create-then-list and delete-then-find.
  They also cover any run of requests against one directory listing, plus the scenarios the test suite exercises.

The author listing is a parameter of each call (`authors: seq<Author>`), since the directory is a remote service.

Order of the checks, as the code runs them:

- `create` runs the author check first. It then saves, and the save is taken to enforce the title rule.
- `update` runs the author check first. It then looks up the id (not-found), copies title and author onto the fetched record, and saves it (the save is taken to enforce the title rule).

`update` validates the author (`BookController.java:40`) before it looks up the id (`:41`), so an unknown author gives `InvalidAuthor` even when the id is absent.

The title rule's implementation, bean validation on the `Book` entity, is not part of this model.
`ValidTitle` is taken from the test suite's assertions: the title is non-null, not blank and at most 30 characters.
"Blank" follows Java's `String.trim`: every character is at most U+0020.
The check is placed at save time, after the author check, because the resource layer does not validate the request body.

## Model

| member | source | states |
|---|---|---|
| BookControl.FindByName | src/main/java/com/example/quarkus/book/control/BookController.java:48-52 | the stream search yields an author from the listing whose name equals the book's author exactly; it yields nothing only when no listed author has that name (a null author matches none) |
| BookControl.ValidateAuthor | src/main/java/com/example/quarkus/book/control/BookController.java:48-52 | the author check passes exactly when some listed author's name equals the book's author; otherwise it fails with InvalidAuthor |
| BookControl.Lookup | src/main/java/com/example/quarkus/book/control/BookController.java:30-32 | lookup fails with NotFound exactly when no record has the id; otherwise it returns that record, whose id is the one asked for and whose title obeys the title rule |
| BookControl.ListingFacts | src/main/java/com/example/quarkus/book/control/BookController.java:26-28 | listing the records with ids in a range yields every such record and nothing else, each id once, in ascending order |
| BookControl.ListAll | src/main/java/com/example/quarkus/book/control/BookController.java:26-28 | find-all returns every stored record and only stored records, in strictly ascending id order (so no id repeats) |
| BookControl.CreateIn | src/main/java/com/example/quarkus/book/control/BookController.java:34-37 | create succeeds exactly when the author is known and the title valid. An unknown author gives InvalidAuthor (even with a bad title). A refused create leaves the table unchanged. A successful one adds exactly one record, under a previously unused id, with the requested title and author. The invariant is kept |
| BookControl.UpdateIn | src/main/java/com/example/quarkus/book/control/BookController.java:39-46 | an unknown author gives InvalidAuthor even when the id is absent. A known author with an absent id gives NotFound. A refused update leaves the table unchanged. A successful one sets only the title and author of record id and keeps its id. All other records and the id counter stay untouched. The invariant is kept |
| BookControl.DeleteIn | src/main/java/com/example/quarkus/book/control/BookController.java:54-56 | after delete no record with the id remains, every other record is unchanged, deleting an absent id changes nothing; the invariant is kept |
| BookControl.BookController.constructor | src/main/java/com/example/quarkus/book/control/BookController.java:17-24 | a new controller starts over an empty table |
| BookControl.BookController.FindAll | src/main/java/com/example/quarkus/book/control/BookController.java:26-28 | returns the listing ListAll gives for the current table, and changes nothing |
| BookControl.BookController.FindById | src/main/java/com/example/quarkus/book/control/BookController.java:30-32 | returns what Lookup gives for the current table, and changes nothing |
| BookControl.BookController.Create | src/main/java/com/example/quarkus/book/control/BookController.java:34-37 | the in-place create leaves the fields holding the table and returns the outcome CreateIn specifies; the invariant is kept |
| BookControl.BookController.Update | src/main/java/com/example/quarkus/book/control/BookController.java:39-46 | the in-place update first checks the author, then fetches the record, copies title and author onto it and saves it. It ends in the table and outcome UpdateIn specifies, and keeps the invariant |
| BookControl.BookController.DeleteById | src/main/java/com/example/quarkus/book/control/BookController.java:54-56 | the in-place delete leaves the fields holding the table DeleteIn specifies; the invariant is kept |
| BookProperties.Apply | src/main/java/com/example/quarkus/book/boundary/BookResource.java:37-57 | one create, update or delete request keeps the invariant and adds at most the one id the counter hands out |
| BookProperties.Replay | src/test/java/com/example/quarkus/book/BookResourceTest.java:126-147 | any run of requests keeps the invariant (every stored title valid, every record under its own id) and never moves the id counter back |
| BookProperties.ApplyKeepsAuthorsKnown | src/main/java/com/example/quarkus/book/control/BookController.java:34-46 | if every stored author is known to a listing, one request checked against that listing keeps it so |
| BookProperties.ReplayKeepsAuthorsKnown | src/test/java/com/example/quarkus/book/BookResourceTest.java:90-104 | against a fixed listing, any run of requests keeps every stored author known to it |
| BookProperties.RejectedBooksNeverStored | src/test/java/com/example/quarkus/book/BookResourceTest.java:90-147 | starting from an empty store, after any run of requests, no listed book carries an author the listing does not know, and every listed title obeys the title rule |
| BookProperties.CreateThenFind | src/test/java/com/example/quarkus/book/BookResourceTest.java:49-64 | after a successful create, finding by the returned id yields a record with that id and the requested title and author |
| BookProperties.CreatedIsListed | src/test/java/com/example/quarkus/book/BookResourceTest.java:74-80 | after a successful create, find-all includes the created book |
| BookProperties.UntouchedStaysStored | src/main/java/com/example/quarkus/book/control/BookController.java:34-56 | a stored record stays stored, unchanged, through any run of requests that never updates or deletes its id (creates always use a fresh id) |
| BookProperties.CreatedStaysListed | src/test/java/com/example/quarkus/book/BookResourceTest.java:74-80 | a successfully created book is still in find-all after any later run of requests that does not update or delete it |
| BookProperties.DeleteThenFind | src/main/java/com/example/quarkus/book/control/BookController.java:54-56 | after deleting an id, finding it gives NotFound and every other id is found as before |
| BookProperties.TitleRuleExamples | src/test/java/com/example/quarkus/book/BookResourceTest.java:106-147 | a 30-character title is accepted; 31 characters, null, the empty title and four spaces are refused |
| BookProperties.TitleLengthRule | src/test/java/com/example/quarkus/book/BookResourceTest.java:106-109 | with "Gilson" listed, a create by "Gilson" with a title of more than 30 characters fails with InvalidTitle and leaves the table unchanged; one with 1 to 30 characters, the first not blank, succeeds with that title |
| BookProperties.AuthorMatchIsExact | src/test/java/com/example/quarkus/book/BookResourceTest.java:90-104 | with "Gilson" listed, creating a book by "gilson" or by "any invalid name" fails with InvalidAuthor and leaves the table unchanged |

## Left out

- The author directory client is a remote REST call. Its listing is a parameter of each call. Directory failures (unreachable, timeouts, malformed replies) are not modelled.
- A null request body is not modelled: `Book` is a value. In the source, create and update then throw a NullPointerException at `BookController.java:50` when the listing is non-empty, and fail with InvalidAuthor when it is empty.
- A listed author whose name is null is not modelled (`Author.name` is a plain string). In the source that case makes the author check throw a NullPointerException.
- The persistence engine is not part of this model: the book repository is a map plus an id counter.
  - Ids start at 1 and count upwards. The 64-bit width of the Java `Long` id is not modelled.
  - create ignores any id carried in the request body and always stores a new record.
  - The repository's behaviour for a saved entity that carries an id (a merge) is not modelled for create.
  - deleteById of an absent id is taken to be a no-op. The repository's implementation is not among the modelled files, and a Spring Data repository may instead throw for an absent id.
- The store's listing order is not specified. ListAll fixes it as ascending id, and its contract promises the contents and that ascending order.
- The title rule is enforced by bean validation on the `Book` entity, which is not part of this model. `ValidTitle` follows the test suite's assertions.
  - Length is counted in Unicode characters, not UTF-16 code units, so titles with characters outside the Basic Multilingual Plane are not modelled exactly.
- The HTTP resource layer (`BookResource`) only delegates to the controller. The JAX-RS runtime turns the thrown `BadRequestException` and `NotFoundException` into 400 and 404. The resource layer is modelled only as the `Request` values of `Apply`.
- The author controller and author resource only pass the directory listing through. The Wiremock server configuration is test-time start-up and shut-down I/O. Neither is modelled.
- Listing books by author and merging them with the directory's books is not modelled: the book controller has no such code. The test suite asserts it, but no code implements it.
- In the source, update mutates the fetched entity object in place (`setTitle`, `setAuthor`) before saving it. Here the fetched record is a value, updated field by field, so aliasing between that object and the stored one is not modelled.
- Concurrent requests and read-then-write races between them are not modelled; each call runs alone.
