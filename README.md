# Library management service core, modelled in Dafny

This project models the service layer of a Spring Boot library-management
application. The application has one catalog of books and one loan ledger. Readers
borrow and return books. Administrators create, update, patch and delete books.
Accounts register, log in and refresh their access tokens.

The model consists of:

- **Tables as sequences.** Each repository (books, loans, accounts) is a class
  holding its rows as a `seq` in insertion order, plus the identity counter that
  hands out the next primary key. `Valid()` says that ids are unique and below
  the counter.
- **Derived queries as filters.** Each derived query of the Spring Data
  repositories (`findByAvailable`, `findByTitleContainingOrAuthorContaining`,
  `findByReturnedAtIsNull`, `findByUserOrderByBorrowedAtDesc`,
  `findByBookAndUserAndReturnedAtIsNull`) is a pure function over those rows.
  Its contract gives its exact result as a multiset, and the ordering where the
  query has one.
- **Services as classes.** The three services are classes holding references to
  the stores they use. Queries are functions with `reads` clauses. Operations
  that save are methods with `modifies` clauses. Each method's `ensures` covers
  every error path in the order the source checks it, and the complete new state
  of both tables.
- **Exceptions as `Result`.** The exceptions the services throw become
  `Err(...)` values of `Result`: ResourceNotFound becomes `BookNotFound` or
  `BorrowRecordNotFound`, BadRequest and Unauthorized keep their messages, and
  a rejected login becomes `BadCredentials`.
- **The circulation invariant.** A book is unavailable exactly when the ledger
  holds an open loan of it, and no book has two open loans. A successful
  `BorrowBook` or `ReturnBook` preserves it. The lemma
  `AvailabilityAloneIsNotPreserved` shows why the second half is needed: with
  two open loans of one book, a return makes the book available while the other
  loan is still open.

Parameters stand in for what the model does not compute:

- The authenticated name taken from the security context is the `name`
  parameter of the operations that use it.
- The clock is the `now` parameter.
- Token generation and checking, password encoding and the authentication
  manager are function-valued fields whose behaviour is left open.

The `tokenType` field of `AuthResponse` is declared with the initializer
"Bearer" (dto/AuthResponse.java:16). Every response is built with Lombok's
`@Builder`, and without `@Builder.Default` the builder does not apply that
initializer, so the model leaves the field unset (`None`).

## Model

| member | source | states |
|---|---|---|
| Util.Contains | src/main/java/com/library/management/repository/BookRepository.java:12 | the `Containing` match: true exactly when the query occurs as a contiguous substring |
| Util.SortByKeyDesc | src/main/java/com/library/management/repository/BorrowRepository.java:14 | the `OrderBy…Desc` ordering: the result is non-increasing in the key and is a permutation of the input |
| BookRepository.FindById | src/main/java/com/library/management/repository/BookRepository.java:10 | `findById`: a found row is stored and has the id; empty exactly when no stored row has the id |
| BookRepository.FindByIdOfStored | src/main/java/com/library/management/repository/BookRepository.java:10 | with unique ids, looking up a stored row's id returns that very row |
| BookRepository.FindByAvailable | src/main/java/com/library/management/repository/BookRepository.java:11 | every row whose flag equals the argument, with its multiplicity, and nothing else |
| BookRepository.AvailabilityPartitionsBooks | src/main/java/com/library/management/repository/BookRepository.java:11 | the available and the unavailable books are disjoint and together make up the whole table |
| BookRepository.FindByTitleContainingOrAuthorContaining | src/main/java/com/library/management/repository/BookRepository.java:12 | exactly the rows whose title contains the first argument or whose author contains the second, with multiplicity |
| BookRepository.ReplaceById | src/main/java/com/library/management/repository/BookRepository.java:10 | `save` of an existing entity: the row with that id is overwritten and every other row stays in place |
| BookRepository.ReplaceByStoredIsIdentity | src/main/java/com/library/management/repository/BookRepository.java:10 | saving a row that is already stored, unchanged, leaves the table as it was |
| BookRepository.RemoveById | src/main/java/com/library/management/repository/BookRepository.java:10 | `delete`: exactly the rows with other ids remain, with their multiplicity |
| BookRepository.RemoveByIdKeepsUniqueIds | src/main/java/com/library/management/repository/BookRepository.java:10 | deleting keeps the primary key unique |
| BookRepository.BookStore.constructor | src/main/java/com/library/management/repository/BookRepository.java:10 | an empty table whose identity counter starts at 1 |
| BookRepository.BookStore.Insert | src/main/java/com/library/management/repository/BookRepository.java:10 | `save` of a new entity appends it under the next id and advances the counter; ids stay unique |
| BookRepository.BookStore.Save | src/main/java/com/library/management/repository/BookRepository.java:10 | the table becomes `ReplaceById` of the old one; the counter is unchanged |
| BookRepository.BookStore.Delete | src/main/java/com/library/management/repository/BookRepository.java:10 | the table becomes `RemoveById` of the old one; ids stay unique |
| BorrowRepository.FindByUserOrderByBorrowedAtDesc | src/main/java/com/library/management/repository/BorrowRepository.java:14 | exactly the user's loans, with multiplicity, most recent `borrowedAt` first |
| BorrowRepository.FindByReturnedAtIsNull | src/main/java/com/library/management/repository/BorrowRepository.java:15 | exactly the loans without a return time, with multiplicity |
| BorrowRepository.FindByBookAndUserAndReturnedAtIsNull | src/main/java/com/library/management/repository/BorrowRepository.java:16 | a found loan is stored, open, and of this book and user; empty exactly when no such loan is stored |
| BorrowRepository.ReplaceById | src/main/java/com/library/management/repository/BorrowRepository.java:13 | `save` of an existing loan overwrites its row and keeps every other row |
| BorrowRepository.BorrowStore.constructor | src/main/java/com/library/management/repository/BorrowRepository.java:13 | an empty ledger whose identity counter starts at 1 |
| BorrowRepository.BorrowStore.Insert | src/main/java/com/library/management/repository/BorrowRepository.java:13 | `save` of a new loan appends an open loan under the next id; ids stay unique |
| BorrowRepository.BorrowStore.Save | src/main/java/com/library/management/repository/BorrowRepository.java:13 | the ledger becomes `ReplaceById` of the old one; the counter is unchanged |
| UserRepository.FindByUsername | src/main/java/com/library/management/service/AuthService.java:67-68 | `findByUsername`: a found account has the username; empty exactly when no account has it |
| UserRepository.FindByUsernameOfStored | src/main/java/com/library/management/service/AuthService.java:67-68 | with unique usernames, the lookup returns exactly the stored account |
| UserRepository.FindById | src/main/java/com/library/management/service/BorrowService.java:87-88 | the account a loan refers to, or empty when no account has that id |
| UserRepository.FindByIdOfStored | src/main/java/com/library/management/service/BorrowService.java:87-88 | with unique ids, the lookup returns exactly the stored account |
| UserRepository.ExistsByUsername | src/main/java/com/library/management/service/AuthService.java:28 | true exactly when some account has the username |
| UserRepository.ExistsByEmail | src/main/java/com/library/management/service/AuthService.java:31 | true exactly when some account has the email |
| UserRepository.AddingFreshAccountKeepsUnique | src/main/java/com/library/management/service/AuthService.java:28-42 | appending an account whose username and email are both unused keeps usernames and emails unique |
| UserRepository.UserStore.constructor | src/main/java/com/library/management/service/AuthService.java:22 | an empty account table whose identity counter starts at 1 |
| UserRepository.UserStore.Insert | src/main/java/com/library/management/service/AuthService.java:42 | `save` of a new account appends it under the next id; ids stay unique |
| Catalog.MapToDto | src/main/java/com/library/management/service/BookService.java:99-106 | the transfer object describes exactly the book: `ToBook` recovers it |
| Catalog.MapToDtoInjective | src/main/java/com/library/management/service/BookService.java:99-106 | different books never have the same transfer object |
| Catalog.BooksOfDtos | src/main/java/com/library/management/service/BookService.java:20-24 | mapping a list of books to transfer objects and back gives the same list |
| Catalog.PatchTypeError | src/main/java/com/library/management/service/BookService.java:68-78 | none exactly when each present key among title, author and available holds a string, a string and a boolean; otherwise the first ill-typed key in that order |
| Catalog.BookService.constructor | src/main/java/com/library/management/service/BookService.java:16-18 | the service uses the given book table |
| Catalog.BookService.GetAllBooks | src/main/java/com/library/management/service/BookService.java:20-24 | one transfer object per stored book, in table order |
| Catalog.BookService.GetAvailableBooks | src/main/java/com/library/management/service/BookService.java:26-30 | exactly the available books, with multiplicity |
| Catalog.BookService.SearchBooks | src/main/java/com/library/management/service/BookService.java:93-97 | exactly the books whose title or author contains the query, with multiplicity |
| Catalog.BookService.GetBookEntityById | src/main/java/com/library/management/service/BookService.java:108-111 | the stored book with the id, or ResourceNotFound exactly when no stored book has it |
| Catalog.BookService.GetBookById | src/main/java/com/library/management/service/BookService.java:32-37 | the transfer object of the stored book with the id, or ResourceNotFound exactly when there is none |
| Catalog.BookService.CreateBook | src/main/java/com/library/management/service/BookService.java:39-49 | appends one book with the given title, author and flag under a fresh id; the id in the request is ignored |
| Catalog.BookService.UpdateBook | src/main/java/com/library/management/service/BookService.java:51-62 | unknown id: ResourceNotFound and no change; otherwise that row gets all three fields of the request and no other row changes |
| Catalog.BookService.PatchBook | src/main/java/com/library/management/service/BookService.java:64-83 | unknown id: ResourceNotFound; an ill-typed value: a cast error; both change nothing. Otherwise only the present fields change, and an empty patch leaves the table unchanged |
| Catalog.BookService.DeleteBook | src/main/java/com/library/management/service/BookService.java:86-91 | unknown id: ResourceNotFound and no change; otherwise exactly the rows with that id are removed |
| Auth.AuthService.constructor | src/main/java/com/library/management/service/AuthService.java:20-25 | the service uses the given account table, encoder, token service and authentication manager |
| Auth.AuthService.Register | src/main/java/com/library/management/service/AuthService.java:27-55 | taken username, then taken email: BadRequest and no change. Otherwise exactly one account is appended, with the encoded password and role USER, and the response echoes its tokens and fields. Unique usernames and emails stay unique |
| Auth.AuthService.Login | src/main/java/com/library/management/service/AuthService.java:57-82 | rejected credentials fail first; then an unknown username is Unauthorized; success happens exactly when both checks pass, and carries that account's fresh tokens |
| Auth.AuthService.RefreshToken | src/main/java/com/library/management/service/AuthService.java:84-104 | every failure is Unauthorized("Invalid refresh token"). Success carries a new access token and the same refresh token. With unique usernames, success happens exactly when the token's account exists and accepts the token |
| Auth.AuthService.GetCurrentUser | src/main/java/com/library/management/service/AuthService.java:106-110 | the account with the authenticated name, or Unauthorized("User not found") exactly when there is none |
| Circulation.MapToDto | src/main/java/com/library/management/service/BorrowService.java:84-94 | the transfer object describes exactly the loan; username and book title are those of the referenced account and book, and are absent exactly when the reference is dangling |
| Circulation.MapAll | src/main/java/com/library/management/service/BorrowService.java:29-31 | each element is exactly the transfer object of the loan at that position, username and book title included, so mapping back recovers the list |
| Circulation.OpenBorrowIsUnique | src/main/java/com/library/management/service/BorrowService.java:70-71 | under the invariant, two open loans of one book are the same loan, so the open-loan lookup is unambiguous |
| Circulation.EmptyLedgerSatisfiesInvariant | src/main/java/com/library/management/service/BorrowService.java:46-51 | with every book available and no loans, the circulation invariant holds |
| Circulation.OpenBorrowAfterAppend | src/main/java/com/library/management/service/BorrowService.java:54-60 | after appending a loan, a book has an open loan exactly when it had one before or the new loan is an open loan of it |
| Circulation.BorrowKeepsInvariant | src/main/java/com/library/management/service/BorrowService.java:41-63 | marking an available book unavailable and appending an open loan of it preserves the circulation invariant |
| Circulation.ReturnClosesTheOnlyOpenBorrow | src/main/java/com/library/management/service/BorrowService.java:70-79 | closing an open loan leaves its book with no open loan at all |
| Circulation.ReturnKeepsInvariant | src/main/java/com/library/management/service/BorrowService.java:65-82 | marking the book available and closing its open loan preserves the circulation invariant |
| Circulation.AvailabilityAloneIsNotPreserved | src/main/java/com/library/management/service/BorrowService.java:70-77 | a concrete ledger in which the availability condition holds before a return and fails after it |
| Circulation.BorrowService.constructor | src/main/java/com/library/management/service/BorrowService.java:21-26 | the service uses the given account service, catalog service and ledger |
| Circulation.BorrowService.GetAllBorrowedBooks | src/main/java/com/library/management/service/BorrowService.java:28-32 | exactly the open loans, with multiplicity; no closed loan appears; each carries the username and book title its references resolve to |
| Circulation.BorrowService.GetUserBorrowHistory | src/main/java/com/library/management/service/BorrowService.java:34-39 | Unauthorized exactly when the name has no account; otherwise exactly that account's loans, most recent first, each with its resolved username and book title |
| Circulation.BorrowService.BorrowBook | src/main/java/com/library/management/service/BorrowService.java:41-63 | unknown user, then unknown book, then unavailable book: each error leaves both tables unchanged. On success the book becomes unavailable and one open loan, stamped with `now`, is appended; the circulation invariant is kept |
| Circulation.BorrowService.ReturnBook | src/main/java/com/library/management/service/BorrowService.java:65-82 | unknown user, then unknown book, then no open loan of this book by this user: each error leaves both tables unchanged. On success the book becomes available and exactly that loan gets `now` as its return time; the invariant is kept and the book has no open loan left |
| Circulation.NewLibrary | src/test/java/com/library/management/service/BorrowServiceTest.java:62-102 | a fresh library, built through the services, holds one registered account, one available book and an empty ledger |
| Circulation.BorrowAvailable | src/test/java/com/library/management/service/BorrowServiceTest.java:140-153 | borrowing an available book yields an open loan stamped with the given time; the book becomes unavailable |
| Circulation.BorrowUnavailable | src/test/java/com/library/management/service/BorrowServiceTest.java:157-169 | borrowing a book that is out is BadRequest, and neither table is saved |
| Circulation.ReturnBorrowed | src/test/java/com/library/management/service/BorrowServiceTest.java:173-190 | returning the borrowed book closes exactly that loan at the given time; the book becomes available |
| Circulation.ReturnNotBorrowed | src/test/java/com/library/management/service/BorrowServiceTest.java:194-210 | returning a book with no open loan by the user is ResourceNotFound, and neither table is saved |
| Circulation.BorrowReturnReturnAgain | src/test/java/com/library/management/service/BorrowServiceTest.java:140-210 | in a fresh library: a borrow succeeds, a second borrow is refused, a return succeeds on the same loan, and a second return is ResourceNotFound |

## Left out

- Token signing, parsing and validation, and password hashing, are not modelled. They are opaque function-valued parameters. A token that cannot be parsed (the exception `extractUsername` would throw) is not modelled. The token service is not part of this model.
- Which credentials the authentication manager accepts is not modelled. It is a predicate parameter. Login's write of the authentication to the security context, and its console output, are left out.
- The security context is not read. The authenticated name is an explicit parameter.
- The clock is not read. `LocalDateTime.now()` is the `now` parameter, a natural number.
- Transactions and concurrency are not modelled. Each service operation is one atomic step, and a failure leaves no partial write. Two concurrent borrows of one book are not covered.
- Managed-entity dirty checking is not modelled as such. In `borrowBook` and `returnBook` the book's flag change is written back at commit; the model writes it with an explicit `Save` of the book.
- The entity classes, the user repository's Java interface, the controllers, `UserService`, the application's data seeding and the exception handlers are not part of this model. The `UserRepository` module models only the four lookups the services use: by username, by id (the loan's user reference), and the two existence checks. It also models the row insert of registration.
- Catalog.PatchBook: a JSON `null` value and numeric values other than integers are not modelled. The JSON value type has strings, booleans and integers only.
- BookRepository.FindByTitleContainingOrAuthorContaining: the match is exact and case-sensitive. The database's collation (for example case-insensitive `LIKE`) is not modelled.
- Ids are unbounded naturals. Overflow of the 64-bit identity is not modelled.
- BookRepository.BookStore.Save: saving an entity whose id is not stored is a no-op here. JPA would merge it as a new row; the services never do this.
- UserRepository.FindByUsername: it returns the first account with the username. `UniqueAccounts` is not part of `UserStore.Valid()`. Spring Data would throw when several accounts share a username. Registration checks the username first, so duplicates do not arise, and that case is not modelled.
- BorrowRepository.FindByBookAndUserAndReturnedAtIsNull: it returns the first match in table order. Spring Data throws when a single-result query matches several rows, which cannot happen for one user under the circulation invariant, and several rows are not modelled.
- Catalog.BookService.DeleteBook: foreign-key constraints are not modelled. This covers deleting a book that loans still refer to, and the dangling references it would leave (visible as absent username/title in `Circulation.MapToDto`).
- Catalog.BookService.CreateBook, Catalog.BookService.UpdateBook, Catalog.BookService.PatchBook, Catalog.BookService.DeleteBook: no claim is made that they preserve the circulation invariant. They set or remove the availability flag without consulting the loan table, as the source does.
