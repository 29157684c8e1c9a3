# BooksMarket rent/return core in Dafny

A Dafny model of the lending core of the Spring book-market application. Users rent and
return copies of books. Each book row keeps a counter of copies on the shelf. A booking
row records that a user holds a copy of a book.

The parts:

- `wrappers.dfy`: `Option`, `Result` and `Outcome`.
- `errors.dfy`: the exceptions the core throws, folded into one `Error` datatype, and
  the messages of the validating constructors.
- `text.dfy`: `String.isBlank`, as a whitespace predicate.
- `email.dfy`: the e-mail check in the User constructor.
  - `IsEmail` is a hand-written recognizer.
  - `MatchesEmailRegex` states, clause by clause, when a whole string matches
    `[-.\w]+@([\w-]+\.)+[\w-]+`.
  - Lemmas prove that the two agree, and describe the shape of an accepted address.
- `domain.dfy`: the domain classes.
  - `Book` is a class. Its four columns are immutable and its `available` counter is
    mutable; `RentBook` and `ReturnBook` update it in place.
  - `User`, `Author` and `Booking` are values. Each has a checking function that makes
    the Java constructor's checks in the same order, with the same messages.
- `listing.dfy`: what the queries compute: filters over a table, `ORDER BY` as a
  case-insensitive order over a key, and `.optional()` for single-row queries.
- `repositories.dfy`:
  - `Store`, a snapshot of the four tables: users, authors and books as maps from
    primary key to row, and bookings as a set of (user, book) pairs.
  - The store invariant `StoreValid`.
  - A `Database` object holding the tables.
  - The four repositories, which read and write that object.
- `rental.dfy`: `Rent` and `Return`, which give one transaction's outcome and resulting
  store as a function of the store before it. The lemmas about them cover:
  - the per-pair state machine (NotBorrowed and Borrowed);
  - error precedence;
  - round trips;
  - conservation of copies: a book's counter plus its bookings never changes;
  - preservation of the invariant over any sequence of requests.
- `services.dfy`: `UserService` and `AuthorService` as classes over the repositories.
  `UserService.RentBook` and `ReturnBook` make the same lookups and writes as the Java
  methods, in the same order. They are proved to leave exactly the store that
  `Rental.Rent` and `Rental.Return` describe.

Each `@Transactional` method is one atomic step on the store. The clock is a parameter:
`currentYear` for Book, and `today` for Author.

## Model

Source paths are relative to the repository root.

| member | source | states |
|---|---|---|
| Text.BlankExamples | src/main/java/org/mystudying/booksmarket2/domain/Book.java:15 | examples: "" and " \t\n" are blank; "Foundation" and "  a " are not |
| Email.Span | src/main/java/org/mystudying/booksmarket2/domain/User.java:10 | the span is the longest prefix of characters from the class: all of them belong, and the next does not |
| Email.EmailMatchesRegex | src/main/java/org/mystudying/booksmarket2/domain/User.java:10 | the recognizer accepts a string iff the whole string matches the e-mail expression (both directions) |
| Email.EmailToRegex | src/main/java/org/mystudying/booksmarket2/domain/User.java:10 | every accepted string matches the expression |
| Email.RegexToEmail | src/main/java/org/mystudying/booksmarket2/domain/User.java:10 | every match of the expression, split at its '@', is accepted |
| Email.DomainToRegex | src/main/java/org/mystudying/booksmarket2/domain/User.java:10 | a recognized domain is a final label after a dot, or one or more `[\w-]+\.` groups and a label |
| Email.RegexToDomain | src/main/java/org/mystudying/booksmarket2/domain/User.java:10 | every `([\w-]+\.)+[\w-]+` string is a recognized domain |
| Email.EmailShape | src/main/java/org/mystudying/booksmarket2/domain/User.java:10 | a string is accepted iff it is a non-empty `[-.\w]` local part, an '@', and at least two non-empty `[\w-]` labels separated by single dots |
| Email.AcceptedIsShaped | src/main/java/org/mystudying/booksmarket2/domain/User.java:10 | an accepted address has that shape, split at the end of its local part |
| Email.ShapedIsAccepted | src/main/java/org/mystudying/booksmarket2/domain/User.java:10 | every string of that shape is accepted |
| Email.DomainHasShape | src/main/java/org/mystudying/booksmarket2/domain/User.java:10 | a recognized domain is dot-separated non-empty labels, with at least one dot unless one was seen before |
| Email.ShapeIsDomain | src/main/java/org/mystudying/booksmarket2/domain/User.java:10 | dot-separated non-empty labels with a dot are a recognized domain |
| Email.EmailHasOneAt | src/main/java/org/mystudying/booksmarket2/domain/User.java:10 | an accepted address holds exactly one '@' |
| Email.AcceptedExample | src/test/java/org/mystudying/booksmarket2/domain/UserTest.java:13 | "alice@example.com" is accepted |
| Email.AcceptedMatchesRegex | src/test/java/org/mystudying/booksmarket2/domain/UserTest.java:13 | "alice@example.com" matches the expression |
| Email.RejectedExample | src/test/java/org/mystudying/booksmarket2/domain/UserTest.java:31 | "@alice@example@.com" is rejected |
| Domain.CheckBook | src/main/java/org/mystudying/booksmarket2/domain/Book.java:12-22 | the constructor accepts iff id >= 1, the title is not blank, 1 <= year <= current year, authorId >= 1 and available >= 0; the first failing check gives its message, in the order id, title, year, author, available |
| Domain.Book.New | src/main/java/org/mystudying/booksmarket2/domain/Book.java:12-29 | a fresh Book whose getters return exactly the arguments when the checks pass, else the first check's error and no object |
| Domain.RentStock | src/main/java/org/mystudying/booksmarket2/domain/Book.java:51-56 | renting succeeds iff at least one copy is left, leaving one fewer and never a negative count; otherwise it fails with "Book is not available." |
| Domain.Book.RentBook | src/main/java/org/mystudying/booksmarket2/domain/Book.java:51-56 | with a copy left the counter drops by exactly one; without one the call fails and the counter is unchanged; a valid book stays valid |
| Domain.Book.ReturnBook | src/main/java/org/mystudying/booksmarket2/domain/Book.java:58-60 | the counter rises by exactly one, with no upper bound; a valid book stays valid |
| Domain.ApplyStock | src/main/java/org/mystudying/booksmarket2/domain/Book.java:51-60 | under any sequence of rents and returns a non-negative counter stays non-negative, and it moves by at most the number of calls in total |
| Domain.RentReturnRestores | src/main/java/org/mystudying/booksmarket2/domain/Book.java:51-60 | rent then return, and return then rent, restore the counter |
| Domain.StockCount | src/main/java/org/mystudying/booksmarket2/domain/Book.java:51-60 | after any sequence of calls the counter is at least the start plus the number of returns minus the number of rents, and exactly that when the start covers every rent |
| Domain.NewUser | src/main/java/org/mystudying/booksmarket2/domain/User.java:12-24 | the constructor accepts iff id >= 1, the name is not blank and the e-mail matches the expression; the checks run in the order id, name, e-mail, each with its message; an accepted user holds exactly the arguments |
| Domain.UserAccepted | src/test/java/org/mystudying/booksmarket2/domain/UserTest.java:13 | the test's valid user is built with exactly its arguments |
| Domain.UserRejected | src/test/java/org/mystudying/booksmarket2/domain/UserTest.java:31 | the test's malformed address fails with "Wrong format of email!" |
| Domain.DateOrder | src/main/java/org/mystudying/booksmarket2/domain/Author.java:16 | `isAfter` is irreflexive, asymmetric, total on distinct dates and transitive |
| Domain.NewAuthor | src/main/java/org/mystudying/booksmarket2/domain/Author.java:10-22 | the constructor accepts iff id >= 1, the name is not blank and the birthdate is not after today; checks in the order id, name, birthdate, each with its message; an accepted author holds exactly the arguments |
| Domain.BirthdateBoundary | src/main/java/org/mystudying/booksmarket2/domain/Author.java:16-17 | a birthdate equal to today is accepted; the next day is rejected |
| Domain.NewBooking | src/main/java/org/mystudying/booksmarket2/domain/Booking.java:7-21 | accepted iff both ids are positive; the getters return the arguments; otherwise it fails with the constructor's message |
| Listing.IgnoreCaseTotal | src/main/java/org/mystudying/booksmarket2/repositories/BookRepository.java:21 | the case-insensitive order compares any two keys |
| Listing.IgnoreCaseTransitive | src/main/java/org/mystudying/booksmarket2/repositories/BookRepository.java:21 | the case-insensitive order is transitive |
| Listing.IgnoreCaseIgnoresCase | src/main/java/org/mystudying/booksmarket2/repositories/BookRepository.java:21 | keys that differ only in letter case are ordered both ways |
| Listing.InsertBy | src/main/java/org/mystudying/booksmarket2/repositories/BookRepository.java:21 | inserting into a sorted list keeps it sorted and adds exactly that element |
| Listing.SortBy | src/main/java/org/mystudying/booksmarket2/repositories/BookRepository.java:21 | the result is sorted by the key and is a permutation of the input |
| Listing.Matching | src/main/java/org/mystudying/booksmarket2/repositories/BookRepository.java:27 | the keys of exactly the rows that satisfy the WHERE clause, ascending, each once |
| Listing.Query | src/main/java/org/mystudying/booksmarket2/repositories/BookRepository.java:26-29 | a permutation of the matching rows, sorted by the key: every matching row is in it, and every element is a matching row |
| Listing.SingleMatch | src/main/java/org/mystudying/booksmarket2/repositories/BookRepository.java:53-56 | `.optional()`: none iff no row matches, a failure iff two distinct rows match, otherwise the one matching row |
| Listing.SingleMatchKey | src/main/java/org/mystudying/booksmarket2/repositories/BookRepository.java:53-56 | a condition that holds exactly at one key finds the row at that key, or none when the key is absent |
| Listing.SingleMatchUnique | src/main/java/org/mystudying/booksmarket2/repositories/UserRepository.java:38-42 | when at most one row can match, the query does not fail |
| Repositories.StoredBookingValid | src/main/java/org/mystudying/booksmarket2/domain/Booking.java:7-10 | a booking of a valid store has positive ids |
| Repositories.BookingRepository.Find | src/main/java/org/mystudying/booksmarket2/repositories/BookingRepository.java:38-45 | present iff the pair is in the table, and then it is that pair |
| Repositories.BookingRepository.Create | src/main/java/org/mystudying/booksmarket2/repositories/BookingRepository.java:21-28 | adds exactly the pair and changes nothing else; afterwards find returns it |
| Repositories.BookingRepository.Delete | src/main/java/org/mystudying/booksmarket2/repositories/BookingRepository.java:30-36 | removes exactly the pair and changes nothing else; afterwards find returns none; an absent pair is a no-op |
| Repositories.BookRepository.FindAll | src/main/java/org/mystudying/booksmarket2/repositories/BookRepository.java:19-23 | every book exactly once, sorted by title |
| Repositories.BookRepository.FindByYear | src/main/java/org/mystudying/booksmarket2/repositories/BookRepository.java:25-29 | exactly the books of that year, as many rows as there are such books, sorted by title |
| Repositories.BookRepository.FindByAuthorName | src/main/java/org/mystudying/booksmarket2/repositories/BookRepository.java:31-41 | exactly the books whose author row carries that name, as many rows as there are such books, sorted by title |
| Repositories.BookRepository.FindByAvailability | src/main/java/org/mystudying/booksmarket2/repositories/BookRepository.java:43-50 | for true exactly the books with a copy on the shelf, for false exactly those with none, as many rows as there are such books, sorted by title |
| Repositories.BookRepository.FindById | src/main/java/org/mystudying/booksmarket2/repositories/BookRepository.java:52-56 | in a valid table, the row stored under the id, or none |
| Repositories.BookRepository.FindByTitle | src/main/java/org/mystudying/booksmarket2/repositories/BookRepository.java:58-62 | a book with that title, none iff no book has it, a failure iff two books share it |
| Repositories.BookRepository.Update | src/main/java/org/mystudying/booksmarket2/repositories/BookRepository.java:64-70 | overwrites the row with the book's id with its columns and no other row; with no such row nothing changes; a valid book keeps the store valid |
| Repositories.BookRepository.FindBooksByUserId | src/main/java/org/mystudying/booksmarket2/repositories/BookRepository.java:72-82 | exactly the books the user has a booking for, as many rows as there are such books, sorted by title |
| Repositories.BookRepository.FindAndLockById | src/main/java/org/mystudying/booksmarket2/repositories/BookRepository.java:85-89 | the same result as findById |
| Repositories.UserRepository.FindAll | src/main/java/org/mystudying/booksmarket2/repositories/UserRepository.java:20-24 | every user exactly once, sorted by name |
| Repositories.UserRepository.FindById | src/main/java/org/mystudying/booksmarket2/repositories/UserRepository.java:26-30 | in a valid table, the user stored under the id, or none |
| Repositories.UserRepository.FindByName | src/main/java/org/mystudying/booksmarket2/repositories/UserRepository.java:32-36 | a user of that name, none iff nobody has it, a failure iff two users share it |
| Repositories.UserRepository.FindByEmail | src/main/java/org/mystudying/booksmarket2/repositories/UserRepository.java:38-42 | a user with that address, or none iff nobody has it; with unique addresses it never fails |
| Repositories.UserRepository.Create | src/main/java/org/mystudying/booksmarket2/repositories/UserRepository.java:44-52 | a taken address fails with DuplicateKey and changes nothing; otherwise exactly one row is added under a fresh positive id, which is returned, and the store stays valid |
| Repositories.AuthorRepository.FindAll | src/main/java/org/mystudying/booksmarket2/repositories/AuthorRepository.java:22-26 | every author exactly once, sorted by name ignoring letter case |
| Repositories.AuthorRepository.FindById | src/main/java/org/mystudying/booksmarket2/repositories/AuthorRepository.java:28-32 | in a valid table, the author stored under the id, or none |
| Repositories.AuthorRepository.FindByName | src/main/java/org/mystudying/booksmarket2/repositories/AuthorRepository.java:34-38 | an author of that name, none iff nobody has it, a failure iff two authors share it |
| Repositories.AuthorRepository.Create | src/main/java/org/mystudying/booksmarket2/repositories/AuthorRepository.java:40-48 | exactly one row is added under a fresh positive id, which is returned; a valid author keeps the store valid |
| Rental.Rent | src/main/java/org/mystudying/booksmarket2/services/UserService.java:62-78 | unknown user, unknown book, empty shelf, existing booking, checked in that order, each leaving the store unchanged; success iff all four pass, and then exactly the booking is added and the book's counter lowered by one |
| Rental.Return | src/main/java/org/mystudying/booksmarket2/services/UserService.java:80-92 | unknown user, unknown book, missing booking, in that order, each leaving the store unchanged; success iff the booking exists, and then exactly it is removed and the counter raised by one |
| Rental.Transitions | src/main/java/org/mystudying/booksmarket2/services/UserService.java:75-91 | a successful rent moves the pair from NotBorrowed to Borrowed and a successful return moves it back; every other pair, the users and the authors are unchanged |
| Rental.CounterMoves | src/main/java/org/mystudying/booksmarket2/services/UserService.java:75-91 | the books table keeps its keys and every other row; the rented or returned book's counter moves by exactly one |
| Rental.NoSecondCopy | src/main/java/org/mystudying/booksmarket2/services/UserService.java:67-73 | renting a book the user already holds fails, with BookAlreadyBorrowed or, earlier, the empty-shelf error |
| Rental.NoSecondReturn | src/main/java/org/mystudying/booksmarket2/services/UserService.java:85-87 | returning twice fails the second time with BookNotBorrowed and changes nothing |
| Rental.RentThenReturn | src/main/java/org/mystudying/booksmarket2/services/UserService.java:62-92 | a successful rent followed by the return of the same pair succeeds and restores the store |
| Rental.ReturnThenRent | src/main/java/org/mystudying/booksmarket2/services/UserService.java:62-92 | in a valid store, a successful return followed by renting the same pair again succeeds and restores the store |
| Rental.RentKeepsValid | src/main/java/org/mystudying/booksmarket2/services/UserService.java:62-78 | rentBook keeps the store invariant, so the counter never goes below zero |
| Rental.ReturnKeepsValid | src/main/java/org/mystudying/booksmarket2/services/UserService.java:80-92 | returnBook keeps the store invariant |
| Rental.RentConserves | src/main/java/org/mystudying/booksmarket2/services/UserService.java:75-77 | rentBook keeps every book's copies (shelf plus bookings) |
| Rental.ReturnConserves | src/main/java/org/mystudying/booksmarket2/services/UserService.java:89-91 | returnBook keeps every book's copies (shelf plus bookings) |
| Rental.LentWithinCopies | src/main/java/org/mystudying/booksmarket2/services/UserService.java:67-69 | in a valid store a book's bookings do not exceed its copies (shelf plus bookings), that is, the shelf count is not negative; this is the base case of the bound in RunKeepsInvariants against the initial copies |
| Rental.RunKeepsInvariants | src/main/java/org/mystudying/booksmarket2/services/UserService.java:62-92 | after any sequence of rents and returns the store is valid, each book has the copies it started with, and none is lent out more often than that |
| Services.UserService.FindBooksByUserId | src/main/java/org/mystudying/booksmarket2/services/UserService.java:47-50 | UserNotFound iff the user is unknown, else exactly the books the user has booked, as many rows as there are such books, sorted by title |
| Services.UserService.Create | src/main/java/org/mystudying/booksmarket2/services/UserService.java:52-60 | validated as a User with id 1 first (its error, nothing written); EmailAlreadyExists iff a valid user's address is taken (nothing written); success iff the user is valid and the address is free, with one row under a fresh positive id; the store stays valid |
| Services.UserService.RentBook | src/main/java/org/mystudying/booksmarket2/services/UserService.java:62-78 | the outcome and the new store are exactly those of Rental.Rent on the old store, and the store stays valid |
| Services.UserService.Lend | src/main/java/org/mystudying/booksmarket2/services/UserService.java:75-77 | the writes of a successful rent: exactly the booking added and the book's counter lowered by one |
| Services.UserService.ReturnBook | src/main/java/org/mystudying/booksmarket2/services/UserService.java:80-92 | the outcome and the new store are exactly those of Rental.Return on the old store, and the store stays valid |
| Services.UserService.Restock | src/main/java/org/mystudying/booksmarket2/services/UserService.java:89-91 | the writes of a successful return: exactly the booking removed and the book's counter raised by one |
| Services.AuthorService.FindById | src/main/java/org/mystudying/booksmarket2/services/AuthorService.java:31-33 | the author stored under the id, or none |
| Services.AuthorService.FindByName | src/main/java/org/mystudying/booksmarket2/services/AuthorService.java:35-37 | an author of that name, none iff nobody has it, a failure iff two authors share it: the repository's result |
| Services.AuthorService.FindBooksByAuthor | src/main/java/org/mystudying/booksmarket2/services/AuthorService.java:39-42 | AuthorNotFound iff the id is unknown, else exactly the books whose author carries that author's name, as many rows as there are such books, sorted by title |
| Services.AuthorService.SameNameSameBooks | src/main/java/org/mystudying/booksmarket2/services/AuthorService.java:41 | two authors of one name get the same list, which includes each other's books |
| Services.AuthorService.Create | src/main/java/org/mystudying/booksmarket2/services/AuthorService.java:44-48 | fails iff `Author(1, name, birthdate)` is rejected, with its error and nothing written; otherwise one row under the fresh id the repository assigns, which is returned; the store stays valid |

## Left out

- Concurrency and the row lock behind `findAndLockById` (`for update`, lock wait timeouts): every `@Transactional` method is one atomic step, and `FindAndLockById` is `FindById`.
- JdbcClient, SQL text, `GeneratedKeyHolder` and rollback: the tables are maps and a set. A generated id is the table's next counter value, which is always above every stored key.
- A failed insert does not advance the id counter here. In the database an auto-increment counter may skip values.
- The unique index on `users.email` and the foreign keys of `bookings` live in a schema file that is not part of this model. They are the store invariants `EmailsUnique` and `BookingsValid`. A duplicate address is the repository's `DuplicateKey` failure.
- The bookings table is a set, so inserting a pair already present changes nothing. The service never does this, because it checks `find` first.
- `ORDER BY` depends on the database collation. It is modelled as a comparison of ASCII-folded characters. This is the case-insensitive order that the book and user tests assert. `WHERE` clauses compare exactly. For rows whose keys differ only in letter case the order is not fixed.
- Repositories.AuthorRepository.FindAll: sorts by the case-insensitive name order only. The author tests assert `String`'s natural order, which is case-sensitive with upper case first. This model does not promise that order: `["b", "C"]` is sorted ignoring case but not in natural order.
- Rows read back are rebuilt as `Book` objects without re-checking the year against the clock. The row mapper would call the constructor, which compares with `LocalDate.now()`.
- `LocalDate.now()` is a parameter: `currentYear` for `Book.New`, `today` for `NewAuthor` and `AuthorService.Create`. A date is a (year, month, day) triple, compared field by field, and it is not checked to be a calendar date.
- Domain.Book.ReturnBook: does not model Java `int` overflow at 2^31 - 1. Ids are unbounded integers rather than `long`.
- `String.isBlank` is `Text.IsBlank`, over the exact list of code points that `Character.isWhitespace` accepts. A Dafny character is a Unicode scalar value, so a Java string holding an unpaired UTF-16 surrogate has no counterpart here.
- Java `null` arguments are not modelled, and strings are never null. In the source a null name, title or birthdate raises `NullPointerException`. A null e-mail is tested explicitly and raises `IllegalArgumentException` with the e-mail message.
- Services.AuthorService.FindById: its contract holds only in a store where each author row is keyed by its own id (`AuthorsValid`); the repository query itself is unconditional.
- `findBooksByAuthor` queries by the author's name, so two authors of one name get the same list. This is the source's behaviour, and `SameNameSameBooks` states it.
- The pure delegations `UserService.findAll`, `findById`, `findByName` and `findByEmail`, `AuthorService.findAll`, and `BookService` are not modelled. They return the repository's results, and the repository functions carry the contracts.
- `ConsoleUI` is console I/O and is not modelled, nor are the `*RepositoryInt` interfaces.
- Duplicate-row failures of `.optional()` are modelled (`IncorrectResultSize`). Other `DataAccessException`s are not.
