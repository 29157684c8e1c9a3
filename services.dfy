/** The two services of the core. Each public method is one transaction, run as a single
    atomic step over the shared database. */
module Services {
  import opened Wrappers
  import opened Errors
  import opened Domain
  import opened Listing
  import opened Repositories
  import Rental

  class UserService {
    const users: UserRepository
    const books: BookRepository
    const bookings: BookingRepository
    const db: Database

    /** The three repositories work on one database. */
    ghost predicate Wired() {
      users.db == db && books.db == db && bookings.db == db
    }

    constructor (users: UserRepository, books: BookRepository, bookings: BookingRepository)
      requires users.db == books.db == bookings.db
      ensures this.users == users && this.books == books && this.bookings == bookings && Wired()
    {
      this.users, this.books, this.bookings := users, books, bookings;
      this.db := users.db;
    }

    /** findBooksByUserId: UserNotFound for an unknown user, else the books the user holds,
        by title. */
    function FindBooksByUserId(userId: int): (r: Result<seq<BookRow>, Error>)
      requires Wired()
      reads db
      ensures StoreValid(db.Snapshot()) ==> (r == Failure(UserNotFound(userId)) <==> userId !in db.users)
      ensures StoreValid(db.Snapshot()) && userId in db.users ==> r.Success?
      ensures r.Success? ==> SortedBy(r.value, TitleOf)
      ensures r.Success? ==> forall k :: k in db.books && Booking(userId, db.books[k].id) in db.bookings ==> db.books[k] in r.value
      ensures r.Success? ==> forall i :: 0 <= i < |r.value| ==>
        r.value[i] in db.books.Values && Booking(userId, r.value[i].id) in db.bookings
      ensures r.Success? ==> |r.value| == |set k | k in db.books && Booking(userId, db.books[k].id) in db.bookings|
    {
      match users.FindById(userId)
      case Failure(e) => Failure(e)
      case Success(None) => Failure(UserNotFound(userId))
      case Success(Some(_)) => Success(books.FindBooksByUserId(userId))
    }

    /** create(name, email): validated as new User(1, name, email), then inserted; the
        unique index's DuplicateKey becomes EmailAlreadyExists. A failure changes nothing. */
    method Create(name: string, email: string) returns (r: Result<int, Error>)
      requires Wired() && db.Valid()
      modifies db
      ensures db.Valid()
      ensures NewUser(1, name, email).Failure? ==> r == Failure(NewUser(1, name, email).error)
      ensures r == Failure(EmailAlreadyExists(email)) <==> NewUser(1, name, email).Success? && old(users.EmailTaken(email))
      ensures r.Success? <==> NewUser(1, name, email).Success? && !old(users.EmailTaken(email))
      ensures r.Failure? ==> db.Snapshot() == old(db.Snapshot())
      ensures r.Success? ==> NewUser(1, name, email).Success? && r.value >= 1 && r.value !in old(db.users)
      ensures r.Success? ==> db.Snapshot() == old(db.Snapshot()).(
        users := old(db.users)[r.value := User(r.value, name, email)],
        nextUserId := r.value + 1)
    {
      var user := NewUser(1, name, email);
      if user.Failure? {
        return Failure(user.error);
      }
      var id := users.Create(user.value);
      if id.Failure? {
        return Failure(EmailAlreadyExists(email));
      }
      return Success(id.value);
    }

    /** rentBook(userId, bookId), as Rental.Rent describes it. */
    method RentBook(userId: int, bookId: int) returns (r: Outcome<Error>)
      requires Wired() && db.Valid()
      modifies db
      ensures db.Valid()
      ensures r == Rental.Rent(old(db.Snapshot()), userId, bookId).outcome
      ensures db.Snapshot() == Rental.Rent(old(db.Snapshot()), userId, bookId).after
    {
      ghost var s := db.Snapshot();
      Rental.RentKeepsValid(s, userId, bookId);
      var found := users.FindById(userId);
      if found.value.None? {
        return Fail(UserNotFound(userId));
      }
      var user := found.value.value;
      var locked := books.FindAndLockById(bookId);
      if locked.value.None? {
        return Fail(BookNotFound(bookId));
      }
      assert RowValid(locked.value.value);
      var book := new Book(locked.value.value);
      if book.available <= 0 {
        return Fail(BookNotFoundTitle(NotAvailableForRent));
      }
      if bookings.Find(user.id, book.id).Some? {
        return Fail(BookAlreadyBorrowed);
      }
      assert user.id == userId && book.id == bookId;
      assert Rental.Rent(s, userId, bookId) == Rental.Step(Pass,
        s.(bookings := s.bookings + {Booking(userId, bookId)}, books := Rental.Moved(s, bookId, -1)));
      Lend(user.id, book);
      return Pass;
    }

    /** The writes of a successful rentBook: the booking row, then one copy off the shelf
        through the entity, then the row written back. */
    method Lend(userId: int, book: Book)
      requires Wired() && book.Valid() && book.id in db.books && book.Row() == db.books[book.id]
      requires userId >= 1 && book.available >= 1
      modifies db, book
      ensures db.Snapshot() == old(db.Snapshot()).(
        bookings := old(db.bookings) + {Booking(userId, book.id)},
        books := Rental.Moved(old(db.Snapshot()), book.id, -1))
    {
      var booking := NewBooking(userId, book.id);
      bookings.Create(booking.value);
      var rented := book.RentBook();
      books.Update(book);
    }

    /** returnBook(userId, bookId), as Rental.Return describes it. */
    method ReturnBook(userId: int, bookId: int) returns (r: Outcome<Error>)
      requires Wired() && db.Valid()
      modifies db
      ensures db.Valid()
      ensures r == Rental.Return(old(db.Snapshot()), userId, bookId).outcome
      ensures db.Snapshot() == Rental.Return(old(db.Snapshot()), userId, bookId).after
    {
      ghost var s := db.Snapshot();
      Rental.ReturnKeepsValid(s, userId, bookId);
      var found := users.FindById(userId);
      if found.value.None? {
        return Fail(UserNotFound(userId));
      }
      var user := found.value.value;
      var locked := books.FindAndLockById(bookId);
      if locked.value.None? {
        return Fail(BookNotFound(bookId));
      }
      assert RowValid(locked.value.value);
      var book := new Book(locked.value.value);
      if bookings.Find(user.id, book.id).None? {
        return Fail(BookNotBorrowed);
      }
      StoredBookingValid(s, Booking(userId, bookId));
      assert user.id == userId && book.id == bookId;
      assert Rental.Return(s, userId, bookId) == Rental.Step(Pass,
        s.(bookings := s.bookings - {Booking(userId, bookId)}, books := Rental.Moved(s, bookId, 1)));
      Restock(user.id, book);
      return Pass;
    }

    /** The writes of a successful returnBook: the booking row deleted, then one copy back
        on the shelf through the entity, then the row written back. */
    method Restock(userId: int, book: Book)
      requires Wired() && book.Valid() && book.id in db.books && book.Row() == db.books[book.id]
      requires userId >= 1 && Booking(userId, book.id) in db.bookings
      modifies db, book
      ensures db.Snapshot() == old(db.Snapshot()).(
        bookings := old(db.bookings) - {Booking(userId, book.id)},
        books := Rental.Moved(old(db.Snapshot()), book.id, 1))
    {
      var booking := NewBooking(userId, book.id);
      bookings.Delete(booking.value);
      book.ReturnBook();
      books.Update(book);
    }
  }

  class AuthorService {
    const authors: AuthorRepository
    const books: BookRepository
    const db: Database

    ghost predicate Wired() {
      authors.db == db && books.db == db
    }

    constructor (authors: AuthorRepository, books: BookRepository)
      requires authors.db == books.db
      ensures this.authors == authors && this.books == books && Wired()
    {
      this.authors, this.books := authors, books;
      this.db := authors.db;
    }

    /** findById: the author stored under the id, or none. */
    function FindById(id: int): (r: Result<Option<Author>, Error>)
      requires Wired()
      reads db
      ensures AuthorsValid(db.Snapshot()) ==> r == Success(if id in db.authors then Some(db.authors[id]) else None)
    {
      authors.FindById(id)
    }

    /** findByName: the author of that name, none, or a failure when several share it. */
    function FindByName(name: string): (r: Result<Option<Author>, Error>)
      requires Wired()
      reads db
      ensures r.Success? && r.value.Some? ==> r.value.value in db.authors.Values && r.value.value.name == name
      ensures r == Success(None) <==> forall k :: k in db.authors ==> db.authors[k].name != name
      ensures r.Failure? <==>
        exists k1, k2 :: k1 in db.authors && k2 in db.authors && k1 != k2 && db.authors[k1].name == name && db.authors[k2].name == name
    {
      authors.FindByName(name)
    }

    /** findBooksByAuthor: AuthorNotFound for an unknown id, else the books of every author
        who carries that author's name, by title. */
    function FindBooksByAuthor(authorId: int): (r: Result<seq<BookRow>, Error>)
      requires Wired()
      reads db
      ensures AuthorsValid(db.Snapshot()) ==> (r == Failure(AuthorNotFound(authorId)) <==> authorId !in db.authors)
      ensures AuthorsValid(db.Snapshot()) && authorId in db.authors ==> r.Success?
      ensures r.Success? ==> SortedBy(r.value, TitleOf)
      ensures AuthorsValid(db.Snapshot()) && r.Success? ==> forall k :: k in db.books && ByAuthorName(db.authors, db.books[k], db.authors[authorId].name) ==>
        db.books[k] in r.value
      ensures AuthorsValid(db.Snapshot()) && r.Success? ==> forall i :: 0 <= i < |r.value| ==>
        r.value[i] in db.books.Values && ByAuthorName(db.authors, r.value[i], db.authors[authorId].name)
      ensures AuthorsValid(db.Snapshot()) && r.Success? ==>
        |r.value| == |set k | k in db.books && ByAuthorName(db.authors, db.books[k], db.authors[authorId].name)|
    {
      match authors.FindById(authorId)
      case Failure(e) => Failure(e)
      case Success(None) => Failure(AuthorNotFound(authorId))
      case Success(Some(a)) => Success(books.FindByAuthorName(a.name))
    }

    /** The query goes through the author's name, not the id: two authors of one name are
        given the same list, each other's books included. */
    lemma SameNameSameBooks(a1: int, a2: int)
      requires Wired() && AuthorsValid(db.Snapshot())
      requires a1 in db.authors && a2 in db.authors && db.authors[a1].name == db.authors[a2].name
      ensures FindBooksByAuthor(a1) == FindBooksByAuthor(a2)
      ensures forall k :: k in db.books && db.books[k].authorId == a2 ==> db.books[k] in FindBooksByAuthor(a1).value
    {
      assert FindBooksByAuthor(a1) == Success(books.FindByAuthorName(db.authors[a1].name));
    }

    /** create(name, birthdate): validated as new Author(1, name, birthdate) against today,
        then inserted under the next generated id. A failure changes nothing. */
    method Create(name: string, birthdate: Date, today: Date) returns (r: Result<int, Error>)
      requires Wired() && db.Valid()
      modifies db
      ensures db.Valid()
      ensures r.Failure? <==> NewAuthor(1, name, birthdate, today).Failure?
      ensures r.Failure? ==> r.error == NewAuthor(1, name, birthdate, today).error && db.Snapshot() == old(db.Snapshot())
      ensures r.Success? ==> r.value == old(db.nextAuthorId) && r.value >= 1 && r.value !in old(db.authors)
      ensures r.Success? ==> db.Snapshot() == old(db.Snapshot()).(
        authors := old(db.authors)[r.value := Author(r.value, name, birthdate)],
        nextAuthorId := r.value + 1)
    {
      var author := NewAuthor(1, name, birthdate, today);
      if author.Failure? {
        return Failure(author.error);
      }
      var id := authors.Create(author.value);
      return Success(id);
    }
  }
}
