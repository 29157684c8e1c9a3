/** The store behind the JdbcClient repositories, held as four in-memory tables, and the
    repositories that read and write it. The tables are maps from primary key to row,
    except bookings, which is a set of (user, book) pairs; ids that the database would
    generate come from per-table counters. */
module Repositories {
  import opened Wrappers
  import opened Errors
  import opened Text
  import opened Domain
  import opened Listing

  /** The contents of the database at one moment. */
  datatype Store = Store(
    users: map<int, User>,
    authors: map<int, Author>,
    books: map<int, BookRow>,
    bookings: set<Booking>,
    nextUserId: int,       // the next id the users table generates
    nextAuthorId: int)     // the next id the authors table generates

  /** Every user row is keyed by its id, lies below the counter and was accepted by the
      User constructor. */
  predicate UsersValid(s: Store) {
    forall k :: k in s.users ==> s.users[k].id == k && k < s.nextUserId && UserValid(s.users[k])
  }

  /** The unique index on users.email. */
  predicate EmailsUnique(users: map<int, User>) {
    forall k1, k2 :: k1 in users && k2 in users && users[k1].email == users[k2].email ==> k1 == k2
  }

  predicate AuthorsValid(s: Store) {
    forall k :: k in s.authors ==> s.authors[k].id == k && k < s.nextAuthorId && AuthorValid(s.authors[k])
  }

  /** Every book row is keyed by its id and has a non-negative counter. */
  predicate BooksValid(books: map<int, BookRow>) {
    forall k :: k in books ==> books[k].id == k && RowValid(books[k])
  }

  /** Every booking names a stored user and a stored book. */
  predicate BookingsValid(s: Store) {
    forall b :: b in s.bookings ==> b.userId in s.users && b.bookId in s.books
  }

  predicate StoreValid(s: Store) {
    && s.nextUserId >= 1 && s.nextAuthorId >= 1
    && UsersValid(s) && EmailsUnique(s.users) && AuthorsValid(s)
    && BooksValid(s.books) && BookingsValid(s)
  }

  /** A booking of a valid store has positive ids, as the Booking constructor demands. */
  lemma StoredBookingValid(s: Store, b: Booking)
    requires StoreValid(s) && b in s.bookings
    ensures BookingValid(b)
  {
    assert s.users[b.userId].id == b.userId;
    assert s.books[b.bookId].id == b.bookId;
  }

  /** The database: the four tables and the two id generators. */
  class Database {
    var users: map<int, User>
    var authors: map<int, Author>
    var books: map<int, BookRow>
    var bookings: set<Booking>
    var nextUserId: int
    var nextAuthorId: int

    function Snapshot(): Store
      reads this
    {
      Store(users, authors, books, bookings, nextUserId, nextAuthorId)
    }

    ghost predicate Valid()
      reads this
    {
      StoreValid(Snapshot())
    }

    constructor (s: Store)
      requires StoreValid(s)
      ensures Snapshot() == s && Valid()
    {
      users, authors, books, bookings := s.users, s.authors, s.books, s.bookings;
      nextUserId, nextAuthorId := s.nextUserId, s.nextAuthorId;
    }
  }

  /** The row's author carries the given name; a book whose author_id has no author row
      drops out of the JOIN. */
  predicate ByAuthorName(authors: map<int, Author>, row: BookRow, name: string) {
    row.authorId in authors && authors[row.authorId].name == name
  }

  function TitleOf(row: BookRow): string { row.title }
  function NameOf(u: User): string { u.name }
  function AuthorNameOf(a: Author): string { a.name }

  // ---------------------------------------------------------------------------

  class BookingRepository {
    const db: Database

    constructor (db: Database)
      ensures this.db == db
    {
      this.db := db;
    }

    /** SELECT … FROM bookings WHERE user_id = ? AND book_id = ?. */
    function Find(userId: int, bookId: int): (r: Option<Booking>)
      reads db
      ensures r.Some? <==> Booking(userId, bookId) in db.bookings
      ensures r.Some? ==> r.value.userId == userId && r.value.bookId == bookId
    {
      if Booking(userId, bookId) in db.bookings then Some(Booking(userId, bookId)) else None
    }

    /** INSERT INTO bookings: afterwards the pair is found, and nothing else changed. */
    method Create(booking: Booking)
      modifies db
      ensures db.Snapshot() == old(db.Snapshot()).(bookings := old(db.bookings) + {booking})
      ensures Find(booking.userId, booking.bookId) == Some(booking)
      ensures forall b :: b != booking ==> (b in db.bookings <==> b in old(db.bookings))
    {
      db.bookings := db.bookings + {booking};
    }

    /** DELETE FROM bookings: afterwards the pair is gone; an absent pair changes nothing. */
    method Delete(booking: Booking)
      modifies db
      ensures db.Snapshot() == old(db.Snapshot()).(bookings := old(db.bookings) - {booking})
      ensures Find(booking.userId, booking.bookId) == None
      ensures forall b :: b != booking ==> (b in db.bookings <==> b in old(db.bookings))
      ensures booking !in old(db.bookings) ==> db.Snapshot() == old(db.Snapshot())
    {
      db.bookings := db.bookings - {booking};
    }
  }

  // ---------------------------------------------------------------------------

  class BookRepository {
    const db: Database

    constructor (db: Database)
      ensures this.db == db
    {
      this.db := db;
    }

    /** SELECT … FROM books ORDER BY title: every book, once each, by title. */
    function FindAll(): (r: seq<BookRow>)
      reads db
      ensures SortedBy(r, TitleOf) && |r| == |db.books|
      ensures forall k :: k in db.books ==> db.books[k] in r
      ensures forall i :: 0 <= i < |r| ==> r[i] in db.books.Values
    {
      var keep := (row: BookRow) => true;
      KeepAll(db.books, keep);
      Query(db.books, keep, TitleOf)
    }

    /** … WHERE year = :year ORDER BY title. */
    function FindByYear(year: int): (r: seq<BookRow>)
      reads db
      ensures SortedBy(r, TitleOf)
      ensures forall k :: k in db.books && db.books[k].year == year ==> db.books[k] in r
      ensures forall i :: 0 <= i < |r| ==> r[i] in db.books.Values && r[i].year == year
      ensures |r| == |set k | k in db.books && db.books[k].year == year|
    {
      var keep := (row: BookRow) => row.year == year;
      SelectedKeys(db.books, keep, set k | k in db.books && db.books[k].year == year);
      Query(db.books, keep, TitleOf)
    }

    /** … JOIN authors a ON b.author_id = a.id WHERE a.name = ? ORDER BY b.title. */
    function FindByAuthorName(name: string): (r: seq<BookRow>)
      reads db
      ensures SortedBy(r, TitleOf)
      ensures forall k :: k in db.books && ByAuthorName(db.authors, db.books[k], name) ==> db.books[k] in r
      ensures forall i :: 0 <= i < |r| ==> r[i] in db.books.Values && ByAuthorName(db.authors, r[i], name)
      ensures |r| == |set k | k in db.books && ByAuthorName(db.authors, db.books[k], name)|
    {
      var authors := db.authors;
      var keep := (row: BookRow) => row.authorId in authors && authors[row.authorId].name == name;
      SelectedKeys(db.books, keep, set k | k in db.books && ByAuthorName(db.authors, db.books[k], name));
      Query(db.books, keep, TitleOf)
    }

    /** … WHERE available > 0, or WHERE available = 0 when asked for the books out of stock. */
    function FindByAvailability(available: bool): (r: seq<BookRow>)
      reads db
      ensures SortedBy(r, TitleOf)
      ensures forall k :: k in db.books && (if available then db.books[k].available > 0 else db.books[k].available == 0) ==>
        db.books[k] in r
      ensures forall i :: 0 <= i < |r| ==>
        r[i] in db.books.Values && (if available then r[i].available > 0 else r[i].available == 0)
      ensures available ==> |r| == |set k | k in db.books && db.books[k].available > 0|
      ensures !available ==> |r| == |set k | k in db.books && db.books[k].available == 0|
    {
      if available then
        var inStock := (row: BookRow) => row.available > 0;
        SelectedKeys(db.books, inStock, set k | k in db.books && db.books[k].available > 0);
        Query(db.books, inStock, TitleOf)
      else
        var outOfStock := (row: BookRow) => row.available == 0;
        SelectedKeys(db.books, outOfStock, set k | k in db.books && db.books[k].available == 0);
        Query(db.books, outOfStock, TitleOf)
    }

    /** … WHERE id = :id, through `.optional()`: the row stored under the id, or none. */
    function FindById(id: int): (r: Result<Option<BookRow>, Error>)
      reads db
      ensures BooksValid(db.books) ==> r == Success(if id in db.books then Some(db.books[id]) else None)
    {
      var keep := (row: BookRow) => row.id == id;
      SingleMatchKey(db.books, keep, id);
      SingleMatch(db.books, keep)
    }

    /** … WHERE id = :id FOR UPDATE: the same row as FindById; the lock it takes is what
        makes the service's read-modify-write one atomic step. */
    function FindAndLockById(id: int): (r: Result<Option<BookRow>, Error>)
      reads db
      ensures BooksValid(db.books) ==> r == Success(if id in db.books then Some(db.books[id]) else None)
    {
      var keep := (row: BookRow) => row.id == id;
      SingleMatchKey(db.books, keep, id);
      SingleMatch(db.books, keep)
    }

    /** … WHERE title = :title, through `.optional()`: titles are not unique, so several
        matching rows make it fail. */
    function FindByTitle(title: string): (r: Result<Option<BookRow>, Error>)
      reads db
      ensures r.Success? && r.value.Some? ==> r.value.value in db.books.Values && r.value.value.title == title
      ensures r == Success(None) <==> forall k :: k in db.books ==> db.books[k].title != title
      ensures r.Failure? <==>
        exists k1, k2 :: k1 in db.books && k2 in db.books && k1 != k2 && db.books[k1].title == title && db.books[k2].title == title
    {
      SingleMatch(db.books, (row: BookRow) => row.title == title)
    }

    /** … JOIN bookings bk ON b.id = bk.book_id WHERE bk.user_id = ? ORDER BY b.title:
        the books the user holds, by title. */
    function FindBooksByUserId(userId: int): (r: seq<BookRow>)
      reads db
      ensures SortedBy(r, TitleOf)
      ensures forall k :: k in db.books && Booking(userId, db.books[k].id) in db.bookings ==> db.books[k] in r
      ensures forall i :: 0 <= i < |r| ==> r[i] in db.books.Values && Booking(userId, r[i].id) in db.bookings
      ensures |r| == |set k | k in db.books && Booking(userId, db.books[k].id) in db.bookings|
    {
      var bookings := db.bookings;
      var keep := (row: BookRow) => Booking(userId, row.id) in bookings;
      SelectedKeys(db.books, keep, set k | k in db.books && Booking(userId, db.books[k].id) in db.bookings);
      Query(db.books, keep, TitleOf)
    }

    /** UPDATE books SET … WHERE id = ?: overwrites the row with the book's id and no
        other; with no such row nothing changes. */
    method Update(book: Book)
      modifies db
      ensures db.Snapshot() == old(db.Snapshot()).(books :=
        if book.id in old(db.books) then old(db.books)[book.id := book.Row()] else old(db.books))
      ensures forall k :: k in old(db.books) && k != book.id ==> k in db.books && db.books[k] == old(db.books[k])
      ensures old(db.Valid()) && book.Valid() ==> db.Valid()
    {
      if book.id in db.books {
        db.books := db.books[book.id := book.Row()];
      }
    }
  }

  // ---------------------------------------------------------------------------

  class UserRepository {
    const db: Database

    constructor (db: Database)
      ensures this.db == db
    {
      this.db := db;
    }

    /** SELECT … FROM users ORDER BY name: every user, once each, by name. */
    function FindAll(): (r: seq<User>)
      reads db
      ensures SortedBy(r, NameOf) && |r| == |db.users|
      ensures forall k :: k in db.users ==> db.users[k] in r
      ensures forall i :: 0 <= i < |r| ==> r[i] in db.users.Values
    {
      var keep := (u: User) => true;
      KeepAll(db.users, keep);
      Query(db.users, keep, NameOf)
    }

    /** … WHERE id = ?: the user stored under the id, or none. */
    function FindById(id: int): (r: Result<Option<User>, Error>)
      reads db
      ensures UsersValid(db.Snapshot()) ==> r == Success(if id in db.users then Some(db.users[id]) else None)
    {
      var keep := (u: User) => u.id == id;
      SingleMatchKey(db.users, keep, id);
      SingleMatch(db.users, keep)
    }

    /** … WHERE name = ?: names are not unique, so several matching rows make it fail. */
    function FindByName(name: string): (r: Result<Option<User>, Error>)
      reads db
      ensures r.Success? && r.value.Some? ==> r.value.value in db.users.Values && r.value.value.name == name
      ensures r == Success(None) <==> forall k :: k in db.users ==> db.users[k].name != name
      ensures r.Failure? <==>
        exists k1, k2 :: k1 in db.users && k2 in db.users && k1 != k2 && db.users[k1].name == name && db.users[k2].name == name
    {
      SingleMatch(db.users, (u: User) => u.name == name)
    }

    /** … WHERE email = ?: e-mails are unique, so this finds the one user with that
        address, or none, and never fails. */
    function FindByEmail(email: string): (r: Result<Option<User>, Error>)
      reads db
      ensures r.Success? && r.value.Some? ==> r.value.value in db.users.Values && r.value.value.email == email
      ensures r == Success(None) <==> forall k :: k in db.users ==> db.users[k].email != email
      ensures EmailsUnique(db.users) ==> r.Success?
    {
      var keep := (u: User) => u.email == email;
      if EmailsUnique(db.users) then
        SingleMatchUnique(db.users, keep);
        SingleMatch(db.users, keep)
      else
        SingleMatch(db.users, keep)
    }

    /** Whether the unique index on email already holds the address. */
    predicate EmailTaken(email: string)
      reads db
    {
      exists k :: k in db.users && db.users[k].email == email
    }

    /** INSERT INTO users(name, email): the generated id, or DuplicateKey when the e-mail
        is taken, in which case nothing changes. */
    method Create(user: User) returns (r: Result<int, Error>)
      modifies db
      ensures r.Failure? <==> old(EmailTaken(user.email))
      ensures r.Failure? ==> r.error == DuplicateKey && db.Snapshot() == old(db.Snapshot())
      ensures r.Success? ==> r.value == old(db.nextUserId)
      ensures r.Success? ==> db.Snapshot() == old(db.Snapshot()).(
        users := old(db.users)[r.value := User(r.value, user.name, user.email)],
        nextUserId := r.value + 1)
      ensures r.Success? && old(db.Valid()) ==> r.value >= 1 && r.value !in old(db.users)
      ensures old(db.Valid()) && !IsBlank(user.name) && Email.IsEmail(user.email) ==> db.Valid()
    {
      if EmailTaken(user.email) {
        return Failure(DuplicateKey);
      }
      var id := db.nextUserId;
      db.users := db.users[id := User(id, user.name, user.email)];
      db.nextUserId := id + 1;
      return Success(id);
    }
  }

  // ---------------------------------------------------------------------------

  class AuthorRepository {
    const db: Database

    constructor (db: Database)
      ensures this.db == db
    {
      this.db := db;
    }

    /** SELECT … FROM authors ORDER BY name: every author, once each, by name. */
    function FindAll(): (r: seq<Author>)
      reads db
      ensures SortedBy(r, AuthorNameOf) && |r| == |db.authors|
      ensures forall k :: k in db.authors ==> db.authors[k] in r
      ensures forall i :: 0 <= i < |r| ==> r[i] in db.authors.Values
    {
      var keep := (a: Author) => true;
      KeepAll(db.authors, keep);
      Query(db.authors, keep, AuthorNameOf)
    }

    /** … WHERE id = ?: the author stored under the id, or none. */
    function FindById(id: int): (r: Result<Option<Author>, Error>)
      reads db
      ensures AuthorsValid(db.Snapshot()) ==> r == Success(if id in db.authors then Some(db.authors[id]) else None)
    {
      var keep := (a: Author) => a.id == id;
      SingleMatchKey(db.authors, keep, id);
      SingleMatch(db.authors, keep)
    }

    /** … WHERE name = ?: several authors of that name make it fail. */
    function FindByName(name: string): (r: Result<Option<Author>, Error>)
      reads db
      ensures r.Success? && r.value.Some? ==> r.value.value in db.authors.Values && r.value.value.name == name
      ensures r == Success(None) <==> forall k :: k in db.authors ==> db.authors[k].name != name
      ensures r.Failure? <==>
        exists k1, k2 :: k1 in db.authors && k2 in db.authors && k1 != k2 && db.authors[k1].name == name && db.authors[k2].name == name
    {
      SingleMatch(db.authors, (a: Author) => a.name == name)
    }

    /** INSERT INTO authors(name, birthdate): the generated id, under which the row is
        then stored. */
    method Create(author: Author) returns (id: int)
      modifies db
      ensures id == old(db.nextAuthorId)
      ensures db.Snapshot() == old(db.Snapshot()).(
        authors := old(db.authors)[id := Author(id, author.name, author.birthdate)],
        nextAuthorId := id + 1)
      ensures old(db.Valid()) ==> id >= 1 && id !in old(db.authors)
      ensures old(db.Valid()) && !IsBlank(author.name) ==> db.Valid()
    {
      id := db.nextAuthorId;
      db.authors := db.authors[id := Author(id, author.name, author.birthdate)];
      db.nextAuthorId := id + 1;
    }
  }
}
