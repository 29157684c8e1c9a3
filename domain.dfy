/** The four domain classes. Book keeps its counter of available copies in a mutable
    field; User, Author and Booking are immutable values whose Java constructors only
    validate their arguments, so each becomes a datatype with a checking function. */
module Domain {
  import opened Wrappers
  import opened Errors
  import opened Text
  import opened Email

  // ---------------------------------------------------------------------------
  // Book

  /** A row of the books table: the five columns the queries select. */
  datatype BookRow = BookRow(id: int, title: string, year: int, authorId: int, available: int)

  /** A row that the Book constructor accepts in some year: the year's upper bound
      depends on the clock and is left to CheckBook. */
  predicate RowValid(row: BookRow) {
    row.id >= 1 && !IsBlank(row.title) && row.year >= 1 && row.authorId >= 1 && row.available >= 0
  }

  /** The Book constructor's checks, in the order it makes them. */
  function CheckBook(id: int, title: string, year: int, authorId: int, available: int,
                     currentYear: int): (r: Outcome<Error>)
    ensures r == Pass <==> id >= 1 && !IsBlank(title) && 1 <= year <= currentYear && authorId >= 1 && available >= 0
    ensures r == Pass ==> RowValid(BookRow(id, title, year, authorId, available))
    ensures id < 1 ==> r == Fail(IllegalArgument(BookIdMessage))
    ensures id >= 1 && IsBlank(title) ==> r == Fail(IllegalArgument(BookTitleMessage))
    ensures id >= 1 && !IsBlank(title) && (year < 1 || year > currentYear) ==>
      r == Fail(IllegalArgument(BookYearMessage))
    ensures id >= 1 && !IsBlank(title) && 1 <= year <= currentYear && authorId < 1 ==>
      r == Fail(IllegalArgument(BookAuthorIdMessage))
    ensures id >= 1 && !IsBlank(title) && 1 <= year <= currentYear && authorId >= 1 && available < 0 ==>
      r == Fail(IllegalArgument(BookAvailableMessage))
  {
    if id < 1 then Fail(IllegalArgument(BookIdMessage))
    else if IsBlank(title) then Fail(IllegalArgument(BookTitleMessage))
    else if currentYear < year || year < 1 then Fail(IllegalArgument(BookYearMessage))
    else if authorId < 1 then Fail(IllegalArgument(BookAuthorIdMessage))
    else if available < 0 then Fail(IllegalArgument(BookAvailableMessage))
    else Pass
  }

  /** What rentBook does to the counter: one copy fewer, or a failure when none is left. */
  function RentStock(available: int): (r: Result<int, Error>)
    ensures r.Success? <==> available >= 1
    ensures r.Success? ==> r.value == available - 1 && r.value >= 0
    ensures r.Failure? ==> r.error == IllegalArgument(BookNotAvailableMessage)
  {
    if available < 1 then Failure(IllegalArgument(BookNotAvailableMessage)) else Success(available - 1)
  }

  /** A book with its immutable columns and its mutable stock counter. */
  class Book {
    const id: int
    const title: string
    const year: int
    const authorId: int
    var available: int

    /** The columns update writes back. */
    function Row(): BookRow
      reads this
    {
      BookRow(id, title, year, authorId, available)
    }

    ghost predicate Valid()
      reads this
    {
      RowValid(Row())
    }

    /** The object a query's row mapper builds from a stored row. */
    constructor (row: BookRow)
      requires RowValid(row)
      ensures Row() == row && Valid()
    {
      id, title, year, authorId, available := row.id, row.title, row.year, row.authorId, row.available;
    }

    /** new Book(id, title, year, authorId, available), with the current year passed in. */
    static method New(id: int, title: string, year: int, authorId: int, available: int, currentYear: int)
      returns (r: Result<Book, Error>)
      ensures r.Success? <==> CheckBook(id, title, year, authorId, available, currentYear) == Pass
      ensures r.Failure? ==> r.error == CheckBook(id, title, year, authorId, available, currentYear).error
      ensures r.Success? ==>
        fresh(r.value) && r.value.Valid() && r.value.Row() == BookRow(id, title, year, authorId, available)
    {
      var check := CheckBook(id, title, year, authorId, available, currentYear);
      if check.Fail? {
        return Failure(check.error);
      }
      var book := new Book(BookRow(id, title, year, authorId, available));
      return Success(book);
    }

    /** rentBook: takes one copy, or fails and leaves the counter alone. */
    method RentBook() returns (r: Outcome<Error>)
      modifies this
      ensures RentStock(old(available)).Success? ==> r == Pass && available == RentStock(old(available)).value
      ensures RentStock(old(available)).Failure? ==> r == Fail(RentStock(old(available)).error) && available == old(available)
      ensures old(Valid()) ==> Valid()
    {
      if available < 1 {
        return Fail(IllegalArgument(BookNotAvailableMessage));
      }
      available := available - 1;
      return Pass;
    }

    /** returnBook: one copy more, with no upper bound. */
    method ReturnBook()
      modifies this
      ensures available == old(available) + 1
      ensures old(Valid()) ==> Valid()
    {
      available := available + 1;
    }
  }

  /** A call of rentBook or returnBook on one Book. */
  datatype StockOp = RentOp | ReturnOp

  /** The counter after a sequence of calls, a failed rent leaving it as it was. */
  function ApplyStock(available: int, ops: seq<StockOp>): (r: int)
    ensures available >= 0 ==> r >= 0
    ensures available - |ops| <= r <= available + |ops|
    decreases |ops|
  {
    if ops == [] then available
    else
      var next := if ops[0] == ReturnOp then available + 1
                  else if RentStock(available).Success? then RentStock(available).value
                  else available;
      ApplyStock(next, ops[1..])
  }

  /** rentBook then returnBook restores the counter; returnBook then rentBook too. */
  lemma RentReturnRestores(available: int)
    requires available >= 1
    ensures ApplyStock(available, [RentOp, ReturnOp]) == available
    ensures ApplyStock(available, [ReturnOp, RentOp]) == available
  {
    assert [RentOp, ReturnOp][1..] == [ReturnOp];
    assert [ReturnOp, RentOp][1..] == [RentOp];
    assert [ReturnOp][1..] == [] && [RentOp][1..] == [];
  }

  /** Counting what a sequence of calls does: every return adds a copy and every rent takes
      at most one, so the counter ends at least at the start plus the returns minus the
      rents; when there are no more rents than copies at the start, no rent ever finds the
      shelf empty and the count is exact. */
  lemma {:induction false} StockCount(available: int, ops: seq<StockOp>)
    ensures ApplyStock(available, ops) >= available + Returns(ops) - Rents(ops)
    ensures available >= Rents(ops) ==> ApplyStock(available, ops) == available + Returns(ops) - Rents(ops)
    decreases |ops|
  {
    if ops != [] {
      var next := if ops[0] == ReturnOp then available + 1
                  else if available >= 1 then available - 1 else available;
      StockCount(next, ops[1..]);
    }
  }

  /** The number of returns in ops. */
  function Returns(ops: seq<StockOp>): (n: nat)
    ensures n <= |ops|
  {
    if ops == [] then 0 else (if ops[0] == ReturnOp then 1 else 0) + Returns(ops[1..])
  }

  /** The number of rents in ops: every call is a rent or a return. */
  function Rents(ops: seq<StockOp>): (n: nat)
    ensures n + Returns(ops) == |ops|
  {
    if ops == [] then 0 else (if ops[0] == RentOp then 1 else 0) + Rents(ops[1..])
  }

  // ---------------------------------------------------------------------------
  // User

  datatype User = User(id: int, name: string, email: string)

  /** A user the User constructor would accept. */
  predicate UserValid(u: User) {
    u.id >= 1 && !IsBlank(u.name) && IsEmail(u.email)
  }

  /** new User(id, name, email): checks id, then name, then the e-mail pattern. */
  function NewUser(id: int, name: string, email: string): (r: Result<User, Error>)
    ensures r.Success? <==> id >= 1 && !IsBlank(name) && MatchesEmailRegex(email)
    ensures r.Success? ==> r.value == User(id, name, email) && UserValid(r.value)
    ensures id < 1 ==> r == Failure(IllegalArgument(UserIdMessage))
    ensures id >= 1 && IsBlank(name) ==> r == Failure(IllegalArgument(UserNameMessage))
    ensures id >= 1 && !IsBlank(name) && !MatchesEmailRegex(email) ==> r == Failure(IllegalArgument(UserEmailMessage))
  {
    EmailMatchesRegex(email);
    if id < 1 then Failure(IllegalArgument(UserIdMessage))
    else if IsBlank(name) then Failure(IllegalArgument(UserNameMessage))
    else if !IsEmail(email) then Failure(IllegalArgument(UserEmailMessage))
    else Success(User(id, name, email))
  }

  /** The addresses of UserTest, through the constructor. */
  lemma UserAccepted()
    ensures NewUser(1, "Alice Johnson", "alice@example.com") == Success(User(1, "Alice Johnson", "alice@example.com"))
  {
    AcceptedMatchesRegex();
    assert !IsWhitespace("Alice Johnson"[0]);
    assert !IsBlank("Alice Johnson");
  }

  lemma UserRejected()
    ensures NewUser(1, "Alice Johnson", "@alice@example@.com") == Failure(IllegalArgument(UserEmailMessage))
  {
    RejectedExample();
    assert !IsWhitespace("Alice Johnson"[0]);
    assert !IsBlank("Alice Johnson");
  }

  // ---------------------------------------------------------------------------
  // Author

  /** A LocalDate as its year, month and day. */
  datatype Date = Date(year: int, month: int, day: int)

  /** LocalDate.isAfter: a is later than b, comparing year, then month, then day. */
  predicate IsAfter(a: Date, b: Date) {
    a.year > b.year
    || (a.year == b.year && a.month > b.month)
    || (a.year == b.year && a.month == b.month && a.day > b.day)
  }

  /** isAfter is a strict total order, as the order of the calendar is. */
  lemma DateOrder(a: Date, b: Date, c: Date)
    ensures !IsAfter(a, a)
    ensures IsAfter(a, b) ==> !IsAfter(b, a)
    ensures a == b || IsAfter(a, b) || IsAfter(b, a)
    ensures IsAfter(a, b) && IsAfter(b, c) ==> IsAfter(a, c)
  {
  }

  datatype Author = Author(id: int, name: string, birthdate: Date)

  predicate AuthorValid(a: Author) {
    a.id >= 1 && !IsBlank(a.name)
  }

  /** new Author(id, name, birthdate), with today's date passed in. */
  function NewAuthor(id: int, name: string, birthdate: Date, today: Date): (r: Result<Author, Error>)
    ensures r.Success? <==> id >= 1 && !IsBlank(name) && !IsAfter(birthdate, today)
    ensures r.Success? ==> r.value == Author(id, name, birthdate) && AuthorValid(r.value)
    ensures id < 1 ==> r == Failure(IllegalArgument(AuthorIdMessage))
    ensures id >= 1 && IsBlank(name) ==> r == Failure(IllegalArgument(AuthorNameMessage))
    ensures id >= 1 && !IsBlank(name) && IsAfter(birthdate, today) ==> r == Failure(IllegalArgument(AuthorBirthdateMessage))
  {
    if id < 1 then Failure(IllegalArgument(AuthorIdMessage))
    else if IsBlank(name) then Failure(IllegalArgument(AuthorNameMessage))
    else if IsAfter(birthdate, today) then Failure(IllegalArgument(AuthorBirthdateMessage))
    else Success(Author(id, name, birthdate))
  }

  /** An author born today is accepted; one born tomorrow is not. */
  lemma BirthdateBoundary(id: int, name: string, today: Date)
    requires id >= 1 && !IsBlank(name)
    ensures NewAuthor(id, name, today, today).Success?
    ensures NewAuthor(id, name, today.(day := today.day + 1), today) == Failure(IllegalArgument(AuthorBirthdateMessage))
  {
    DateOrder(today, today, today);
  }

  // ---------------------------------------------------------------------------
  // Booking

  /** A row of the bookings table. */
  datatype Booking = Booking(userId: int, bookId: int)

  predicate BookingValid(b: Booking) {
    b.userId > 0 && b.bookId > 0
  }

  /** new Booking(userId, bookId). */
  function NewBooking(userId: int, bookId: int): (r: Result<Booking, Error>)
    ensures r.Success? <==> userId > 0 && bookId > 0
    ensures r.Success? ==> r.value.userId == userId && r.value.bookId == bookId && BookingValid(r.value)
    ensures r.Failure? ==> r.error == IllegalArgument(BookingIdsMessage)
  {
    if userId <= 0 || bookId <= 0 then Failure(IllegalArgument(BookingIdsMessage))
    else Success(Booking(userId, bookId))
  }
}
