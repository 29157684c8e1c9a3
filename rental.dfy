/** What one rentBook or returnBook transaction does to the store, as a function of the
    store before it: the checks in the order UserService makes them, then the writes.
    Each (user, book) pair is NotBorrowed or Borrowed, and each book has a counter of
    copies on the shelf; the lemmas show that the transactions keep the store valid,
    never change the number of copies of a book (on the shelf plus lent out), and undo
    each other. */
module Rental {
  import opened Wrappers
  import opened Errors
  import opened Domain
  import opened Repositories

  /** The outcome of a transaction and the store it leaves behind. */
  datatype Step = Step(outcome: Outcome<Error>, after: Store)

  datatype PairState = NotBorrowed | Borrowed

  function PairOf(s: Store, u: int, b: int): PairState {
    if Booking(u, b) in s.bookings then Borrowed else NotBorrowed
  }

  /** Book b's row with its counter moved by delta. */
  function Moved(s: Store, b: int, delta: int): map<int, BookRow>
    requires b in s.books
  {
    s.books[b := s.books[b].(available := s.books[b].available + delta)]
  }

  /** rentBook(u, b): user, book, a copy on the shelf and no booking yet are checked in
      that order; then the booking is inserted and the counter lowered. */
  function Rent(s: Store, u: int, b: int): (r: Step)
    ensures u !in s.users ==> r == Step(Fail(UserNotFound(u)), s)
    ensures u in s.users && b !in s.books ==> r == Step(Fail(BookNotFound(b)), s)
    ensures u in s.users && b in s.books && s.books[b].available <= 0 ==>
      r == Step(Fail(BookNotFoundTitle(NotAvailableForRent)), s)
    ensures u in s.users && b in s.books && s.books[b].available > 0 && Booking(u, b) in s.bookings ==>
      r == Step(Fail(BookAlreadyBorrowed), s)
    ensures r.outcome == Pass <==>
      u in s.users && b in s.books && s.books[b].available > 0 && PairOf(s, u, b) == NotBorrowed
    ensures r.outcome == Pass ==>
      r.after == s.(bookings := s.bookings + {Booking(u, b)}, books := Moved(s, b, -1))
  {
    if u !in s.users then Step(Fail(UserNotFound(u)), s)
    else if b !in s.books then Step(Fail(BookNotFound(b)), s)
    else if s.books[b].available <= 0 then Step(Fail(BookNotFoundTitle(NotAvailableForRent)), s)
    else if Booking(u, b) in s.bookings then Step(Fail(BookAlreadyBorrowed), s)
    else Step(Pass, s.(bookings := s.bookings + {Booking(u, b)}, books := Moved(s, b, -1)))
  }

  /** returnBook(u, b): user, book and an existing booking are checked in that order; then
      the booking is deleted and the counter raised. */
  function Return(s: Store, u: int, b: int): (r: Step)
    ensures u !in s.users ==> r == Step(Fail(UserNotFound(u)), s)
    ensures u in s.users && b !in s.books ==> r == Step(Fail(BookNotFound(b)), s)
    ensures u in s.users && b in s.books && Booking(u, b) !in s.bookings ==> r == Step(Fail(BookNotBorrowed), s)
    ensures r.outcome == Pass <==> u in s.users && b in s.books && PairOf(s, u, b) == Borrowed
    ensures r.outcome == Pass ==>
      r.after == s.(bookings := s.bookings - {Booking(u, b)}, books := Moved(s, b, 1))
  {
    if u !in s.users then Step(Fail(UserNotFound(u)), s)
    else if b !in s.books then Step(Fail(BookNotFound(b)), s)
    else if Booking(u, b) !in s.bookings then Step(Fail(BookNotBorrowed), s)
    else Step(Pass, s.(bookings := s.bookings - {Booking(u, b)}, books := Moved(s, b, 1)))
  }

  // ---------------------------------------------------------------------------
  // The state machine of a pair.

  /** A successful rent moves the pair from NotBorrowed to Borrowed, and a successful
      return back; every other pair keeps its state, every other book its counter, and
      the users, authors and id generators are untouched. */
  lemma Transitions(s: Store, u: int, b: int)
    ensures Rent(s, u, b).outcome == Pass ==> PairOf(s, u, b) == NotBorrowed && PairOf(Rent(s, u, b).after, u, b) == Borrowed
    ensures Return(s, u, b).outcome == Pass ==> PairOf(s, u, b) == Borrowed && PairOf(Return(s, u, b).after, u, b) == NotBorrowed
    ensures forall u', b' :: (u', b') != (u, b) ==>
      PairOf(Rent(s, u, b).after, u', b') == PairOf(s, u', b') && PairOf(Return(s, u, b).after, u', b') == PairOf(s, u', b')
    ensures Rent(s, u, b).after.users == s.users && Return(s, u, b).after.users == s.users
    ensures Rent(s, u, b).after.authors == s.authors && Return(s, u, b).after.authors == s.authors
  {
  }

  /** The books table after a transaction differs from the one before only in book b's
      counter, by exactly one copy. */
  lemma CounterMoves(s: Store, u: int, b: int)
    ensures Rent(s, u, b).after.books.Keys == s.books.Keys && Return(s, u, b).after.books.Keys == s.books.Keys
    ensures forall c :: c in s.books && c != b ==>
      Rent(s, u, b).after.books[c] == s.books[c] && Return(s, u, b).after.books[c] == s.books[c]
    ensures Rent(s, u, b).outcome == Pass ==>
      Rent(s, u, b).after.books[b] == s.books[b].(available := s.books[b].available - 1)
    ensures Return(s, u, b).outcome == Pass ==>
      Return(s, u, b).after.books[b] == s.books[b].(available := s.books[b].available + 1)
  {
  }

  /** Renting a book the user already holds never succeeds: the second attempt fails
      because the pair is booked, or earlier because the shelf is empty. */
  lemma NoSecondCopy(s: Store, u: int, b: int)
    requires Rent(s, u, b).outcome == Pass
    ensures Rent(Rent(s, u, b).after, u, b).outcome in
      {Fail(BookAlreadyBorrowed), Fail(BookNotFoundTitle(NotAvailableForRent))}
  {
  }

  /** Returning twice fails the second time with BookNotBorrowed. */
  lemma NoSecondReturn(s: Store, u: int, b: int)
    requires Return(s, u, b).outcome == Pass
    ensures Return(Return(s, u, b).after, u, b) == Step(Fail(BookNotBorrowed), Return(s, u, b).after)
  {
  }

  // ---------------------------------------------------------------------------
  // Round trips.

  /** A successful rent followed by the return of the same pair restores the store. */
  lemma RentThenReturn(s: Store, u: int, b: int)
    requires Rent(s, u, b).outcome == Pass
    ensures Return(Rent(s, u, b).after, u, b) == Step(Pass, s)
  {
    var t := Rent(s, u, b).after;
    assert t.bookings - {Booking(u, b)} == s.bookings;
    assert Moved(t, b, 1) == s.books;
  }

  /** A successful return followed by renting the same pair again restores the store:
      the copy just returned is on the shelf. */
  lemma ReturnThenRent(s: Store, u: int, b: int)
    requires StoreValid(s) && Return(s, u, b).outcome == Pass
    ensures Rent(Return(s, u, b).after, u, b) == Step(Pass, s)
  {
    var t := Return(s, u, b).after;
    assert RowValid(s.books[b]);
    assert t.bookings + {Booking(u, b)} == s.bookings;
    assert Moved(t, b, -1) == s.books;
  }

  // ---------------------------------------------------------------------------
  // The store invariant.

  lemma RentKeepsValid(s: Store, u: int, b: int)
    requires StoreValid(s)
    ensures StoreValid(Rent(s, u, b).after)
  {
    var r := Rent(s, u, b);
    if r.outcome == Pass {
      var t := r.after;
      assert BooksValid(t.books) by {
        forall k | k in t.books ensures t.books[k].id == k && RowValid(t.books[k]) {
          assert k in s.books && RowValid(s.books[k]);
        }
      }
      assert BookingsValid(t);
    }
  }

  lemma ReturnKeepsValid(s: Store, u: int, b: int)
    requires StoreValid(s)
    ensures StoreValid(Return(s, u, b).after)
  {
    var r := Return(s, u, b);
    if r.outcome == Pass {
      var t := r.after;
      assert BooksValid(t.books) by {
        forall k | k in t.books ensures t.books[k].id == k && RowValid(t.books[k]) {
          assert k in s.books && RowValid(s.books[k]);
        }
      }
      assert BookingsValid(t);
    }
  }

  // ---------------------------------------------------------------------------
  // Copies of a book: on the shelf plus lent out.

  /** The bookings of book c. */
  function Lent(bookings: set<Booking>, c: int): set<Booking> {
    set x | x in bookings && x.bookId == c
  }

  /** All copies of book c: those on the shelf and those lent out. */
  function Copies(s: Store, c: int): int {
    (if c in s.books then s.books[c].available else 0) + |Lent(s.bookings, c)|
  }

  lemma LentAfterInsert(bookings: set<Booking>, x: Booking, c: int)
    requires x !in bookings
    ensures |Lent(bookings + {x}, c)| == |Lent(bookings, c)| + (if x.bookId == c then 1 else 0)
  {
    var before, after := Lent(bookings, c), Lent(bookings + {x}, c);
    if x.bookId == c {
      assert forall y :: y in after <==> y in before + {x};
      assert after == before + {x};
    } else {
      assert forall y :: y in after <==> y in before;
      assert after == before;
    }
  }

  lemma LentAfterRemove(bookings: set<Booking>, x: Booking, c: int)
    requires x in bookings
    ensures |Lent(bookings - {x}, c)| == |Lent(bookings, c)| - (if x.bookId == c then 1 else 0)
  {
    LentAfterInsert(bookings - {x}, x, c);
    assert bookings - {x} + {x} == bookings;
  }

  /** Neither transaction creates or destroys a copy of any book. */
  lemma RentConserves(s: Store, u: int, b: int, c: int)
    ensures Copies(Rent(s, u, b).after, c) == Copies(s, c)
  {
    if Rent(s, u, b).outcome == Pass {
      LentAfterInsert(s.bookings, Booking(u, b), c);
    }
  }

  lemma ReturnConserves(s: Store, u: int, b: int, c: int)
    ensures Copies(Return(s, u, b).after, c) == Copies(s, c)
  {
    if Return(s, u, b).outcome == Pass {
      LentAfterRemove(s.bookings, Booking(u, b), c);
    }
  }

  /** In a valid store no more copies of a book are lent out than it has. */
  lemma LentWithinCopies(s: Store, c: int)
    requires StoreValid(s)
    ensures |Lent(s.bookings, c)| <= Copies(s, c)
  {
    if c in s.books {
      assert RowValid(s.books[c]);
    }
  }

  // ---------------------------------------------------------------------------
  // Any sequence of transactions.

  datatype Request = RentBook(userId: int, bookId: int) | ReturnBook(userId: int, bookId: int)

  function Apply(s: Store, q: Request): Step {
    match q
    case RentBook(u, b) => Rent(s, u, b)
    case ReturnBook(u, b) => Return(s, u, b)
  }

  /** The store after the requests, one transaction at a time, failed ones changing nothing. */
  function Run(s: Store, qs: seq<Request>): Store
    decreases |qs|
  {
    if qs == [] then s else Run(Apply(s, qs[0]).after, qs[1..])
  }

  /** After any sequence of rents and returns the store is still valid, every book still
      has as many copies as at the start, and so no book is ever lent out more often than
      it had copies at the start. */
  lemma {:induction false} RunKeepsInvariants(s: Store, qs: seq<Request>, c: int)
    requires StoreValid(s)
    ensures StoreValid(Run(s, qs))
    ensures Copies(Run(s, qs), c) == Copies(s, c)
    ensures |Lent(Run(s, qs).bookings, c)| <= Copies(s, c)
    decreases |qs|
  {
    if qs == [] {
      LentWithinCopies(s, c);
    } else {
      var t := Apply(s, qs[0]).after;
      match qs[0] {
        case RentBook(u, b) =>
          RentKeepsValid(s, u, b);
          RentConserves(s, u, b, c);
        case ReturnBook(u, b) =>
          ReturnKeepsValid(s, u, b);
          ReturnConserves(s, u, b, c);
      }
      RunKeepsInvariants(t, qs[1..], c);
    }
  }
}
