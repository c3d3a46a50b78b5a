/** The circulation service: borrowing and returning a book as one atomic step over
    the book table and the loan table, the loan listings, and the invariant that ties
    each book's availability flag to the loan table. */
module Circulation {
  import opened Util
  import opened Domain
  import BookRepository
  import BorrowRepository
  import UserRepository
  import Catalog
  import Auth

  // ---------------------------------------------------------------------------
  // Transfer objects

  /** `mapToDto`: the transfer object of a loan, with the borrower's username and
      the book's title read through the loan's references. */
  function MapToDto(b: Borrow, users: seq<User>, books: seq<Book>): (d: BorrowDto)
    ensures ToBorrow(d) == b
    ensures d.username.Some? ==> exists u :: u in users && u.id == b.userId && u.username == d.username.value
    ensures d.username.None? <==> forall u :: u in users ==> u.id != b.userId
    ensures d.bookTitle.Some? ==> exists k :: k in books && k.id == b.bookId && k.title == d.bookTitle.value
    ensures d.bookTitle.None? <==> forall k :: k in books ==> k.id != b.bookId
  {
    var username := match UserRepository.FindById(users, b.userId)
      case Some(u) => Some(u.username)
      case None => None;
    var title := match BookRepository.FindById(books, b.bookId)
      case Some(k) => Some(k.title)
      case None => None;
    BorrowDto(b.id, b.userId, username, b.bookId, title, b.borrowedAt, b.returnedAt)
  }

  /** The loan record a transfer object describes; `MapToDto` is its right inverse. */
  function ToBorrow(d: BorrowDto): Borrow {
    Borrow(d.id, d.userId, d.bookId, d.borrowedAt, d.returnedAt)
  }

  /** Maps loans to transfer objects against fixed user and book tables. */
  function MapAll(borrows: seq<Borrow>, users: seq<User>, books: seq<Book>): (r: seq<BorrowDto>)
    ensures MapSeq(r, ToBorrow) == borrows
    ensures forall i :: 0 <= i < |r| ==> r[i] == MapToDto(borrows[i], users, books)
  {
    var r := MapSeq(borrows, (b: Borrow) => MapToDto(b, users, books));
    assert forall i :: 0 <= i < |r| ==> ToBorrow(r[i]) == borrows[i];
    r
  }

  // ---------------------------------------------------------------------------
  // The circulation invariant

  /** Some loan of this book is open. */
  ghost predicate HasOpenBorrow(borrows: seq<Borrow>, bookId: nat) {
    exists i :: 0 <= i < |borrows| && borrows[i].bookId == bookId && borrows[i].IsOpen()
  }

  /** A book is unavailable exactly when an open loan refers to it. */
  ghost predicate AvailabilityMatchesBorrows(books: seq<Book>, borrows: seq<Borrow>) {
    forall i :: 0 <= i < |books| ==> (!books[i].available <==> HasOpenBorrow(borrows, books[i].id))
  }

  /** No book has two open loans. */
  ghost predicate AtMostOneOpenBorrowPerBook(borrows: seq<Borrow>) {
    forall i, j :: 0 <= i < j < |borrows| && borrows[i].IsOpen() && borrows[j].IsOpen() ==>
      borrows[i].bookId != borrows[j].bookId
  }

  ghost predicate CirculationInvariant(books: seq<Book>, borrows: seq<Borrow>) {
    AvailabilityMatchesBorrows(books, borrows) && AtMostOneOpenBorrowPerBook(borrows)
  }

  /** Under the invariant two open loans of the same book are the same loan. */
  lemma OpenBorrowIsUnique(borrows: seq<Borrow>, a: Borrow, b: Borrow)
    requires AtMostOneOpenBorrowPerBook(borrows)
    requires a in borrows && b in borrows && a.IsOpen() && b.IsOpen() && a.bookId == b.bookId
    ensures a == b
  {
    var i :| 0 <= i < |borrows| && borrows[i] == a;
    var j :| 0 <= j < |borrows| && borrows[j] == b;
    assert !(i < j) && !(j < i);
  }

  /** With all books available and no loans, the invariant holds: the state the
      circulation starts from. */
  lemma EmptyLedgerSatisfiesInvariant(books: seq<Book>)
    requires forall i :: 0 <= i < |books| ==> books[i].available
    ensures CirculationInvariant(books, [])
  {
  }

  lemma OpenBorrowAfterAppend(borrows: seq<Borrow>, b: Borrow, bookId: nat)
    ensures HasOpenBorrow(borrows + [b], bookId) <==> HasOpenBorrow(borrows, bookId) || (b.bookId == bookId && b.IsOpen())
  {
    var s := borrows + [b];
    if HasOpenBorrow(s, bookId) && !(b.bookId == bookId && b.IsOpen()) {
      var i :| 0 <= i < |s| && s[i].bookId == bookId && s[i].IsOpen();
      assert i < |borrows| && borrows[i] == s[i];
    }
    if HasOpenBorrow(borrows, bookId) {
      var i :| 0 <= i < |borrows| && borrows[i].bookId == bookId && borrows[i].IsOpen();
      assert s[i] == borrows[i];
    }
    if b.bookId == bookId && b.IsOpen() {
      assert s[|borrows|] == b;
    }
  }

  /** A successful borrow keeps the invariant: the book was available, so it had
      no open loan, and now it is unavailable with exactly the new one. */
  lemma BorrowKeepsInvariant(books: seq<Book>, borrows: seq<Borrow>, book: Book, borrow: Borrow)
    requires CirculationInvariant(books, borrows)
    requires book in books && book.available
    requires borrow.bookId == book.id && borrow.IsOpen()
    ensures CirculationInvariant(BookRepository.ReplaceById(books, book.(available := false)), borrows + [borrow])
  {
    var books' := BookRepository.ReplaceById(books, book.(available := false));
    var borrows' := borrows + [borrow];
    var k :| 0 <= k < |books| && books[k] == book;
    assert !HasOpenBorrow(borrows, book.id);
    forall i | 0 <= i < |books'|
      ensures !books'[i].available <==> HasOpenBorrow(borrows', books'[i].id)
    {
      OpenBorrowAfterAppend(borrows, borrow, books[i].id);
    }
    forall i, j | 0 <= i < j < |borrows'| && borrows'[i].IsOpen() && borrows'[j].IsOpen()
      ensures borrows'[i].bookId != borrows'[j].bookId
    {
      if j == |borrows| {
        assert borrows'[i] == borrows[i];
      }
    }
  }

  /** Closing an open loan of a book leaves that book with no open loan, because the
      loan was its only open one. */
  lemma ReturnClosesTheOnlyOpenBorrow(borrows: seq<Borrow>, borrow: Borrow, now: nat)
    requires AtMostOneOpenBorrowPerBook(borrows) && BorrowRepository.UniqueIds(borrows)
    requires borrow in borrows && borrow.IsOpen()
    ensures !HasOpenBorrow(BorrowRepository.ReplaceById(borrows, borrow.(returnedAt := Some(now))), borrow.bookId)
  {
    var borrows' := BorrowRepository.ReplaceById(borrows, borrow.(returnedAt := Some(now)));
    var k :| 0 <= k < |borrows| && borrows[k] == borrow;
    forall i | 0 <= i < |borrows'|
      ensures !(borrows'[i].bookId == borrow.bookId && borrows'[i].IsOpen())
    {
      if i != k {
        assert i < k || k < i;
      }
    }
  }

  /** A successful return keeps the invariant: the book becomes available with no
      open loan left, and every other book and loan is as before. */
  lemma ReturnKeepsInvariant(books: seq<Book>, borrows: seq<Borrow>, book: Book, borrow: Borrow, now: nat)
    requires CirculationInvariant(books, borrows) && BorrowRepository.UniqueIds(borrows)
    requires borrow in borrows && borrow.IsOpen() && borrow.bookId == book.id
    ensures CirculationInvariant(
              BookRepository.ReplaceById(books, book.(available := true)),
              BorrowRepository.ReplaceById(borrows, borrow.(returnedAt := Some(now))))
  {
    var books' := BookRepository.ReplaceById(books, book.(available := true));
    var borrows' := BorrowRepository.ReplaceById(borrows, borrow.(returnedAt := Some(now)));
    ReturnClosesTheOnlyOpenBorrow(borrows, borrow, now);
    forall i | 0 <= i < |books'|
      ensures !books'[i].available <==> HasOpenBorrow(borrows', books'[i].id)
    {
      if books[i].id != book.id {
        var id := books[i].id;
        if HasOpenBorrow(borrows, id) {
          var j :| 0 <= j < |borrows| && borrows[j].bookId == id && borrows[j].IsOpen();
          assert borrows'[j] == borrows[j];
        }
        if HasOpenBorrow(borrows', id) {
          var j :| 0 <= j < |borrows'| && borrows'[j].bookId == id && borrows'[j].IsOpen();
          assert borrows'[j] == borrows[j];
        }
      }
    }
  }

  /** The availability condition on its own is not preserved by a return: if two
      users hold open loans of one book, returning one of them makes the book
      available while the other loan is still open. Hence the second conjunct. */
  lemma AvailabilityAloneIsNotPreserved()
    ensures var books := [Book(1, "T", "A", false)];
            var borrows := [Borrow(1, 1, 1, 0, None), Borrow(2, 2, 1, 0, None)];
            && AvailabilityMatchesBorrows(books, borrows)
            && !AvailabilityMatchesBorrows(
                 BookRepository.ReplaceById(books, books[0].(available := true)),
                 BorrowRepository.ReplaceById(borrows, borrows[0].(returnedAt := Some(5))))
  {
    var books := [Book(1, "T", "A", false)];
    var borrows := [Borrow(1, 1, 1, 0, None), Borrow(2, 2, 1, 0, None)];
    var borrows' := BorrowRepository.ReplaceById(borrows, borrows[0].(returnedAt := Some(5)));
    assert borrows[0].bookId == 1 && borrows[0].IsOpen();
    assert borrows'[1] == borrows[1];
    assert HasOpenBorrow(borrows', 1);
  }

  // ---------------------------------------------------------------------------
  // The service

  class BorrowService {
    const authService: Auth.AuthService
    const bookService: Catalog.BookService
    const borrowRepository: BorrowRepository.BorrowStore

    constructor (authService: Auth.AuthService, bookService: Catalog.BookService,
                 borrowRepository: BorrowRepository.BorrowStore)
      ensures this.authService == authService && this.bookService == bookService
      ensures this.borrowRepository == borrowRepository
    {
      this.authService := authService;
      this.bookService := bookService;
      this.borrowRepository := borrowRepository;
    }

    /** `getAllBorrowedBooks`: one transfer object per open loan, each loan as often
        as it is stored, and no closed loan. */
    function GetAllBorrowedBooks(): (r: seq<BorrowDto>)
      reads borrowRepository, authService.users, bookService.repo
      ensures forall b :: multiset(MapSeq(r, ToBorrow))[b] ==
                          if b.IsOpen() then multiset(borrowRepository.borrows)[b] else 0
      ensures forall i :: 0 <= i < |r| ==> r[i].returnedAt.None?
      ensures forall i :: 0 <= i < |r| ==> r[i] == MapToDto(ToBorrow(r[i]), authService.users.users, bookService.repo.books)
    {
      var open := BorrowRepository.FindByReturnedAtIsNull(borrowRepository.borrows);
      var r := MapAll(open, authService.users.users, bookService.repo.books);
      assert forall i :: 0 <= i < |r| ==> ToBorrow(r[i]) in multiset(open);
      r
    }

    /** `getUserBorrowHistory` for the authenticated name: Unauthorized without an
        account, otherwise exactly the account's loans, most recent first. */
    function GetUserBorrowHistory(name: string): (r: Result<seq<BorrowDto>>)
      reads borrowRepository, authService.users, bookService.repo
      ensures r.Err? <==> forall u :: u in authService.users.users ==> u.username != name
      ensures r.Err? ==> r.error == Unauthorized(USER_NOT_FOUND)
      ensures r.Ok? ==>
                var u := authService.GetCurrentUser(name).value;
                forall b :: multiset(MapSeq(r.value, ToBorrow))[b] ==
                            if b.userId == u.id then multiset(borrowRepository.borrows)[b] else 0
      ensures r.Ok? ==> forall i, j :: 0 <= i < j < |r.value| ==> r.value[i].borrowedAt >= r.value[j].borrowedAt
      ensures r.Ok? ==> forall i :: 0 <= i < |r.value| ==>
                r.value[i] == MapToDto(ToBorrow(r.value[i]), authService.users.users, bookService.repo.books)
    {
      match authService.GetCurrentUser(name)
      case Err(e) => Err(e)
      case Ok(u) =>
        var history := BorrowRepository.FindByUserOrderByBorrowedAtDesc(borrowRepository.borrows, u.id);
        Ok(MapAll(history, authService.users.users, bookService.repo.books))
    }

    /** `borrowBook(bookId)` for the authenticated name, at time `now`. The user is
        resolved first (Unauthorized), then the book (ResourceNotFound); an
        unavailable book is a BadRequest. Every failure leaves both tables as they
        were. On success the book is marked unavailable and exactly one open loan by
        this user is appended. The circulation invariant is preserved. */
    method BorrowBook(name: string, bookId: nat, now: nat) returns (r: Result<BorrowDto>)
      requires bookService.repo.Valid() && borrowRepository.Valid()
      modifies bookService.repo, borrowRepository
      ensures bookService.repo.Valid() && borrowRepository.Valid()
      ensures authService.GetCurrentUser(name).Err? ==>
                r == Err(Unauthorized(USER_NOT_FOUND)) && unchanged(bookService.repo, borrowRepository)
      ensures authService.GetCurrentUser(name).Ok? && old(bookService.GetBookEntityById(bookId)).Err? ==>
                r == Err(BookNotFound(bookId)) && unchanged(bookService.repo, borrowRepository)
      ensures authService.GetCurrentUser(name).Ok? && old(bookService.GetBookEntityById(bookId)).Ok? &&
              !old(bookService.GetBookEntityById(bookId)).value.available ==>
                r == Err(BadRequest(NOT_AVAILABLE)) && unchanged(bookService.repo, borrowRepository)
      ensures authService.GetCurrentUser(name).Ok? && old(bookService.GetBookEntityById(bookId)).Ok? &&
              old(bookService.GetBookEntityById(bookId)).value.available ==>
                var user := authService.GetCurrentUser(name).value;
                var book := old(bookService.GetBookEntityById(bookId)).value;
                var saved := Borrow(old(borrowRepository.nextId), user.id, bookId, now, None);
                && borrowRepository.borrows == old(borrowRepository.borrows) + [saved]
                && borrowRepository.nextId == old(borrowRepository.nextId) + 1
                && bookService.repo.books == BookRepository.ReplaceById(old(bookService.repo.books), book.(available := false))
                && bookService.repo.nextId == old(bookService.repo.nextId)
                && r == Ok(MapToDto(saved, authService.users.users, bookService.repo.books))
      ensures CirculationInvariant(old(bookService.repo.books), old(borrowRepository.borrows)) ==>
                CirculationInvariant(bookService.repo.books, borrowRepository.borrows)
    {
      var current := authService.GetCurrentUser(name);
      if current.Err? {
        return Err(current.error);
      }
      var user := current.value;
      var found := bookService.GetBookEntityById(bookId);
      if found.Err? {
        return Err(found.error);
      }
      var book := found.value;
      if !book.available {
        return Err(BadRequest(NOT_AVAILABLE));
      }
      ghost var books0, borrows0 := bookService.repo.books, borrowRepository.borrows;
      book := book.(available := false);
      bookService.repo.Save(book);
      var saved := borrowRepository.Insert(user.id, book.id, now);
      if CirculationInvariant(books0, borrows0) {
        BorrowKeepsInvariant(books0, borrows0, found.value, saved);
      }
      r := Ok(MapToDto(saved, authService.users.users, bookService.repo.books));
    }

    /** `returnBook(bookId)` for the authenticated name, at time `now`. The user is
        resolved first (Unauthorized), then the book (ResourceNotFound); without an
        open loan of this book by this user the result is ResourceNotFound, even if
        another user holds one. Every failure leaves both tables as they were. On
        success the book is marked available and exactly the matched loan gets its
        return time. The circulation invariant is preserved, and the book is left
        with no open loan, so returning it again fails. */
    method ReturnBook(name: string, bookId: nat, now: nat) returns (r: Result<BorrowDto>)
      requires bookService.repo.Valid() && borrowRepository.Valid()
      modifies bookService.repo, borrowRepository
      ensures bookService.repo.Valid() && borrowRepository.Valid()
      ensures authService.GetCurrentUser(name).Err? ==>
                r == Err(Unauthorized(USER_NOT_FOUND)) && unchanged(bookService.repo, borrowRepository)
      ensures authService.GetCurrentUser(name).Ok? && old(bookService.GetBookEntityById(bookId)).Err? ==>
                r == Err(BookNotFound(bookId)) && unchanged(bookService.repo, borrowRepository)
      ensures authService.GetCurrentUser(name).Ok? && old(bookService.GetBookEntityById(bookId)).Ok? &&
              old(BorrowRepository.FindByBookAndUserAndReturnedAtIsNull(
                    borrowRepository.borrows, bookId, authService.GetCurrentUser(name).value.id)).None? ==>
                r == Err(BorrowRecordNotFound) && unchanged(bookService.repo, borrowRepository)
      ensures authService.GetCurrentUser(name).Ok? && old(bookService.GetBookEntityById(bookId)).Ok? &&
              old(BorrowRepository.FindByBookAndUserAndReturnedAtIsNull(
                    borrowRepository.borrows, bookId, authService.GetCurrentUser(name).value.id)).Some? ==>
                var user := authService.GetCurrentUser(name).value;
                var book := old(bookService.GetBookEntityById(bookId)).value;
                var open := old(BorrowRepository.FindByBookAndUserAndReturnedAtIsNull(
                                  borrowRepository.borrows, bookId, user.id)).value;
                var closed := open.(returnedAt := Some(now));
                && borrowRepository.borrows == BorrowRepository.ReplaceById(old(borrowRepository.borrows), closed)
                && borrowRepository.nextId == old(borrowRepository.nextId)
                && bookService.repo.books == BookRepository.ReplaceById(old(bookService.repo.books), book.(available := true))
                && bookService.repo.nextId == old(bookService.repo.nextId)
                && r == Ok(MapToDto(closed, authService.users.users, bookService.repo.books))
      ensures CirculationInvariant(old(bookService.repo.books), old(borrowRepository.borrows)) ==>
                CirculationInvariant(bookService.repo.books, borrowRepository.borrows)
      ensures r.Ok? && AtMostOneOpenBorrowPerBook(old(borrowRepository.borrows)) ==>
                !HasOpenBorrow(borrowRepository.borrows, bookId)
    {
      var current := authService.GetCurrentUser(name);
      if current.Err? {
        return Err(current.error);
      }
      var user := current.value;
      var found := bookService.GetBookEntityById(bookId);
      if found.Err? {
        return Err(found.error);
      }
      var book := found.value;
      var open := BorrowRepository.FindByBookAndUserAndReturnedAtIsNull(borrowRepository.borrows, book.id, user.id);
      if open.None? {
        return Err(BorrowRecordNotFound);
      }
      ghost var books0, borrows0 := bookService.repo.books, borrowRepository.borrows;
      book := book.(available := true);
      bookService.repo.Save(book);
      var closed := open.value.(returnedAt := Some(now));
      borrowRepository.Save(closed);
      if AtMostOneOpenBorrowPerBook(borrows0) {
        ReturnClosesTheOnlyOpenBorrow(borrows0, open.value, now);
      }
      if CirculationInvariant(books0, borrows0) {
        ReturnKeepsInvariant(books0, borrows0, found.value, open.value, now);
      }
      r := Ok(MapToDto(closed, authService.users.users, bookService.repo.books));
    }
  }

  // ---------------------------------------------------------------------------
  // A client of the service

  /** A fresh library with one registered account, "reader", and one available book. */
  method NewLibrary(jwtService: Auth.JwtService, passwordEncoder: string -> string,
                    authenticationManager: (string, string) -> bool)
    returns (service: BorrowService, reader: User, book: Book)
    ensures fresh(service.bookService.repo) && fresh(service.borrowRepository)
    ensures service.bookService.repo.Valid() && service.borrowRepository.Valid()
    ensures service.authService.GetCurrentUser("reader") == Ok(reader)
    ensures service.bookService.repo.books == [book] && book.available
    ensures service.borrowRepository.borrows == [] && service.borrowRepository.nextId == 1
  {
    var users := new UserRepository.UserStore();
    var auth := new Auth.AuthService(users, passwordEncoder, jwtService, authenticationManager);
    var registered := auth.Register(Auth.UserDto("reader", "reader@example.org", "secret"));
    assert users.users[0].username == "reader";
    var current := auth.GetCurrentUser("reader");
    reader := current.value;
    var books := new BookRepository.BookStore();
    var catalog := new Catalog.BookService(books);
    var created := catalog.CreateBook(BookDto(0, "Title", "Author", true));
    book := Catalog.ToBook(created);
    var loans := new BorrowRepository.BorrowStore();
    service := new BorrowService(auth, catalog, loans);
  }

  /** The reader borrows the available book: the loan is open and stamped with
      `t0`, and the book is no longer available. */
  method BorrowAvailable(service: BorrowService, reader: User, book: Book, t0: nat)
    returns (borrowed: Result<BorrowDto>, loan: Borrow)
    requires service.bookService.repo.Valid() && service.borrowRepository.Valid()
    requires service.authService.GetCurrentUser("reader") == Ok(reader)
    requires service.bookService.repo.books == [book] && book.available
    requires service.borrowRepository.borrows == [] && service.borrowRepository.nextId == 1
    modifies service.bookService.repo, service.borrowRepository
    ensures service.bookService.repo.Valid() && service.borrowRepository.Valid()
    ensures loan == Borrow(1, reader.id, book.id, t0, None)
    ensures service.borrowRepository.borrows == [loan] && service.borrowRepository.nextId == 2
    ensures service.bookService.repo.books == [book.(available := false)]
    ensures borrowed.Ok? && ToBorrow(borrowed.value) == loan
  {
    assert service.bookService.GetBookEntityById(book.id) == Ok(book);
    borrowed := service.BorrowBook("reader", book.id, t0);
    loan := Borrow(1, reader.id, book.id, t0, None);
  }

  /** Borrowing the book again while it is out is a BadRequest and changes nothing. */
  method BorrowUnavailable(service: BorrowService, reader: User, book: Book, t: nat)
    returns (refused: Result<BorrowDto>)
    requires service.bookService.repo.Valid() && service.borrowRepository.Valid()
    requires service.authService.GetCurrentUser("reader") == Ok(reader)
    requires service.bookService.repo.books == [book] && !book.available
    modifies service.bookService.repo, service.borrowRepository
    ensures refused == Err(BadRequest(NOT_AVAILABLE))
    ensures unchanged(service.bookService.repo, service.borrowRepository)
  {
    assert service.bookService.GetBookEntityById(book.id) == Ok(book);
    refused := service.BorrowBook("reader", book.id, t);
  }

  /** The reader returns the book: exactly that loan gets `t1` as its return time
      and the book is available again. */
  method ReturnBorrowed(service: BorrowService, reader: User, book: Book, loan: Borrow, t1: nat)
    returns (returned: Result<BorrowDto>, closed: Borrow)
    requires service.bookService.repo.Valid() && service.borrowRepository.Valid()
    requires service.authService.GetCurrentUser("reader") == Ok(reader)
    requires service.bookService.repo.books == [book]
    requires service.borrowRepository.borrows == [loan]
    requires loan.bookId == book.id && loan.userId == reader.id && loan.IsOpen()
    modifies service.bookService.repo, service.borrowRepository
    ensures service.bookService.repo.Valid() && service.borrowRepository.Valid()
    ensures closed == loan.(returnedAt := Some(t1))
    ensures service.borrowRepository.borrows == [closed]
    ensures service.bookService.repo.books == [book.(available := true)]
    ensures returned.Ok? && ToBorrow(returned.value) == closed
  {
    assert service.bookService.GetBookEntityById(book.id) == Ok(book);
    assert BorrowRepository.FindByBookAndUserAndReturnedAtIsNull([loan], book.id, reader.id) == Some(loan);
    returned := service.ReturnBook("reader", book.id, t1);
    closed := loan.(returnedAt := Some(t1));
  }

  /** Returning a book whose only loan is closed is ResourceNotFound and changes nothing. */
  method ReturnNotBorrowed(service: BorrowService, reader: User, book: Book, closed: Borrow, t2: nat)
    returns (again: Result<BorrowDto>)
    requires service.bookService.repo.Valid() && service.borrowRepository.Valid()
    requires service.authService.GetCurrentUser("reader") == Ok(reader)
    requires service.bookService.repo.books == [book]
    requires service.borrowRepository.borrows == [closed] && !closed.IsOpen()
    modifies service.bookService.repo, service.borrowRepository
    ensures again == Err(BorrowRecordNotFound)
    ensures unchanged(service.bookService.repo, service.borrowRepository)
  {
    assert service.bookService.GetBookEntityById(book.id) == Ok(book);
    assert BorrowRepository.FindByBookAndUserAndReturnedAtIsNull([closed], book.id, reader.id).None?;
    again := service.ReturnBook("reader", book.id, t2);
  }

  /** In a fresh library the reader borrows the book, cannot borrow it a second
      time, returns it, and returning it a second time fails with ResourceNotFound. */
  method BorrowReturnReturnAgain(jwtService: Auth.JwtService, passwordEncoder: string -> string,
                                 authenticationManager: (string, string) -> bool,
                                 t0: nat, t1: nat, t2: nat)
    returns (borrowed: Result<BorrowDto>, refused: Result<BorrowDto>,
             returned: Result<BorrowDto>, again: Result<BorrowDto>)
    ensures borrowed.Ok? && borrowed.value.returnedAt.None? && borrowed.value.borrowedAt == t0
    ensures refused == Err(BadRequest(NOT_AVAILABLE))
    ensures returned.Ok? && returned.value.id == borrowed.value.id && returned.value.returnedAt == Some(t1)
    ensures again == Err(BorrowRecordNotFound)
  {
    var service, reader, book := NewLibrary(jwtService, passwordEncoder, authenticationManager);
    var loan, closed;
    borrowed, loan := BorrowAvailable(service, reader, book, t0);
    refused := BorrowUnavailable(service, reader, book.(available := false), t0);
    returned, closed := ReturnBorrowed(service, reader, book.(available := false), loan, t1);
    again := ReturnNotBorrowed(service, reader, book, closed, t2);
  }
}
