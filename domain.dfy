/** The persistent entities (Book, Borrow, User), the transfer objects the services
    return, and the exceptions the services throw, as values. Identifiers are the
    database-generated ids; timestamps are whatever clock value the caller supplies. */
module Domain {
  import opened Util

  datatype Role = USER | ADMIN

  /** A user account; `password` holds the encoded password. */
  datatype User = User(id: nat, username: string, password: string, email: string, role: Role)

  /** A catalog entry with its availability flag. */
  datatype Book = Book(id: nat, title: string, author: string, available: bool)

  /** A loan record; it is open while `returnedAt` is absent. The borrower and the
      book are referred to by id, as the foreign keys of the loan table do. */
  datatype Borrow = Borrow(id: nat, userId: nat, bookId: nat, borrowedAt: nat, returnedAt: Option<nat>)
  {
    predicate IsOpen() { returnedAt.None? }
  }

  /** What the book endpoints return and accept. */
  datatype BookDto = BookDto(id: nat, title: string, author: string, available: bool)

  /** What the loan endpoints return; `username` and `bookTitle` are read through the
      loan's references and are absent if the referenced row is gone. */
  datatype BorrowDto = BorrowDto(
    id: nat, userId: nat, username: Option<string>, bookId: nat, bookTitle: Option<string>,
    borrowedAt: nat, returnedAt: Option<nat>)

  /** The exceptions of the core, one constructor per way of throwing them. */
  datatype Error =
    | BookNotFound(id: nat)          // ResourceNotFoundException("Book", "id", id)
    | BorrowRecordNotFound           // ResourceNotFoundException for a missing open loan
    | BadRequest(message: string)    // BadRequestException(message)
    | Unauthorized(message: string)  // UnauthorizedException(message)
    | BadCredentials                 // thrown by the authentication manager
    | ClassCast(key: string)         // a patch value of the wrong JSON type
  {
    predicate IsResourceNotFound() { BookNotFound? || BorrowRecordNotFound? }
  }

  /** A service call either returns a value or throws one of the errors above. */
  datatype Result<+T> = Ok(value: T) | Err(error: Error)

  const NOT_AVAILABLE: string := "Book is not available for borrowing"
  const USERNAME_TAKEN: string := "Username is already taken"
  const EMAIL_TAKEN: string := "Email is already taken"
  const USER_NOT_FOUND: string := "User not found"
  const INVALID_REFRESH_TOKEN: string := "Invalid refresh token"
  const INVALID_CREDENTIALS: string := "Invalid username or password"
}
