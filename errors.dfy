/** The exceptions the core throws, folded into one datatype. A constructor's
    IllegalArgumentException carries its message; the rest carry what their Java
    constructor was given. */
module Errors {

  datatype Error =
    | IllegalArgument(message: string)   // a validating constructor rejected a field
    | UserNotFound(userId: int)          // UserNotFoundException(long)
    | BookNotFound(bookId: int)          // BookNotFoundException(long)
    | BookNotFoundTitle(title: string)   // BookNotFoundException(String)
    | AuthorNotFound(authorId: int)      // AuthorNotFoundException(long)
    | BookAlreadyBorrowed
    | BookNotBorrowed
    | EmailAlreadyExists(email: string)
    | DuplicateKey                       // the store's unique constraint on users.email
    | IncorrectResultSize                // a single-row query matched several rows

  /** The text rentBook hands to BookNotFoundException when no copy is left. */
  const NotAvailableForRent := "Book is not available for rent."

  // Messages of the validating constructors.
  const BookIdMessage := "Book id must be positive."
  const BookTitleMessage := "Book title cannot be blank."
  const BookYearMessage := "Book year must be less or equal to current year and positive."
  const BookAuthorIdMessage := "Author id must be positive."
  const BookAvailableMessage := "Book available must be not negative."
  const BookNotAvailableMessage := "Book is not available."
  const UserIdMessage := "Id must be positive."
  const UserNameMessage := "Name must not be blank."
  const UserEmailMessage := "Wrong format of email!"
  const AuthorIdMessage := "Author ID must be positive."
  const AuthorNameMessage := "Author name must not be empty."
  const AuthorBirthdateMessage := "Author birthdate must not be after now."
  const BookingIdsMessage := "userId and bookId must be greater than 0."
}
