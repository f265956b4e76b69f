/**
 * The records shared by every part of the app: the two Room entities (books
 * and users), the payloads exchanged with the transaction mediator, the
 * OpenLibrary catalog response and the QR payload. Kotlin's nullable fields
 * become `Option`, and an exception thrown by a remote call becomes `Err`.
 */
module Entities {

  datatype Option<T> = None | Some(value: T)

  /** The outcome of a call that may throw: the exception's text is not modelled. */
  datatype Result<T> = Ok(value: T) | Err

  /** A row of the `books` table, keyed by `uid`. */
  datatype Book = Book(
    uid: string,
    isbn: string,
    title: string,
    authors: Option<string>,
    covers: Option<string>,
    borrowerId: Option<string>,
    lenderId: Option<string>)

  /** A row of the `users` table, keyed by `uid`. */
  datatype User = User(uid: string, fullName: string, tel: string, email: string)

  /** The two actions the mediator knows; `action` fields are free strings. */
  const LOAN: string := "LOAN"
  const RETURN: string := "RETURN"

  datatype InitRequest = InitRequest(action: string, book: Book, owner: User)
  datatype InitResponse = InitResponse(shareId: string)
  datatype AcceptRequest = AcceptRequest(borrower: User)

  /** What the mediator stores for one share id; `borrower` is absent until accepted. */
  datatype TransactionData = TransactionData(action: string, book: Book, owner: User, borrower: Option<User>)

  /** The one-field payload carried by the hand-off QR code. */
  datatype ShareIdQrCode = ShareIdQrCode(shareId: string)

  /** OpenLibrary's description of one edition. */
  datatype Author = Author(name: string)
  datatype Cover = Cover(medium: string)
  datatype BookDetails = BookDetails(title: string, authors: Option<seq<Author>>, cover: Option<Cover>)

  /** A profile is complete when no contact field is the empty string (Kotlin's `isEmpty`). */
  predicate ProfileComplete(u: User)
  {
    |u.fullName| > 0 && |u.tel| > 0 && |u.email| > 0
  }
}
