/**
 * ReturnTransactionViewModel, the borrower-side legacy return screen: it loads
 * a book, and on confirmation deletes it from the local table, provided a book
 * was loaded and a user id is stored.
 */
module ReturnTransaction {
  import opened Entities
  import opened Repository
  import opened Handshake

  const MSG_BOOK_NOT_FOUND: string := "Livre non trouvé"
  const MSG_NO_USER_ID: string := "User ID non trouvé."

  class ReturnTransactionViewModel {
    const repo: BookRepository
    const prefs: Preferences
    var book: Option<Book>
    var transactionCompleted: bool
    var errorMessage: Option<string>
    var isLoading: bool

    constructor (repo: BookRepository, prefs: Preferences)
      ensures this.repo == repo && this.prefs == prefs
      ensures book.None? && !transactionCompleted && errorMessage.None? && !isLoading
    {
      this.repo := repo;
      this.prefs := prefs;
      book := None;
      transactionCompleted := false;
      errorMessage := None;
      isLoading := false;
    }

    /** `initiateReturn`: the row is stored as read, None where Room yields null. */
    method InitiateReturn(bookId: string)
      modifies this`book, this`errorMessage, this`isLoading
      ensures book == (if bookId in repo.books then Some(repo.books[bookId]) else None)
      ensures errorMessage.None? && !isLoading
    {
      errorMessage := None;
      isLoading := true;
      var loadedBook := repo.GetBookById(bookId);
      book := loadedBook;
      isLoading := false;
    }

    /**
     * `confirmReturn`: without a loaded book, or without a stored user id, the
     * matching message is set and nothing is deleted; otherwise the loaded
     * book's row is deleted and the return is complete, which leaves the tables
     * as the acceptor's side of a RETURN handshake for that book does. The loading flag is
     * down after every path, early returns included.
     */
    method ConfirmReturn()
      modifies this`errorMessage, this`isLoading, this`transactionCompleted, repo`books
      ensures !isLoading
      ensures old(book).None? ==>
        errorMessage == Some(MSG_BOOK_NOT_FOUND) && repo.books == old(repo.books) && transactionCompleted == old(transactionCompleted)
      ensures old(book).Some? && prefs.userId.None? ==>
        errorMessage == Some(MSG_NO_USER_ID) && repo.books == old(repo.books) && transactionCompleted == old(transactionCompleted)
      ensures old(book).Some? && prefs.userId.Some? ==>
        && errorMessage.None? && transactionCompleted
        && repo.books == old(repo.books) - {old(book).value.uid}
        && forall d: TransactionData :: d.action == RETURN && d.book.uid == old(book).value.uid ==>
             repo.Tables() == AcceptorReconcile(old(repo.Tables()), prefs.userId.value, d)
    {
      errorMessage := None;
      isLoading := true;
      var currentBook := book;
      if currentBook.None? {
        errorMessage := Some(MSG_BOOK_NOT_FOUND);
        isLoading := false;
        return;
      }
      var currentUserUid := prefs.userId;
      if currentUserUid.None? {
        errorMessage := Some(MSG_NO_USER_ID);
        isLoading := false;
        return;
      }
      repo.DeleteBook(currentBook.value);
      transactionCompleted := true;
      isLoading := false;
    }
  }
}
