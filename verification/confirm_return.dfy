/**
 * ConfirmReturnViewModel, the lender-side legacy return screen: it loads the
 * book and its borrower from the local tables, then rereads the book row every
 * two seconds, at most 60 times, until the row shows no borrower. The rows read
 * on successive ticks are an input sequence (other coroutines may write the
 * table in between): `ticks[k]` is what read k+1 yields, None where Room yields
 * null, and a read beyond the sequence yields None.
 */
module ConfirmReturn {
  import opened Entities
  import opened Repository
  import opened FirstHit

  const MAX_RETURN_POLLS: nat := 60

  const MSG_NO_BORROWER: string := "Ce livre n'a pas d'emprunteur"
  /** Fixed prefix of the message built from the caught exception. */
  const MSG_LOAD_FAILED: string := "Erreur lors du chargement des données de retour: "
  const MSG_TIMEOUT: string := "Délai d'attente dépassé. Veuillez réessayer."

  /** The row read on tick k (0-based). */
  function ObservedAt(ticks: seq<Option<Book>>, k: nat): Option<Book>
  {
    if k < |ticks| then ticks[k] else None
  }

  /**
   * Tick k confirms the return when the row is there and has no borrower. A
   * missing row makes `updatedBook.borrowerId` throw, which the loop swallows.
   */
  predicate ShowsReturned(ticks: seq<Option<Book>>, k: nat)
  {
    ObservedAt(ticks, k).Some? && ObservedAt(ticks, k).value.borrowerId.None?
  }

  function ReturnedHits(ticks: seq<Option<Book>>): (hits: seq<bool>)
    ensures |hits| == MAX_RETURN_POLLS
    ensures forall k :: 0 <= k < |hits| ==> hits[k] == ShowsReturned(ticks, k)
  {
    seq(MAX_RETURN_POLLS, k requires 0 <= k => ShowsReturned(ticks, k))
  }

  /** The tick that confirms the return, if any within the budget. */
  function ReturnObserved(ticks: seq<Option<Book>>): Option<nat>
  {
    FirstTrue(ReturnedHits(ticks), 0)
  }

  /** The confirming tick is within the 60 reads, shows no borrower, and no earlier read did. */
  lemma ReturnObservedIsFirst(ticks: seq<Option<Book>>)
    ensures ReturnObserved(ticks).Some? ==>
      var i := ReturnObserved(ticks).value;
      && i < MAX_RETURN_POLLS
      && ShowsReturned(ticks, i)
      && forall j :: 0 <= j < i ==> !ShowsReturned(ticks, j)
    ensures ReturnObserved(ticks).None? <==> forall k :: 0 <= k < MAX_RETURN_POLLS ==> !ShowsReturned(ticks, k)
  {
    FirstTrueIsLeast(ReturnedHits(ticks), 0);
  }

  /**
   * The current handshake deletes the row on the lender's device instead of
   * clearing its borrower, so a screen that only ever reads a deleted row or a
   * row that is still lent never confirms.
   */
  lemma DeletedOrLentRowNeverConfirms(ticks: seq<Option<Book>>)
    requires forall k :: 0 <= k < |ticks| ==> ticks[k].None? || ticks[k].value.borrowerId.Some?
    ensures ReturnObserved(ticks).None?
  {
    ReturnObservedIsFirst(ticks);
  }

  class ConfirmReturnViewModel {
    const repo: BookRepository
    var book: Option<Book>
    var borrower: Option<User>
    var isLoading: bool
    var errorMessage: Option<string>
    var returnConfirmed: bool

    constructor (repo: BookRepository)
      ensures this.repo == repo
      ensures book.None? && borrower.None? && !isLoading && errorMessage.None? && !returnConfirmed
    {
      this.repo := repo;
      book := None;
      borrower := None;
      isLoading := false;
      errorMessage := None;
      returnConfirmed := false;
    }

    /**
     * How a wait that started with `wasConfirmed`, `startBook` and `startError`
     * ended after `polls` reads: no reads at all if the return was already
     * confirmed; else confirmed on the first read that shows no borrower, with
     * that row shown; else the timeout message after exactly 60 reads.
     */
    predicate WaitOutcome(ticks: seq<Option<Book>>, wasConfirmed: bool, startBook: Option<Book>,
                          startError: Option<string>, polls: nat)
      reads this
    {
      if wasConfirmed then
        polls == 0 && returnConfirmed && book == startBook && errorMessage == startError
      else
        match ReturnObserved(ticks)
        case Some(i) =>
          polls == i + 1 && returnConfirmed && book == ObservedAt(ticks, i) && errorMessage == startError
        case None =>
          polls == MAX_RETURN_POLLS && !returnConfirmed && book == startBook && errorMessage == Some(MSG_TIMEOUT)
    }

    /** `pollForReturnConfirmation`: returns the number of reads made. */
    method PollForReturnConfirmation(ticks: seq<Option<Book>>) returns (polls: nat)
      modifies this`book, this`returnConfirmed, this`errorMessage
      ensures polls <= MAX_RETURN_POLLS
      ensures WaitOutcome(ticks, old(returnConfirmed), old(book), old(errorMessage), polls)
    {
      ghost var hits := ReturnedHits(ticks);
      var pollCount: nat := 0;
      while !returnConfirmed && pollCount < MAX_RETURN_POLLS
        invariant pollCount <= MAX_RETURN_POLLS
        invariant returnConfirmed == old(returnConfirmed)
        invariant old(returnConfirmed) ==> pollCount == 0
        invariant book == old(book) && errorMessage == old(errorMessage)
        invariant forall j :: 0 <= j < pollCount ==> !hits[j]
      {
        pollCount := pollCount + 1;
        var updatedBook := ObservedAt(ticks, pollCount - 1);
        if updatedBook.Some? && updatedBook.value.borrowerId.None? {
          book := updatedBook;
          returnConfirmed := true;
          FirstTrueOfLeast(hits, 0, pollCount - 1);
          break;
        }
        // a missing row throws on `borrowerId`; the loop carries on
      }
      FirstTrueIsLeast(hits, 0);
      if pollCount >= MAX_RETURN_POLLS && !returnConfirmed {
        errorMessage := Some(MSG_TIMEOUT);
      }
      polls := pollCount;
    }

    /**
     * `loadReturnData`: shows the row (None where Room yields null); a missing
     * row fails on `borrowerId`; a row without borrower is an error and no poll
     * starts; otherwise the borrower (None if not cached) is shown and the wait
     * begins. The tables are only read.
     */
    method LoadReturnData(bookUid: string, ticks: seq<Option<Book>>) returns (polls: nat)
      modifies this`book, this`borrower, this`isLoading, this`errorMessage, this`returnConfirmed
      ensures !isLoading
      ensures polls <= MAX_RETURN_POLLS
      ensures bookUid !in repo.books ==>
        && book.None? && errorMessage == Some(MSG_LOAD_FAILED)
        && borrower == old(borrower) && returnConfirmed == old(returnConfirmed) && polls == 0
      ensures bookUid in repo.books && repo.books[bookUid].borrowerId.None? ==>
        && book == Some(repo.books[bookUid]) && errorMessage == Some(MSG_NO_BORROWER)
        && borrower == old(borrower) && returnConfirmed == old(returnConfirmed) && polls == 0
      ensures bookUid in repo.books && repo.books[bookUid].borrowerId.Some? ==>
        var borrowerId := repo.books[bookUid].borrowerId.value;
        && borrower == (if borrowerId in repo.users then Some(repo.users[borrowerId]) else None)
        && WaitOutcome(ticks, old(returnConfirmed), Some(repo.books[bookUid]), None, polls)
    {
      isLoading := true;
      errorMessage := None;
      polls := 0;
      var bookFromDb := repo.GetBookById(bookUid);
      book := bookFromDb;
      if bookFromDb.None? {
        errorMessage := Some(MSG_LOAD_FAILED);
      } else if bookFromDb.value.borrowerId.Some? {
        var borrowerFromDb := repo.GetUserById(bookFromDb.value.borrowerId.value);
        borrower := borrowerFromDb;
        polls := PollForReturnConfirmation(ticks);
      } else {
        errorMessage := Some(MSG_NO_BORROWER);
      }
      isLoading := false;
    }
  }
}
