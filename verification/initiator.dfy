/**
 * TransactionViewModel: the device that starts a LOAN or a RETURN. It checks
 * the profile, sends `init` with the book snapshot, shows the share id, and
 * polls `result` once per second, at most 120 times, until the other device
 * has accepted. The poll answers are an input sequence: answer k is what the
 * (k+1)-th `result` call returns, and an exhausted sequence reads as a failure.
 */
module Initiator {
  import opened Entities
  import opened Repository
  import opened Handshake
  import opened FirstHit

  const MAX_POLL_ATTEMPTS: nat := 120

  const MSG_INCOMPLETE_PROFILE: string :=
    "Veuillez compléter votre profil (nom, téléphone, email) avant de faire une transaction"
  /** Fixed prefix of the message built from the caught exception. */
  const MSG_INIT_FAILED: string := "Erreur lors de l'initialisation de la transaction: "
  const MSG_NO_USER_ID: string := "User ID non trouvé. Veuillez vous connecter."
  const MSG_TIMEOUT: string :=
    "Délai d'attente dépassé. L'autre utilisateur n'a pas confirmé la transaction à temps."

  /** The answer to the (k+1)-th poll. */
  function ResponseAt(results: seq<Result<TransactionData>>, k: nat): Result<TransactionData>
  {
    if k < |results| then results[k] else Err
  }

  /** `initialBorrowerState`: whether poll #1 saw a borrower, or None when poll #1 failed. */
  function InitialBorrowerState(results: seq<Result<TransactionData>>): Option<bool>
  {
    match ResponseAt(results, 0)
    case Ok(d) => Some(d.borrower.Some?)
    case Err => None
  }

  /**
   * The resolution test of poll k: a LOAN needs a successful answer with a
   * borrower; a RETURN additionally needs poll #1 to have succeeded without one.
   */
  predicate ResolvesAt(action: string, results: seq<Result<TransactionData>>, k: nat)
  {
    match ResponseAt(results, k)
    case Err => false
    case Ok(d) =>
      || (action == LOAN && d.borrower.Some?)
      || (action == RETURN && InitialBorrowerState(results) == Some(false) && d.borrower.Some?)
  }

  function ResolutionHits(action: string, results: seq<Result<TransactionData>>): (hits: seq<bool>)
    ensures |hits| == MAX_POLL_ATTEMPTS
    ensures forall k :: 0 <= k < |hits| ==> hits[k] == ResolvesAt(action, results, k)
  {
    seq(MAX_POLL_ATTEMPTS, k requires 0 <= k => ResolvesAt(action, results, k))
  }

  /** The poll that resolves the transaction (0-based) and the record it returned. */
  datatype Resolved = Resolved(attempt: nat, data: TransactionData)

  /** The first resolving poll within the budget, with the record it returned. */
  function Resolution(action: string, results: seq<Result<TransactionData>>): (r: Option<Resolved>)
    ensures r.Some? ==>
      && r.value.attempt < MAX_POLL_ATTEMPTS
      && ResponseAt(results, r.value.attempt) == Ok(r.value.data)
      && r.value.data.borrower.Some?
  {
    FirstTrueIsLeast(ResolutionHits(action, results), 0);
    match FirstTrue(ResolutionHits(action, results), 0)
    case None => None
    case Some(k) =>
      match ResponseAt(results, k)
      case Ok(d) => Some(Resolved(k, d))
      case Err => None
  }

  /** A resolution happens within the budget, on a successful poll that shows a borrower, and on no earlier poll. */
  lemma ResolutionIsFirstAccepted(action: string, results: seq<Result<TransactionData>>)
    ensures Resolution(action, results).Some? ==>
      var res := Resolution(action, results).value;
      && res.attempt < MAX_POLL_ATTEMPTS
      && ResponseAt(results, res.attempt) == Ok(res.data)
      && res.data.borrower.Some?
      && ResolvesAt(action, results, res.attempt)
      && forall j :: 0 <= j < res.attempt ==> !ResolvesAt(action, results, j)
    ensures Resolution(action, results).None? <==>
      forall j :: 0 <= j < MAX_POLL_ATTEMPTS ==> !ResolvesAt(action, results, j)
  {
    FirstTrueIsLeast(ResolutionHits(action, results), 0);
  }

  /** LOAN resolves on the first successful poll whose record has a borrower. */
  lemma LoanResolvesOnFirstAcceptedPoll(results: seq<Result<TransactionData>>, i: nat)
    requires i < MAX_POLL_ATTEMPTS
    requires ResponseAt(results, i).Ok? && ResponseAt(results, i).value.borrower.Some?
    requires forall j :: 0 <= j < i ==> !(ResponseAt(results, j).Ok? && ResponseAt(results, j).value.borrower.Some?)
    ensures Resolution(LOAN, results) == Some(Resolved(i, ResponseAt(results, i).value))
  {
    FirstTrueOfLeast(ResolutionHits(LOAN, results), 0, i);
  }

  /** A RETURN never resolves on the first poll, even when that poll already shows a borrower. */
  lemma ReturnNeverResolvesOnFirstPoll(results: seq<Result<TransactionData>>)
    ensures Resolution(RETURN, results).Some? ==> Resolution(RETURN, results).value.attempt > 0
  {
    ResolutionIsFirstAccepted(RETURN, results);
  }

  /**
   * A RETURN can only resolve when poll #1 succeeded and showed no borrower: if
   * poll #1 failed, or the record still carried the LOAN's borrower, the RETURN
   * runs into the timeout.
   */
  lemma ReturnNeedsBorrowerlessFirstPoll(results: seq<Result<TransactionData>>)
    requires InitialBorrowerState(results) != Some(false)
    ensures Resolution(RETURN, results).None?
  {
    ResolutionIsFirstAccepted(RETURN, results);
  }

  /** A RETURN resolves on the first later poll that sees the borrower appear. */
  lemma ReturnResolvesOnFirstTransition(results: seq<Result<TransactionData>>, i: nat)
    requires 0 < i < MAX_POLL_ATTEMPTS
    requires InitialBorrowerState(results) == Some(false)
    requires ResponseAt(results, i).Ok? && ResponseAt(results, i).value.borrower.Some?
    requires forall j :: 0 < j < i ==> !(ResponseAt(results, j).Ok? && ResponseAt(results, j).value.borrower.Some?)
    ensures Resolution(RETURN, results) == Some(Resolved(i, ResponseAt(results, i).value))
  {
    FirstTrueOfLeast(ResolutionHits(RETURN, results), 0, i);
  }

  /** An action other than LOAN or RETURN can never resolve. */
  lemma UnknownActionTimesOut(action: string, results: seq<Result<TransactionData>>)
    requires action != LOAN && action != RETURN
    ensures Resolution(action, results).None?
  {
    ResolutionIsFirstAccepted(action, results);
  }

  class TransactionViewModel {
    const repo: BookRepository
    const prefs: Preferences
    const bookId: string
    const action: string
    var shareId: Option<string>
    var transactionResult: Option<TransactionData>
    var errorMessage: Option<string>

    /** The state before `init` runs `initTransaction`. */
    constructor (repo: BookRepository, prefs: Preferences, bookId: string, action: string)
      ensures this.repo == repo && this.prefs == prefs && this.bookId == bookId && this.action == action
      ensures shareId.None? && transactionResult.None? && errorMessage.None?
    {
      this.repo := repo;
      this.prefs := prefs;
      this.bookId := bookId;
      this.action := action;
      shareId := None;
      transactionResult := None;
      errorMessage := None;
    }

    /**
     * `initTransaction`: the profile check, the `init` call with the book
     * snapshot, then the poll loop. No mediator call is made unless the profile
     * check passes and the book is in the local table.
     */
    method InitTransaction(initResponse: Result<InitResponse>, results: seq<Result<TransactionData>>)
      requires transactionResult.None? && errorMessage.None?
      requires Keyed(repo.Tables())
      modifies this`shareId, this`transactionResult, this`errorMessage
      modifies repo`books, repo`users, repo`mediatorCalls
      ensures var gate := ProfileGate(old(prefs.userId), old(repo.users));
        match gate
        case NoUserId =>
          errorMessage == Some(MSG_NO_USER_ID) && unchanged(repo) && shareId == old(shareId)
        case UnknownUser =>
          errorMessage == Some(MSG_INIT_FAILED) && unchanged(repo) && shareId == old(shareId)
        case IncompleteProfile =>
          errorMessage == Some(MSG_INCOMPLETE_PROFILE) && unchanged(repo) && shareId == old(shareId)
        case Ready(user) =>
          if bookId !in old(repo.books) then
            errorMessage == Some(MSG_INIT_FAILED) && unchanged(repo) && shareId == old(shareId)
          else
            var sent := InitCall(InitRequest(action, BookToSend(old(repo.books)[bookId], action), user));
            match initResponse
            case Err =>
              && errorMessage == Some(MSG_INIT_FAILED) && shareId == old(shareId)
              && repo.mediatorCalls == old(repo.mediatorCalls) + [sent]
              && repo.Tables() == old(repo.Tables())
            case Ok(resp) =>
              && shareId == Some(resp.shareId)
              && |repo.mediatorCalls| > |old(repo.mediatorCalls)|
              && repo.mediatorCalls[..|old(repo.mediatorCalls)| + 1] == old(repo.mediatorCalls) + [sent]
              && PolledToOutcome(results, old(repo.Tables()))
      ensures transactionResult.Some? ==> errorMessage.None?
    {
      var userId := prefs.userId;
      if userId.None? {
        errorMessage := Some(MSG_NO_USER_ID);
        return;
      }
      var user := repo.GetUserById(userId.value);
      if user.None? {
        // `user.fullName` on Room's null throws; the catch sets the message.
        errorMessage := Some(MSG_INIT_FAILED);
        return;
      }
      if !ProfileComplete(user.value) {
        errorMessage := Some(MSG_INCOMPLETE_PROFILE);
        return;
      }
      var bookFromDb := repo.GetBookById(bookId);
      if bookFromDb.None? {
        errorMessage := Some(MSG_INIT_FAILED);
        return;
      }
      var bookToSend := if action == RETURN then bookFromDb.value.(borrowerId := None) else bookFromDb.value;
      ghost var before := repo.mediatorCalls;
      ghost var tables := repo.Tables();
      var id := repo.InitTransaction(bookToSend, user.value, action, initResponse);
      if id.Err? {
        errorMessage := Some(MSG_INIT_FAILED);
        return;
      }
      shareId := Some(id.value);
      var _ := PollForResult(id.value, results);
      assert repo.mediatorCalls[..|before| + 1] == before + [InitCall(InitRequest(action, bookToSend, user.value))];
    }

    /** The state the poll loop leaves behind, given the answers it read and the tables it started from. */
    ghost predicate PolledToOutcome(results: seq<Result<TransactionData>>, start: Ledger)
      reads this, repo
    {
      match Resolution(action, results)
      case Some(res) =>
        && transactionResult == Some(res.data)
        && repo.Tables() == InitiatorReconcile(start, action, res.data)
        && errorMessage.None?
      case None =>
        && transactionResult.None?
        && repo.Tables() == start
        && errorMessage == Some(MSG_TIMEOUT)
    }

    /**
     * `pollForResult`: each attempt first counts itself, then calls `result`;
     * a failed call still uses up its attempt. The first resolving answer is
     * recorded before the tables are reconciled, and the loop stops even when
     * reconciliation finds no local row. After 120 fruitless attempts the
     * timeout message is set and the tables are untouched.
     */
    method PollForResult(id: string, results: seq<Result<TransactionData>>) returns (polls: nat)
      requires transactionResult.None? && errorMessage.None?
      requires Keyed(repo.Tables())
      modifies this`transactionResult, this`errorMessage, repo`books, repo`users, repo`mediatorCalls
      ensures polls == match Resolution(action, results) case Some(res) => res.attempt + 1 case None => MAX_POLL_ATTEMPTS
      ensures polls <= MAX_POLL_ATTEMPTS
      ensures repo.mediatorCalls == old(repo.mediatorCalls) + seq(polls, _ => ResultCall(id))
      ensures PolledToOutcome(results, old(repo.Tables()))
    {
      ghost var start := repo.Tables();
      ghost var hits := ResolutionHits(action, results);
      var pollCount := 0;
      var initialBorrowerState: Option<bool> := None;
      while transactionResult.None? && pollCount < MAX_POLL_ATTEMPTS
        invariant 0 <= pollCount <= MAX_POLL_ATTEMPTS
        invariant repo.mediatorCalls == old(repo.mediatorCalls) + seq(pollCount, _ => ResultCall(id))
        invariant initialBorrowerState == if pollCount == 0 then None else InitialBorrowerState(results)
        invariant transactionResult.None?
        invariant repo.Tables() == start
        invariant errorMessage.None?
        invariant forall j :: 0 <= j < pollCount ==> !hits[j]
      {
        pollCount := pollCount + 1;
        var result := repo.ResultTransaction(id, ResponseAt(results, pollCount - 1));
        assert repo.mediatorCalls == old(repo.mediatorCalls) + seq(pollCount, _ => ResultCall(id));
        if result.Err? {
          // the catch logs the failure and the loop goes on
          continue;
        }
        var r := result.value;
        var borrowerState := r.borrower.Some?;
        if pollCount == 1 {
          initialBorrowerState := Some(borrowerState);
        }
        if action == LOAN && r.borrower.Some? {
          transactionResult := Some(r);
          FirstTrueOfLeast(hits, 0, pollCount - 1);
          var bookToUpdate := repo.GetBookById(r.book.uid);
          if bookToUpdate.Some? {
            repo.UpdateBook(bookToUpdate.value.(borrowerId := Some(r.borrower.value.uid)));
            repo.InsertUser(r.borrower.value);
          }
          assert repo.Tables() == InitiatorReconcile(start, action, r);
          assert Resolution(action, results) == Some(Resolved(pollCount - 1, r));
          break;
        } else if action == RETURN {
          if initialBorrowerState == Some(false) && borrowerState {
            transactionResult := Some(r);
            FirstTrueOfLeast(hits, 0, pollCount - 1);
            var bookToDelete := repo.GetBookById(r.book.uid);
            if bookToDelete.Some? {
              repo.DeleteBook(bookToDelete.value);
            }
            assert repo.Tables() == InitiatorReconcile(start, action, r);
            assert Resolution(action, results) == Some(Resolved(pollCount - 1, r));
            break;
          }
        }
      }
      FirstTrueIsLeast(hits, 0);
      if pollCount >= MAX_POLL_ATTEMPTS && transactionResult.None? {
        errorMessage := Some(MSG_TIMEOUT);
      }
      polls := pollCount;
    }
  }
}
