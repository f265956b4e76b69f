/**
 * AcceptTransactionViewModel: the device that scanned the share id. It loads
 * the pending record, and on the user's confirmation checks the profile, calls
 * `accept` once and immediately reconciles its own tables.
 */
module Acceptor {
  import opened Entities
  import opened Repository
  import opened Handshake

  const MSG_LOAD_FAILED: string := "Erreur lors du chargement de la transaction: "
  const MSG_INCOMPLETE_PROFILE: string :=
    "Veuillez compléter votre profil (nom, téléphone, email) avant d'accepter une transaction"
  const MSG_NO_USER_ID: string := "User ID non trouvé."
  /** Fixed prefix of the message built from the caught exception. */
  const MSG_ACCEPT_FAILED: string := "Erreur lors de l'acceptation de la transaction: "

  /** The message `acceptTransaction` shows for a profile check that fails. */
  function GateMessage(g: Gate): (m: Option<string>)
    ensures m.None? <==> g.Ready?
  {
    match g
    case NoUserId => Some(MSG_NO_USER_ID)
    case UnknownUser => Some(MSG_ACCEPT_FAILED)
    case IncompleteProfile => Some(MSG_INCOMPLETE_PROFILE)
    case Ready(_) => None
  }

  class AcceptTransactionViewModel {
    const repo: BookRepository
    const prefs: Preferences
    const shareId: string
    var transactionData: Option<TransactionData>
    var isLoading: bool
    var errorMessage: Option<string>
    var transactionAccepted: bool

    constructor (repo: BookRepository, prefs: Preferences, shareId: string)
      ensures this.repo == repo && this.prefs == prefs && this.shareId == shareId
      ensures transactionData.None? && !isLoading && errorMessage.None? && !transactionAccepted
    {
      this.repo := repo;
      this.prefs := prefs;
      this.shareId := shareId;
      transactionData := None;
      isLoading := false;
      errorMessage := None;
      transactionAccepted := false;
    }

    /** `loadTransaction`: one `result` call; its record is shown, a failure sets the message. */
    method LoadTransaction(id: string, response: Result<TransactionData>)
      modifies this`transactionData, this`isLoading, this`errorMessage, repo`mediatorCalls
      ensures repo.mediatorCalls == old(repo.mediatorCalls) + [ResultCall(id)]
      ensures response.Ok? ==> transactionData == Some(response.value) && errorMessage.None?
      ensures response.Err? ==> transactionData == old(transactionData) && errorMessage == Some(MSG_LOAD_FAILED)
      ensures !isLoading
    {
      isLoading := true;
      errorMessage := None;
      var result := repo.ResultTransaction(id, response);
      match result {
        case Ok(d) =>
          transactionData := Some(d);
        case Err =>
          errorMessage := Some(MSG_LOAD_FAILED);
      }
      isLoading := false;
    }

    /**
     * `acceptTransaction`: nothing reaches the mediator unless the profile
     * check passes. On success the record and the accepted flag are set first,
     * then the tables are reconciled; any failure of the call sets the message
     * and leaves the tables alone. The loading flag is down on every path.
     */
    method AcceptTransaction(response: Result<TransactionData>)
      requires Keyed(repo.Tables())
      modifies this`transactionData, this`isLoading, this`errorMessage, this`transactionAccepted
      modifies repo`books, repo`users, repo`mediatorCalls
      ensures !isLoading
      ensures var gate := ProfileGate(old(prefs.userId), old(repo.users));
        if !gate.Ready? then
          && errorMessage == GateMessage(gate)
          && unchanged(repo)
          && transactionAccepted == old(transactionAccepted)
          && transactionData == old(transactionData)
        else
          && repo.mediatorCalls == old(repo.mediatorCalls) + [AcceptCall(shareId, AcceptRequest(gate.self))]
          && match response
             case Err =>
               && errorMessage == Some(MSG_ACCEPT_FAILED)
               && repo.Tables() == old(repo.Tables())
               && transactionAccepted == old(transactionAccepted)
               && transactionData == old(transactionData)
             case Ok(d) =>
               && errorMessage.None?
               && transactionAccepted
               && transactionData == Some(d)
               && repo.Tables() == AcceptorReconcile(old(repo.Tables()), old(prefs.userId).value, d)
    {
      isLoading := true;
      errorMessage := None;
      var userId := prefs.userId;
      if userId.None? {
        errorMessage := Some(MSG_NO_USER_ID);
        isLoading := false;
        return;
      }
      var user := repo.GetUserById(userId.value);
      if user.None? {
        // `user.fullName` on Room's null throws; the outer catch sets the message.
        errorMessage := Some(MSG_ACCEPT_FAILED);
        isLoading := false;
        return;
      }
      if !ProfileComplete(user.value) {
        errorMessage := Some(MSG_INCOMPLETE_PROFILE);
        isLoading := false;
        return;
      }
      ghost var start := repo.Tables();
      var accepted := repo.AcceptTransaction(shareId, user.value, response);
      if accepted.Err? {
        errorMessage := Some(MSG_ACCEPT_FAILED);
        isLoading := false;
        return;
      }
      var transaction := accepted.value;
      transactionData := Some(transaction);
      transactionAccepted := true;
      if transaction.action == LOAN {
        repo.InsertBook(transaction.book.(borrowerId := Some(userId.value), lenderId := Some(transaction.owner.uid)));
        repo.InsertUser(transaction.owner);
      } else if transaction.action == RETURN {
        // a missing local copy throws inside the inner try and is ignored
        var localBook := repo.GetBookById(transaction.book.uid);
        if localBook.Some? {
          repo.DeleteBook(localBook.value);
        }
      }
      assert repo.Tables() == AcceptorReconcile(start, userId.value, transaction);
      isLoading := false;
    }
  }
}
