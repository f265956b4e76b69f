/**
 * The rules both sides of a lend/return handshake apply: the profile check run
 * before any mediator call, the book snapshot the initiator sends, and what
 * each device does to its own tables once it knows the outcome. In the app these
 * rules are written inline in TransactionViewModel (initiator) and
 * AcceptTransactionViewModel (acceptor); here each is one function that those
 * view models' methods are proved to follow.
 */
module Handshake {
  import opened Entities
  import opened Repository

  /** The outcome of the profile check that guards `init` and `accept`. */
  datatype Gate =
    | NoUserId            // no "user_id" preference
    | UnknownUser         // the preference names no row: dereferencing Room's null throws
    | IncompleteProfile   // a contact field is the empty string
    | Ready(self: User)

  function ProfileGate(userId: Option<string>, users: map<string, User>): (g: Gate)
    ensures g.Ready? <==> userId.Some? && userId.value in users && ProfileComplete(users[userId.value])
    ensures g.Ready? ==> g.self == users[userId.value]
    ensures g.NoUserId? <==> userId.None?
    ensures g.UnknownUser? <==> userId.Some? && userId.value !in users
    ensures g.IncompleteProfile? <==> userId.Some? && userId.value in users && !ProfileComplete(users[userId.value])
  {
    match userId
    case None => NoUserId
    case Some(id) =>
      if id !in users then UnknownUser
      else if !ProfileComplete(users[id]) then IncompleteProfile
      else Ready(users[id])
  }

  /** Any empty contact field stops the handshake before the mediator is contacted. */
  lemma EmptyFieldBlocks(id: string, users: map<string, User>)
    requires id in users
    requires users[id].fullName == "" || users[id].tel == "" || users[id].email == ""
    ensures ProfileGate(Some(id), users) == IncompleteProfile
  {
  }

  /** A non-empty string of spaces only: blank, but not empty. */
  predicate AllSpaces(s: string)
  {
    |s| > 0 && forall i :: 0 <= i < |s| ==> s[i] == ' '
  }

  /** The check is `isEmpty`, not `isBlank`: a profile of blanks passes. */
  lemma BlankFieldsPass(id: string, users: map<string, User>)
    requires id in users
    requires AllSpaces(users[id].fullName) && AllSpaces(users[id].tel) && AllSpaces(users[id].email)
    ensures ProfileGate(Some(id), users) == Ready(users[id])
  {
  }

  /** The snapshot sent with `init`: a RETURN clears `borrowerId`, a LOAN sends the row as it is. */
  function BookToSend(book: Book, action: string): (b: Book)
    ensures b.(borrowerId := book.borrowerId) == book
    ensures action == RETURN ==> b.borrowerId.None?
    ensures action != RETURN ==> b == book
  {
    if action == RETURN then book.(borrowerId := None) else book
  }

  /** Both book tables agree at `k`: present in both with the same row, or absent from both. */
  predicate SameAt(m1: map<string, Book>, m2: map<string, Book>, k: string)
  {
    (k in m1 <==> k in m2) && (k in m1 ==> m1[k] == m2[k])
  }

  /** Both users tables agree at `k`. */
  predicate SameUserAt(m1: map<string, User>, m2: map<string, User>, k: string)
  {
    (k in m1 <==> k in m2) && (k in m1 ==> m1[k] == m2[k])
  }

  /**
   * What the initiator does once its poll resolves, by the action it started
   * (its own `action`, not the record's): on LOAN the local row gets the
   * borrower's uid and the borrower is cached; on RETURN the row is deleted.
   * A missing row throws inside the poll loop's try, so nothing changes.
   */
  function InitiatorReconcile(l: Ledger, action: string, d: TransactionData): (r: Ledger)
    ensures forall k :: k != d.book.uid ==> SameAt(l.books, r.books, k)
    ensures action == RETURN ==> d.book.uid !in r.books && r.users == l.users
    ensures action == LOAN && d.borrower.Some? && d.book.uid in l.books ==>
      && d.book.uid in r.books
      && r.books[d.book.uid].borrowerId == Some(d.borrower.value.uid)
      && r.books[d.book.uid].(borrowerId := l.books[d.book.uid].borrowerId) == l.books[d.book.uid]
      && d.borrower.value.uid in r.users && r.users[d.borrower.value.uid] == d.borrower.value
    ensures action == LOAN && (d.borrower.None? || d.book.uid !in l.books) ==> r == l
    ensures action != LOAN && action != RETURN ==> r == l
    ensures forall k :: !(action == LOAN && d.borrower.Some? && k == d.borrower.value.uid) ==> SameUserAt(l.users, r.users, k)
  {
    if action == LOAN then
      match d.borrower
      case None => l
      case Some(borrower) =>
        if d.book.uid in l.books then
          Ledger(l.books[d.book.uid := l.books[d.book.uid].(borrowerId := Some(borrower.uid))],
                 l.users[borrower.uid := borrower])
        else l
    else if action == RETURN then
      Ledger(l.books - {d.book.uid}, l.users)
    else l
  }

  /**
   * What the acceptor does right after `accept` succeeds: on LOAN it stores the
   * book as borrowed by `self` from the owner and caches the owner; on RETURN
   * it deletes its copy, a missing copy being no error.
   */
  function AcceptorReconcile(l: Ledger, self: string, d: TransactionData): (r: Ledger)
    ensures forall k :: k != d.book.uid ==> SameAt(l.books, r.books, k)
    ensures d.action == LOAN ==>
      && d.book.uid in r.books
      && r.books[d.book.uid].borrowerId == Some(self)
      && r.books[d.book.uid].lenderId == Some(d.owner.uid)
      && r.books[d.book.uid].(borrowerId := d.book.borrowerId, lenderId := d.book.lenderId) == d.book
      && d.owner.uid in r.users && r.users[d.owner.uid] == d.owner
    ensures d.action == RETURN ==> d.book.uid !in r.books && r.users == l.users
    ensures d.action != LOAN && d.action != RETURN ==> r == l
    ensures forall k :: !(d.action == LOAN && k == d.owner.uid) ==> SameUserAt(l.users, r.users, k)
  {
    if d.action == LOAN then
      Ledger(l.books[d.book.uid := d.book.(borrowerId := Some(self), lenderId := Some(d.owner.uid))],
             l.users[d.owner.uid := d.owner])
    else if d.action == RETURN then
      Ledger(l.books - {d.book.uid}, l.users)
    else l
  }

  /** Seeing the same outcome twice changes the initiator's tables only once. */
  lemma InitiatorReconcileIdempotent(l: Ledger, action: string, d: TransactionData)
    ensures InitiatorReconcile(InitiatorReconcile(l, action, d), action, d) == InitiatorReconcile(l, action, d)
  {
    if action == LOAN && d.borrower.Some? && d.book.uid in l.books {
      var once := InitiatorReconcile(l, action, d);
      assert once.books[d.book.uid := once.books[d.book.uid]] == once.books;
      assert once.users[d.borrower.value.uid := d.borrower.value] == once.users;
    }
  }

  /** Seeing the same outcome twice changes the acceptor's tables only once. */
  lemma AcceptorReconcileIdempotent(l: Ledger, self: string, d: TransactionData)
    ensures AcceptorReconcile(AcceptorReconcile(l, self, d), self, d) == AcceptorReconcile(l, self, d)
  {
    if d.action == LOAN {
      var once := AcceptorReconcile(l, self, d);
      assert once.books[d.book.uid := once.books[d.book.uid]] == once.books;
      assert once.users[d.owner.uid := d.owner] == once.users;
    }
  }

  /** Neither side's reconciliation breaks the primary-key discipline of the tables. */
  lemma ReconcileKeepsKeyed(l: Ledger, action: string, self: string, d: TransactionData)
    requires Keyed(l)
    ensures Keyed(InitiatorReconcile(l, action, d))
    ensures Keyed(AcceptorReconcile(l, self, d))
  {
  }

  /**
   * A completed LOAN leaves the lender's row pointing at the borrower and the
   * borrower's row pointing back at the lender, each side caching the other.
   */
  lemma LoanLeavesBothSidesAgreeing(lender: Ledger, borrower: Ledger, d: TransactionData, self: string)
    requires d.action == LOAN
    requires d.borrower.Some? && d.borrower.value.uid == self
    requires d.book.uid in lender.books
    ensures var lenderAfter := InitiatorReconcile(lender, LOAN, d);
            var borrowerAfter := AcceptorReconcile(borrower, self, d);
            && lenderAfter.books[d.book.uid].borrowerId == Some(self)
            && borrowerAfter.books[d.book.uid].borrowerId == Some(self)
            && borrowerAfter.books[d.book.uid].lenderId == Some(d.owner.uid)
            && lenderAfter.users[self] == d.borrower.value
            && borrowerAfter.users[d.owner.uid] == d.owner
  {
  }

  /** A completed RETURN leaves the book on neither device. */
  lemma ReturnRemovesFromBothSides(lender: Ledger, borrower: Ledger, d: TransactionData, self: string)
    requires d.action == RETURN
    ensures d.book.uid !in InitiatorReconcile(lender, RETURN, d).books
    ensures d.book.uid !in AcceptorReconcile(borrower, self, d).books
  {
  }

  /** On a device that did not have the book, borrowing it and then returning it restores the book table. */
  lemma {:induction false} AcceptorLoanThenReturnRestores(l: Ledger, self: string, loan: TransactionData, ret: TransactionData)
    requires loan.action == LOAN && ret.action == RETURN
    requires loan.book.uid == ret.book.uid && loan.book.uid !in l.books
    ensures AcceptorReconcile(AcceptorReconcile(l, self, loan), self, ret).books == l.books
  {
    var after := AcceptorReconcile(AcceptorReconcile(l, self, loan), self, ret);
    forall k
      ensures k in after.books <==> k in l.books
    {
    }
  }
}
