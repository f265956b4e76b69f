/**
 * MainActivity: the status label and the single button of `BookItem`, what a
 * click does on each of the three list screens, and what the scanner result
 * launched from the floating button feeds back into the library.
 */
module BookItem {
  import opened Entities
  import opened Library
  import opened Scanner
  import opened Repository
  import opened Handshake

  /** The status of a book, its cases in the order of `BookItem`'s `when`. */
  datatype Status = Available | LentTo(borrowerName: string) | LentBy(lenderName: string) | Unavailable

  const NAME_FALLBACK: string := "inconnu"

  /** The name shown for a party whose name is not (yet) known. */
  function OrUnknown(name: Option<string>): string
  {
    match name
    case None => NAME_FALLBACK
    case Some(n) => n
  }

  function BookStatus(b: Book, borrowerName: Option<string>, lenderName: Option<string>): (s: Status)
    ensures s.Available? <==> b.lenderId.None? && b.borrowerId.None?
    ensures s.LentTo? <==> b.borrowerId.Some? && b.lenderId.None?
    ensures s.LentBy? <==> b.lenderId.Some?
    ensures s.LentTo? ==> s.borrowerName == OrUnknown(borrowerName)
    ensures s.LentBy? ==> s.lenderName == OrUnknown(lenderName)
  {
    if b.lenderId.None? && b.borrowerId.None? then Available
    else if b.borrowerId.Some? && b.lenderId.None? then LentTo(OrUnknown(borrowerName))
    else if b.lenderId.Some? then LentBy(OrUnknown(lenderName))
    else Unavailable
  }

  /** The first three cases cover every book: "Non disponible" is never shown. */
  lemma NeverUnavailable(b: Book, borrowerName: Option<string>, lenderName: Option<string>)
    ensures !BookStatus(b, borrowerName, lenderName).Unavailable?
  {
  }

  /**
   * The name a list passes to `BookItem` for a party id: looked up with
   * `getUserFullName` when the id is set, nothing otherwise.
   */
  function ShownName(users: map<string, User>, id: Option<string>): (name: Option<string>)
    ensures name.Some? <==> id.Some?
    ensures id.Some? && id.value in users ==> name == Some(users[id.value].fullName)
  {
    if id.Some? then Some(UserFullName(users, id)) else None
  }

  const LENT_TO_PREFIX: string := "Prêté à "
  const LENT_BY_PREFIX: string := "Prêté par "

  /** The label of a status; the two prefixed labels never read as one of the fixed ones. */
  function StatusText(s: Status): (t: string)
    ensures t == "Disponible" <==> s.Available?
    ensures t == "Non disponible" <==> s.Unavailable?
    ensures s.LentTo? ==> LENT_TO_PREFIX <= t
    ensures s.LentBy? ==> LENT_BY_PREFIX <= t
  {
    match s
    case Available => "Disponible"
    case LentTo(name) =>
      assert (LENT_TO_PREFIX + name)[0] == 'P';
      LENT_TO_PREFIX + name
    case LentBy(name) =>
      assert (LENT_BY_PREFIX + name)[0] == 'P';
      LENT_BY_PREFIX + name
    case Unavailable => "Non disponible"
  }

  /** Reads a status back from its label. */
  function StatusOfText(t: string): Option<Status>
  {
    if t == "Disponible" then Some(Available)
    else if t == "Non disponible" then Some(Unavailable)
    else if |t| >= |LENT_TO_PREFIX| && t[..|LENT_TO_PREFIX|] == LENT_TO_PREFIX then Some(LentTo(t[|LENT_TO_PREFIX|..]))
    else if |t| >= |LENT_BY_PREFIX| && t[..|LENT_BY_PREFIX|] == LENT_BY_PREFIX then Some(LentBy(t[|LENT_BY_PREFIX|..]))
    else None
  }

  /** The label determines the status and the name it shows: distinct statuses never share a label. */
  lemma StatusTextRoundTrip(s: Status)
    ensures StatusOfText(StatusText(s)) == Some(s)
  {
    var t := StatusText(s);
    match s
    case Available =>
    case Unavailable =>
    case LentTo(name) =>
      assert t[0] == 'P' && t[..|LENT_TO_PREFIX|] == LENT_TO_PREFIX && t[|LENT_TO_PREFIX|..] == name;
    case LentBy(name) =>
      assert t[0] == 'P' && t[6] == 'p' && LENT_TO_PREFIX[6] == 'à';
      assert t[..|LENT_BY_PREFIX|] == LENT_BY_PREFIX && t[|LENT_BY_PREFIX|..] == name;
      assert t[..|LENT_TO_PREFIX|] != LENT_TO_PREFIX by {
        assert t[..|LENT_TO_PREFIX|][6] != LENT_TO_PREFIX[6];
      }
  }

  /** The button of `BookItem` and the callback it is wired to. */
  datatype Button = Lend | ScanQrCode | GenerateQrCode

  function ButtonFor(b: Book): (btn: Button)
    ensures btn == Lend <==> b.lenderId.None? && b.borrowerId.None?
    ensures btn == ScanQrCode <==> b.lenderId.Some?
    ensures btn == GenerateQrCode <==> b.lenderId.None? && b.borrowerId.Some?
  {
    if b.lenderId.None? && b.borrowerId.None? then Lend
    else if b.lenderId.Some? then ScanQrCode
    else GenerateQrCode
  }

  /** The button's text, which tells the three buttons apart. */
  function ButtonLabel(btn: Button): (text: string)
    ensures text == "Prêter" <==> btn == Lend
    ensures text == "Scanner le QR code" <==> btn == ScanQrCode
    ensures text == "Générer le QR code" <==> btn == GenerateQrCode
  {
    match btn
    case Lend => "Prêter"
    case ScanQrCode => "Scanner le QR code"
    case GenerateQrCode => "Générer le QR code"
  }

  /** The button agrees with the status: lend what is available, scan back what was borrowed, show a code for what was lent. */
  lemma ButtonMatchesStatus(b: Book, borrowerName: Option<string>, lenderName: Option<string>)
    ensures var s := BookStatus(b, borrowerName, lenderName);
      && (ButtonFor(b) == Lend <==> s.Available?)
      && (ButtonFor(b) == ScanQrCode <==> s.LentBy?)
      && (ButtonFor(b) == GenerateQrCode <==> s.LentTo?)
  {
  }

  /** The screens of the bottom bar: the owned, loans and borrows lists. */
  datatype Screen = LibraryScreen | LoansScreen | BorrowsScreen

  /**
   * What a click starts. `OpenScanner` is the borrows list's plain
   * `startActivity`, whose result is dropped; `ScanIsbn` is the floating
   * button's `scanLauncher`, whose result reaches `onIsbnScanned`.
   */
  datatype Navigation = Stay | StartTransaction(bookId: string, action: string) | OpenScanner | ScanIsbn

  /**
   * The callbacks each screen passes to `BookItem`: the library lends, the
   * loans list starts a RETURN, the borrows list opens the scanner; the other
   * callback of each screen is empty.
   */
  function OnButtonClick(screen: Screen, b: Book): (nav: Navigation)
    ensures nav.StartTransaction? ==> nav.bookId == b.uid
  {
    var lendClicked := ButtonFor(b) == Lend;
    match screen
    case LibraryScreen => if lendClicked then StartTransaction(b.uid, LOAN) else Stay
    case LoansScreen => if lendClicked then Stay else StartTransaction(b.uid, RETURN)
    case BorrowsScreen => if lendClicked then Stay else OpenScanner
  }

  /**
   * On its own screen, every book with no foreign lender has a working button:
   * the library starts a LOAN of it, the loans list a RETURN of it.
   */
  lemma ListedClickStartsHandshake(b: Book, me: string)
    requires b.lenderId.None?
    ensures InShelf(Owned, b, me) ==> OnButtonClick(LibraryScreen, b) == StartTransaction(b.uid, LOAN)
    ensures InShelf(Loans, b, me) ==> OnButtonClick(LoansScreen, b) == StartTransaction(b.uid, RETURN)
  {
  }

  /** Every book on the borrows list has a button that opens the scanner. */
  lemma BorrowedClickOpensScanner(b: Book, me: string)
    requires InShelf(Borrows, b, me)
    ensures OnButtonClick(BorrowsScreen, b) == OpenScanner
  {
  }

  /**
   * A book on the library list whose lender is me shows the scan button, whose
   * library callback is empty: the click does nothing.
   */
  lemma SelfLentLibraryBookIsInert(b: Book, me: string)
    requires InShelf(Owned, b, me) && b.lenderId == Some(me)
    ensures ButtonFor(b) == ScanQrCode && OnButtonClick(LibraryScreen, b) == Stay
  {
  }

  /**
   * The floating button: shown on the library and borrows screens only, and
   * there it launches the scanner for a result; it never starts a transaction itself.
   */
  function FloatingButton(screen: Screen): (click: Option<Navigation>)
    ensures click.Some? <==> screen == LibraryScreen || screen == BorrowsScreen
    ensures click.Some? ==> click.value == ScanIsbn
  {
    match screen
    case LibraryScreen => Some(ScanIsbn)
    case BorrowsScreen => Some(ScanIsbn)
    case LoansScreen => None
  }

  /** What `scanLauncher` hands to `onIsbnScanned`: the barcode of a RESULT_OK answer, nothing otherwise. */
  function IsbnFromScanResult(resultOk: bool, scannedBarcode: Option<string>): (isbn: Option<string>)
    ensures isbn.Some? <==> resultOk && scannedBarcode.Some?
    ensures isbn.Some? ==> isbn == scannedBarcode
  {
    if resultOk then scannedBarcode else None
  }

  /**
   * Only a plain barcode scanned from the floating button reaches
   * `onIsbnScanned`, with its raw value; a QR code never adds a book.
   */
  lemma OnlyPlainBarcodesReachLibrary(raw: string, isQrCode: bool)
    ensures var r := ActivityResult(OnBarcodeScanned(raw, isQrCode));
      IsbnFromScanResult(r.0, r.1) == if isQrCode then None else Some(raw)
  {
  }

  /**
   * After a LOAN of a book the lender owned outright, the lender's copy sits on
   * its loans list, labelled with the borrower and offering the RETURN code,
   * and the borrower's copy sits on its borrows list only, labelled with the
   * lender and offering the scanner.
   */
  lemma LoanMovesBookAcrossLists(lenderTables: Ledger, borrowerTables: Ledger, d: TransactionData,
                                 lenderMe: string, borrowerMe: string)
    requires d.action == LOAN && d.borrower.Some? && d.borrower.value.uid == borrowerMe
    requires Keyed(lenderTables)
    requires d.book.uid in lenderTables.books && lenderTables.books[d.book.uid].lenderId.None?
    requires d.owner.uid != borrowerMe
    ensures var lt := InitiatorReconcile(lenderTables, LOAN, d); var lb := lt.books[d.book.uid];
      && InShelf(Loans, lb, lenderMe) && !InShelf(Owned, lb, lenderMe)
      && BookStatus(lb, ShownName(lt.users, lb.borrowerId), None) == LentTo(d.borrower.value.fullName)
      && OnButtonClick(LoansScreen, lb) == StartTransaction(d.book.uid, RETURN)
    ensures var bt := AcceptorReconcile(borrowerTables, borrowerMe, d); var bb := bt.books[d.book.uid];
      && InShelf(Borrows, bb, borrowerMe) && !InShelf(Owned, bb, borrowerMe) && !InShelf(Loans, bb, borrowerMe)
      && BookStatus(bb, None, ShownName(bt.users, bb.lenderId)) == LentBy(d.owner.fullName)
      && OnButtonClick(BorrowsScreen, bb) == OpenScanner
  {
    var lb := InitiatorReconcile(lenderTables, LOAN, d).books[d.book.uid];
    assert lb.lenderId == lenderTables.books[d.book.uid].lenderId;
  }
}
