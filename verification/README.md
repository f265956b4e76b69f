# shareMyBook (mitosbooking) — lend/return handshake and local ledger

This project models the core of the shareMyBook Android app: two phones lend
or return a physical book through a mediator service, and each phone keeps its
own tables of books and users. The initiator (the lender, or the lender taking
the book back) checks its profile. It then sends `init` with a snapshot of the
book and shows the returned share id as a QR code. After that it polls
`result` once per second, at most 120 times. The other phone scans the code,
loads the pending record, and calls `accept` with its own user. Each side then
reconciles its own tables. On a LOAN, the lender marks the borrower and the
borrower stores the book as lent by the owner. On a RETURN, both sides drop the
book.

Around the handshake the model covers:
- the two older return screens (a 60-read local poll and a direct delete);
- the three lists of the main screen and the status label and button of each book;
- the QR payload codec and the scanner's dispatch;
- the one-shot barcode analyzer;
- the profile screen;
- the first-run user id and seed books;
- the OpenLibrary answer turned into a book.

Modules, one per component:
- `Entities`: records (`Book`, `User`, the mediator messages, the catalog answer).
- `FirstHit`: the "first attempt that succeeds" search that the poll loops and the analyzer share.
- `Repository`:
  - the two Room tables as maps in `BookRepository`;
  - a ghost log of every mediator request;
  - the `user_id` preference;
  - the catalog mapping.
- `Handshake`: the profile check, the RETURN snapshot, and the two reconciliation rules as functions.
- `Initiator`: `TransactionViewModel`, with its poll loop proved against `Resolution`.
- `Acceptor`: `AcceptTransactionViewModel`.
- `ConfirmReturn` and `ReturnTransaction`: the older return screens.
- `Library`: `MyLibraryViewModel`.
- `BookItem`: the `BookItem` label and button, the list screens' callbacks, and the scan result of `MainActivity`.
- `Scanner`: `ScannerActivity` and `BarcodeAnalyzer`.
- `Profile`: `ProfileViewModel`.

Mediator answers, catalog answers, local rows read while a poll is running,
and freshly drawn UUIDs are all parameters. A poll answer sequence that runs
out reads as a failed call. A row Room returns as null is `None`. When the
code then dereferences it, the model takes the exception path that the
enclosing `catch` handles. Messages built from an exception keep only their
fixed prefix.

## Model

| member | source | states |
|---|---|---|
| `Repository.UserIdAfterInit` | app/src/main/java/fr/enssat/sharemybook/mitosbooking/ui/viewmodel/MyLibraryViewModel.kt:31-32 | the current user id is the stored one when present, otherwise the freshly drawn one |
| `Repository.InitialisedIdIsKept` | app/src/main/java/fr/enssat/sharemybook/mitosbooking/ui/viewmodel/ProfileViewModel.kt:31-37 | once an id is stored, a later initialisation keeps it, whatever new UUID it draws |
| `Repository.Preferences.GetOrCreateUserId` | app/src/main/java/fr/enssat/sharemybook/mitosbooking/ui/viewmodel/ProfileViewModel.kt:31-37 | writes the fresh id only when none is stored; afterwards the preference holds the returned id |
| `Repository.CatalogKeyInjective` | app/src/main/java/fr/enssat/sharemybook/mitosbooking/data/repository/BookRepository.kt:53-54 | distinct ISBNs are looked up under distinct `ISBN:` keys |
| `Repository.JoinNames` | app/src/main/java/fr/enssat/sharemybook/mitosbooking/data/repository/BookRepository.kt:61 | the joined author string starts with the first author's name, and a single author is their name alone |
| `Repository.JoinNamesEndsWithLast` | app/src/main/java/fr/enssat/sharemybook/mitosbooking/data/repository/BookRepository.kt:61 | the joined author string ends with the last author's name |
| `Repository.JoinNamesAppend` | app/src/main/java/fr/enssat/sharemybook/mitosbooking/data/repository/BookRepository.kt:61 | the author string of a concatenated list is the two strings joined by ", ", so names keep their order |
| `Repository.BookFromCatalog` | app/src/main/java/fr/enssat/sharemybook/mitosbooking/data/repository/BookRepository.kt:52-68 | a book exactly when the `ISBN:` key is in the answer; uid and isbn equal the queried ISBN; the title is copied; authors are the listed names joined in order (`JoinNames`), absent iff none are listed; the cover is the `medium` URL, absent iff no cover; borrower and lender absent |
| `Repository.BookRepository.GetBookById` | app/src/main/java/fr/enssat/sharemybook/mitosbooking/data/repository/BookRepository.kt:24 | the row stored under the id, or None when there is none |
| `Repository.BookRepository.GetUserById` | app/src/main/java/fr/enssat/sharemybook/mitosbooking/data/repository/BookRepository.kt:38 | the user stored under the id, or None when there is none |
| `Repository.BookRepository.InsertBook` | app/src/main/java/fr/enssat/sharemybook/mitosbooking/data/repository/BookRepository.kt:26-28 | the table afterwards maps the book's uid to the book, every other row unchanged |
| `Repository.BookRepository.UpdateBook` | app/src/main/java/fr/enssat/sharemybook/mitosbooking/data/repository/BookRepository.kt:30-32 | rewrites the row with the book's uid if there is one; otherwise nothing changes |
| `Repository.BookRepository.DeleteBook` | app/src/main/java/fr/enssat/sharemybook/mitosbooking/data/repository/BookRepository.kt:34-36 | removes the row with the book's uid and nothing else |
| `Repository.BookRepository.InsertUser` | app/src/main/java/fr/enssat/sharemybook/mitosbooking/data/repository/BookRepository.kt:40-42 | upsert of the user under its uid |
| `Repository.BookRepository.InitTransaction` | app/src/main/java/fr/enssat/sharemybook/mitosbooking/data/repository/BookRepository.kt:70-76 | logs exactly one `init` request carrying action, book and owner; returns the response's share id unchanged, or fails when the call fails |
| `Repository.BookRepository.AcceptTransaction` | app/src/main/java/fr/enssat/sharemybook/mitosbooking/data/repository/BookRepository.kt:78-84 | logs exactly one `accept` request for the share id and user; returns the mediator's record as received |
| `Repository.BookRepository.ResultTransaction` | app/src/main/java/fr/enssat/sharemybook/mitosbooking/data/repository/BookRepository.kt:86-95 | logs exactly one `result` request; a failure reaches the caller as a failure |
| `Handshake.ProfileGate` | app/src/main/java/fr/enssat/sharemybook/mitosbooking/ui/viewmodel/TransactionViewModel.kt:48-61 | no user id iff none is stored; unknown user iff the stored id has no row; incomplete profile iff the row has an empty name, phone or email; otherwise the handshake proceeds with that row |
| `Handshake.EmptyFieldBlocks` | app/src/main/java/fr/enssat/sharemybook/mitosbooking/ui/viewmodel/TransactionViewModel.kt:55-61 | any empty contact field stops the handshake as an incomplete profile |
| `Handshake.BlankFieldsPass` | app/src/main/java/fr/enssat/sharemybook/mitosbooking/ui/viewmodel/TransactionViewModel.kt:55 | the check is `isEmpty`: a profile whose three fields are non-empty strings of spaces passes |
| `Handshake.BookToSend` | app/src/main/java/fr/enssat/sharemybook/mitosbooking/ui/viewmodel/TransactionViewModel.kt:65-69 | the snapshot differs from the local row at most in `borrowerId`; RETURN clears it; LOAN sends the row unchanged |
| `Handshake.InitiatorReconcile` | app/src/main/java/fr/enssat/sharemybook/mitosbooking/ui/viewmodel/TransactionViewModel.kt:116-136 | other book rows untouched; LOAN sets the local row's `borrowerId` to the borrower, keeps every other field and caches the borrower, every other user row kept; a LOAN with no borrower or no local row changes nothing; RETURN deletes the row and keeps the users; any other action changes nothing |
| `Handshake.AcceptorReconcile` | app/src/main/java/fr/enssat/sharemybook/mitosbooking/ui/viewmodel/AcceptTransactionViewModel.kt:87-106 | other book rows untouched; LOAN stores the received book with borrower = self and lender = owner, all else as received, and caches the owner, every other user row kept; RETURN deletes the row, a missing row being no error, and keeps the users; any other action changes nothing |
| `Handshake.InitiatorReconcileIdempotent` | app/src/main/java/fr/enssat/sharemybook/mitosbooking/ui/viewmodel/TransactionViewModel.kt:116-136 | applying the initiator's outcome twice equals applying it once |
| `Handshake.AcceptorReconcileIdempotent` | app/src/main/java/fr/enssat/sharemybook/mitosbooking/ui/viewmodel/AcceptTransactionViewModel.kt:87-106 | applying the acceptor's outcome twice equals applying it once |
| `Handshake.ReconcileKeepsKeyed` | app/src/main/java/fr/enssat/sharemybook/mitosbooking/ui/viewmodel/AcceptTransactionViewModel.kt:91-95 | both reconciliations keep every row stored under its own uid |
| `Handshake.LoanLeavesBothSidesAgreeing` | app/src/main/java/fr/enssat/sharemybook/mitosbooking/ui/viewmodel/AcceptTransactionViewModel.kt:87-95 | after a LOAN both devices record the same borrower for the book; the borrower's device records the owner as lender; each device caches the other party |
| `Handshake.ReturnRemovesFromBothSides` | app/src/main/java/fr/enssat/sharemybook/mitosbooking/ui/viewmodel/AcceptTransactionViewModel.kt:96-106 | after a RETURN the book is on neither device |
| `Handshake.AcceptorLoanThenReturnRestores` | app/src/main/java/fr/enssat/sharemybook/mitosbooking/ui/viewmodel/AcceptTransactionViewModel.kt:87-106 | a device that did not hold the book has the same book table after borrowing and returning it |
| `Initiator.ResolutionIsFirstAccepted` | app/src/main/java/fr/enssat/sharemybook/mitosbooking/ui/viewmodel/TransactionViewModel.kt:100-136 | a resolution is one of the 120 attempts; its answer succeeded and shows a borrower; no earlier attempt resolves; no resolution iff no attempt within 120 resolves |
| `Initiator.LoanResolvesOnFirstAcceptedPoll` | app/src/main/java/fr/enssat/sharemybook/mitosbooking/ui/viewmodel/TransactionViewModel.kt:116-123 | a LOAN resolves on the first successful poll whose record has a borrower, with that record |
| `Initiator.ReturnNeverResolvesOnFirstPoll` | app/src/main/java/fr/enssat/sharemybook/mitosbooking/ui/viewmodel/TransactionViewModel.kt:124-136 | a RETURN never resolves on poll #1 |
| `Initiator.ReturnNeedsBorrowerlessFirstPoll` | app/src/main/java/fr/enssat/sharemybook/mitosbooking/ui/viewmodel/TransactionViewModel.kt:98-111 | if poll #1 failed or already showed a borrower, a RETURN never resolves |
| `Initiator.ReturnResolvesOnFirstTransition` | app/src/main/java/fr/enssat/sharemybook/mitosbooking/ui/viewmodel/TransactionViewModel.kt:124-136 | after a borrowerless poll #1, a RETURN resolves on the first later successful poll that shows a borrower |
| `Initiator.UnknownActionTimesOut` | app/src/main/java/fr/enssat/sharemybook/mitosbooking/ui/viewmodel/TransactionViewModel.kt:116-149 | an action other than LOAN or RETURN never resolves |
| `Initiator.Resolution` | app/src/main/java/fr/enssat/sharemybook/mitosbooking/ui/viewmodel/TransactionViewModel.kt:100-136 | a resolution is one of the 120 attempts, and it carries the successful answer of that attempt, which shows a borrower |
| `Initiator.TransactionViewModel.InitTransaction` | app/src/main/java/fr/enssat/sharemybook/mitosbooking/ui/viewmodel/TransactionViewModel.kt:46-86 | each failed profile check sets its own message and makes no mediator call; a missing book fails the same way; otherwise exactly one `init` goes out with the RETURN-cleared snapshot and the user; a failed `init` leaves the tables alone; a successful one shows the share id and polls to `PolledToOutcome` |
| `Initiator.TransactionViewModel.PollForResult` | app/src/main/java/fr/enssat/sharemybook/mitosbooking/ui/viewmodel/TransactionViewModel.kt:94-151 | makes exactly `Resolution`'s attempt + 1 `result` calls, or 120 when unresolved; failed calls use an attempt; records the resolving record and reconciles by `InitiatorReconcile`; on timeout sets the message and leaves the tables untouched |
| `Acceptor.GateMessage` | app/src/main/java/fr/enssat/sharemybook/mitosbooking/ui/viewmodel/AcceptTransactionViewModel.kt:69-111 | a failed profile check always shows a message; a passed one shows none |
| `Acceptor.AcceptTransactionViewModel.LoadTransaction` | app/src/main/java/fr/enssat/sharemybook/mitosbooking/ui/viewmodel/AcceptTransactionViewModel.kt:44-60 | one `result` call; success shows the record and clears the error; failure keeps the previous record and sets the load message; never left loading |
| `Acceptor.AcceptTransactionViewModel.AcceptTransaction` | app/src/main/java/fr/enssat/sharemybook/mitosbooking/ui/viewmodel/AcceptTransactionViewModel.kt:62-121 | a failed profile check sets its message, makes no call and leaves the accepted flag and the tables as they were; otherwise exactly one `accept` goes out with the user's row; a failure sets the message and changes no table; success sets record and flag and applies `AcceptorReconcile`; never left loading |
| `ConfirmReturn.ReturnObservedIsFirst` | app/src/main/java/fr/enssat/sharemybook/mitosbooking/ui/viewmodel/ConfirmReturnViewModel.kt:74-100 | the confirming read is within 60; it shows a row with no borrower; no earlier read did; no confirmation iff none of the 60 reads does |
| `ConfirmReturn.DeletedOrLentRowNeverConfirms` | app/src/main/java/fr/enssat/sharemybook/mitosbooking/ui/viewmodel/ConfirmReturnViewModel.kt:82-99 | reads that only ever see a deleted row or a row still lent never confirm, which is what the current handshake leaves on the lender's device |
| `ConfirmReturn.ConfirmReturnViewModel.PollForReturnConfirmation` | app/src/main/java/fr/enssat/sharemybook/mitosbooking/ui/viewmodel/ConfirmReturnViewModel.kt:72-108 | at most 60 reads; an already confirmed return makes none; otherwise it confirms on the first read showing no borrower and shows that row, or sets the timeout after exactly 60 reads |
| `ConfirmReturn.ConfirmReturnViewModel.LoadReturnData` | app/src/main/java/fr/enssat/sharemybook/mitosbooking/ui/viewmodel/ConfirmReturnViewModel.kt:41-70 | a missing row sets the load message; a row without borrower sets "no borrower" and starts no poll; otherwise shows book and borrower (None if not cached) and then waits as `PollForReturnConfirmation` does; never left loading |
| `ReturnTransaction.ReturnTransactionViewModel.InitiateReturn` | app/src/main/java/fr/enssat/sharemybook/mitosbooking/ui/viewmodel/ReturnTransactionViewModel.kt:41-57 | shows the stored row, or None; clears the error; never left loading |
| `ReturnTransaction.ReturnTransactionViewModel.ConfirmReturn` | app/src/main/java/fr/enssat/sharemybook/mitosbooking/ui/viewmodel/ReturnTransactionViewModel.kt:59-99 | no loaded book sets "Livre non trouvé"; no stored id sets its message; both delete nothing and do not complete; otherwise deletes exactly the loaded book's row and completes, leaving the tables as the acceptor's side of a RETURN of that book (`AcceptorReconcile`) does; never left loading |
| `Library.Shelf` | app/src/main/java/fr/enssat/sharemybook/mitosbooking/ui/viewmodel/MyLibraryViewModel.kt:44-63 | each list holds exactly the listed books that pass its filter (owned: lender absent or me and no borrower; loans: lender absent or me and a borrower; borrows: borrower is me); never longer than the listing |
| `Library.ShelfOfAppend` | app/src/main/java/fr/enssat/sharemybook/mitosbooking/ui/viewmodel/MyLibraryViewModel.kt:44-63 | filtering commutes with concatenation, so every list keeps the listing order |
| `Library.ShelfCount` | app/src/main/java/fr/enssat/sharemybook/mitosbooking/ui/viewmodel/MyLibraryViewModel.kt:44-56 | each copy of a book in the listing is kept exactly when the book passes the filter |
| `Library.OwnedLoansPartition` | app/src/main/java/fr/enssat/sharemybook/mitosbooking/ui/viewmodel/MyLibraryViewModel.kt:44-56 | the owned and loans lists are disjoint, and together hold every copy of each book whose lender is absent or me, and nothing else |
| `Library.UserFullName` | app/src/main/java/fr/enssat/sharemybook/mitosbooking/ui/viewmodel/MyLibraryViewModel.kt:100-110 | "" without an id, "Utilisateur inconnu" when the user is not stored, otherwise the stored full name; `ShownName` feeds it to the lists, and `LoanMovesBookAcrossLists` and `SavedNameIsShown` show it yields the right person's name |
| `Library.SeedBooks` | app/src/main/java/fr/enssat/sharemybook/mitosbooking/ui/viewmodel/MyLibraryViewModel.kt:74-79 | three books under the three drawn uids, none borrowed or lent |
| `Library.InsertAllContains` | app/src/main/java/fr/enssat/sharemybook/mitosbooking/ui/viewmodel/MyLibraryViewModel.kt:80 | inserting books with distinct uids one by one stores each as inserted and adds no other key |
| `Library.SeededTableIsOwnedStock` | app/src/main/java/fr/enssat/sharemybook/mitosbooking/ui/viewmodel/MyLibraryViewModel.kt:65-81 | seeding an empty table yields exactly the three seed uids, each row keyed by its uid and on the owned list |
| `Library.ScannedBookIsOwned` | app/src/main/java/fr/enssat/sharemybook/mitosbooking/ui/viewmodel/MyLibraryViewModel.kt:83-97 | a book added from a scanned ISBN lands on the owned list |
| `Library.MyLibraryViewModel.constructor` | app/src/main/java/fr/enssat/sharemybook/mitosbooking/ui/viewmodel/MyLibraryViewModel.kt:31-72 | the current id is the stored or the freshly written one; an empty table is seeded; a non-empty one is left alone |
| `Library.MyLibraryViewModel.PrepopulateDatabase` | app/src/main/java/fr/enssat/sharemybook/mitosbooking/ui/viewmodel/MyLibraryViewModel.kt:74-81 | the three seed books inserted in list order |
| `Library.MyLibraryViewModel.OnIsbnScanned` | app/src/main/java/fr/enssat/sharemybook/mitosbooking/ui/viewmodel/MyLibraryViewModel.kt:83-97 | a found book is stored under its ISBN with no lender, then "Livre ajouté" is emitted; a miss or a failed lookup stores nothing and emits its own message |
| `BookItem.BookStatus` | app/src/main/java/fr/enssat/sharemybook/mitosbooking/MainActivity.kt:298-307 | available iff lender and borrower are both absent; "lent to" iff only a borrower is present; "lent by" iff a lender is present; missing names read "inconnu" |
| `BookItem.NeverUnavailable` | app/src/main/java/fr/enssat/sharemybook/mitosbooking/MainActivity.kt:298-307 | the "Non disponible" branch is unreachable |
| `BookItem.ShownName` | app/src/main/java/fr/enssat/sharemybook/mitosbooking/MainActivity.kt:156-160 | a list passes a name exactly when the book has that party's id, and it is the stored user's full name when the user is cached |
| `BookItem.StatusText` | app/src/main/java/fr/enssat/sharemybook/mitosbooking/MainActivity.kt:298-307 | "Disponible" exactly for an available book, "Non disponible" exactly for the unreachable case; the lent labels start with "Prêté à " or "Prêté par "; `StatusTextRoundTrip` reads every label back |
| `BookItem.StatusTextRoundTrip` | app/src/main/java/fr/enssat/sharemybook/mitosbooking/MainActivity.kt:298-319 | the label shown gives back the status and the name, so distinct statuses never share a label |
| `BookItem.ButtonFor` | app/src/main/java/fr/enssat/sharemybook/mitosbooking/MainActivity.kt:326-350 | "Prêter" iff the book is available; "Scanner le QR code" iff a lender is present; "Générer le QR code" iff only a borrower is |
| `BookItem.ButtonLabel` | app/src/main/java/fr/enssat/sharemybook/mitosbooking/MainActivity.kt:326-350 | each of the three labels is shown for exactly one button |
| `BookItem.ButtonMatchesStatus` | app/src/main/java/fr/enssat/sharemybook/mitosbooking/MainActivity.kt:298-350 | the button and the status always agree |
| `BookItem.OnButtonClick` | app/src/main/java/fr/enssat/sharemybook/mitosbooking/MainActivity.kt:163-246 | a click that starts a transaction carries the clicked book's uid |
| `BookItem.ListedClickStartsHandshake` | app/src/main/java/fr/enssat/sharemybook/mitosbooking/MainActivity.kt:163-211 | a lender-less book on the library list starts a LOAN of it; one on the loans list starts a RETURN of it |
| `BookItem.BorrowedClickOpensScanner` | app/src/main/java/fr/enssat/sharemybook/mitosbooking/MainActivity.kt:236-246 | every book on the borrows list has a button that opens the scanner |
| `BookItem.SelfLentLibraryBookIsInert` | app/src/main/java/fr/enssat/sharemybook/mitosbooking/MainActivity.kt:163-176 | a library book whose lender is me shows the scan button, whose library callback is empty |
| `BookItem.FloatingButton` | app/src/main/java/fr/enssat/sharemybook/mitosbooking/MainActivity.kt:118-131 | the floating button is shown exactly on the library and borrows screens, and there it launches the scanner for a result (unlike the borrows list's button, whose scanner result is dropped) |
| `BookItem.IsbnFromScanResult` | app/src/main/java/fr/enssat/sharemybook/mitosbooking/MainActivity.kt:62-69 | `onIsbnScanned` is called iff the scanner answered RESULT_OK with a barcode, and with that barcode |
| `BookItem.OnlyPlainBarcodesReachLibrary` | app/src/main/java/fr/enssat/sharemybook/mitosbooking/MainActivity.kt:62-69 | a plain barcode reaches `onIsbnScanned` unchanged; a QR code never adds a book |
| `BookItem.LoanMovesBookAcrossLists` | app/src/main/java/fr/enssat/sharemybook/mitosbooking/MainActivity.kt:183-246 | after a LOAN the lender's copy is on its loans list, labelled with the borrower's full name as looked up in the lender's own users table, and offering the RETURN; the borrower's copy is only on its borrows list, labelled with the owner's full name as looked up in the borrower's table, and offering the scanner |
| `Scanner.Encode` | app/src/main/java/fr/enssat/sharemybook/mitosbooking/TransactionActivity.kt:97 | the payload starts with `{"shareId":"`, ends with `"}` and is at least as long as the escaped id; `DecodeEncode` reads it back to the same id |
| `Scanner.Decode` | app/src/main/java/fr/enssat/sharemybook/mitosbooking/ScannerActivity.kt:99-102 | no share id (Ok(None)) exactly for the empty document, `null`, `{}` and a null `shareId`; a share id only from a payload that starts with `{"shareId":"` and ends with `}`; anything else fails |
| `Scanner.HandleQrCodeScan` | app/src/main/java/fr/enssat/sharemybook/mitosbooking/ScannerActivity.kt:95-115 | opens the accept screen iff the payload parses with a share id, and with exactly that id; anything else is "not recognised"; never a barcode result |
| `Scanner.OnBarcodeScanned` | app/src/main/java/fr/enssat/sharemybook/mitosbooking/ScannerActivity.kt:46-56 | a non-QR code is returned as read; a QR code goes through `HandleQrCodeScan` |
| `Scanner.ActivityResult` | app/src/main/java/fr/enssat/sharemybook/mitosbooking/ScannerActivity.kt:50-54 | only a plain barcode comes back as RESULT_OK, with the barcode as extra |
| `Scanner.ReadEscapedString` | app/src/main/java/fr/enssat/sharemybook/mitosbooking/ScannerActivity.kt:99 | the escaped body of any string, followed by its closing quote, reads back as that string and leaves the rest untouched |
| `Scanner.ReadStringLeavesSuffix` | app/src/main/java/fr/enssat/sharemybook/mitosbooking/ScannerActivity.kt:99 | what follows a string literal's closing quote is a proper suffix of the input |
| `Scanner.DecodeEncode` | app/src/main/java/fr/enssat/sharemybook/mitosbooking/ScannerActivity.kt:99-102 | the payload written for a share id parses back to that share id |
| `Scanner.ShownCodeOpensAccept` | app/src/main/java/fr/enssat/sharemybook/mitosbooking/TransactionActivity.kt:97 | scanning the code the initiator shows opens the accept screen with the same share id |
| `Scanner.EncodeInjective` | app/src/main/java/fr/enssat/sharemybook/mitosbooking/TransactionActivity.kt:97 | distinct share ids give distinct payloads |
| `Scanner.FirstReadableIsFirst` | app/src/main/java/fr/enssat/sharemybook/mitosbooking/ScannerActivity.kt:185-193 | the reported code has a raw value and no earlier code does; no report iff no code has one |
| `Scanner.BatchReportIsFirstReadable` | app/src/main/java/fr/enssat/sharemybook/mitosbooking/ScannerActivity.kt:185-193 | the report is the first raw value, flagged QR iff that code's format is QR |
| `Scanner.BarcodeAnalyzer.Analyze` | app/src/main/java/fr/enssat/sharemybook/mitosbooking/ScannerActivity.kt:178-206 | a frame is submitted iff it has an image and scanning is still on, so never once a code was reported |
| `Scanner.BarcodeAnalyzer.OnSuccess` | app/src/main/java/fr/enssat/sharemybook/mitosbooking/ScannerActivity.kt:184-195 | while scanning, a batch with a readable code reports that code once and stops scanning; any other batch changes nothing; at most one report ever |
| `Scanner.BarcodeAnalyzer.Close` | app/src/main/java/fr/enssat/sharemybook/mitosbooking/ScannerActivity.kt:209-212 | scanning stops, so nothing more is reported |
| `Scanner.NoFrameAfterReport` | app/src/main/java/fr/enssat/sharemybook/mitosbooking/ScannerActivity.kt:180-192 | once a batch with a readable code was reported, the next frame is not submitted; after a batch without one, every frame with an image still is |
| `Scanner.NoFrameAfterClose` | app/src/main/java/fr/enssat/sharemybook/mitosbooking/ScannerActivity.kt:180-211 | after `close`, no frame is submitted |
| `Profile.SavedUsers` | app/src/main/java/fr/enssat/sharemybook/mitosbooking/ui/viewmodel/ProfileViewModel.kt:46-55 | without a stored id nothing is written; otherwise the stored id maps to exactly the entered profile and every other user is kept |
| `Profile.SaveLastWriteWins` | app/src/main/java/fr/enssat/sharemybook/mitosbooking/ui/viewmodel/ProfileViewModel.kt:51-52 | a later save replaces an earlier one completely; saving twice is saving once |
| `Profile.SaveKeepsKeyed` | app/src/main/java/fr/enssat/sharemybook/mitosbooking/ui/viewmodel/ProfileViewModel.kt:48-52 | the saved row is stored under its own uid |
| `Profile.SavedProfileGate` | app/src/main/java/fr/enssat/sharemybook/mitosbooking/ui/viewmodel/ProfileViewModel.kt:46-53 | saving does no validation: the saved profile may start a handshake iff its three fields are non-empty |
| `Profile.SavedNameIsShown` | app/src/main/java/fr/enssat/sharemybook/mitosbooking/ui/viewmodel/ProfileViewModel.kt:46-55 | after a save, `getUserFullName` of the stored id is the saved full name |
| `Profile.ProfileViewModel.LoadUser` | app/src/main/java/fr/enssat/sharemybook/mitosbooking/ui/viewmodel/ProfileViewModel.kt:29-44 | writes an id only when none is stored, and shows the row of the stored id |
| `Profile.ProfileViewModel.SaveUser` | app/src/main/java/fr/enssat/sharemybook/mitosbooking/ui/viewmodel/ProfileViewModel.kt:46-55 | the users table becomes `SavedUsers`; the shown user follows the write |

## Left out

- Coroutines, `delay`, cancellation on screen teardown and the `StateFlow` plumbing: each view model is a class whose fields are the flows' current values, and each poll is one loop iteration. `loadReturnData` runs its poll inline instead of in a second coroutine. This makes no difference to the fields either one writes.
- Toasts and `Log` calls are not modelled. `MyLibraryViewModel`'s `toastMessages` is the exception: it is kept as the sequence of emitted messages.
- Exception texts (`localizedMessage`) are not modelled. Messages built from a caught exception keep their fixed prefix.
- Room, Retrofit, SharedPreferences, Hilt and the camera pipeline are left out. The tables are maps and the preference is an optional string. The mediator, the catalog, ML Kit and the UUID generator are parameters.
- `BookDao` is not part of this model. `insertBook` is taken to be an upsert and `deleteBook` to ignore a missing row.
- Failures of Room itself are not modelled: a failing write, or a failing read in `initiateReturn`. This has three consequences:
  - the model has no `initiateReturn` error path;
  - it has no `confirmReturn` path where the delete throws;
  - it has no failure of the accepting side's writes after a successful `accept`.
- Initiator.TransactionViewModel.InitTransaction: requires a fresh view model (no result, no error), the state `init` calls it in.
- Initiator.TransactionViewModel.PollForResult: requires a fresh view model (no result, no error), the state `init` calls it in.
- Initiator.TransactionViewModel.InitTransaction, Initiator.TransactionViewModel.PollForResult and Acceptor.AcceptTransactionViewModel.AcceptTransaction: all three require that every row is stored under its own uid, as Room's primary keys guarantee.
- Scanner.Decode: accepts only the canonical payload Gson writes, plus `""`, `null`, `{}` and a null `shareId`. It rejects other JSON that Gson would accept: whitespace, extra or reordered fields, lenient tokens. It also rejects every `\u` escape of a UTF-16 surrogate, lone or paired (Gson reads a pair such as `\ud83d\ude00` as one character), because strings here are sequences of Unicode scalar values.
- Acceptor.AcceptTransactionViewModel.constructor: the source's `init` calls `loadTransaction(shareId)`. The model's constructor leaves that call to the caller, because the mediator answer it needs is a parameter of `LoadTransaction`.
- `ReturnQrCode`, which `ConfirmReturnActivity` builds, is not part of this model. Its definition is not available and the scanner never decodes it.
- The Compose screens, theming, navigation state (`currentScreen`) and the activities' own lifecycles are left out.
- `BooksRepository` (an interface without implementation) and `ExploreViewModel` (empty) are left out.
- `updateUser` and `deleteUser` of `BookRepository` are left out, because no modelled code calls them.
- `getAllBooks` is left out. Its listing order is the DAO's, which is not part of this model, so the lists are modelled over any listing order.
