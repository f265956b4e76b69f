/**
 * MyLibraryViewModel: the three lists the main screen shows, the current user
 * id, the seed books written into an empty table, adding a scanned ISBN, and
 * the name lookup used by the status labels. The book listing is the DAO's
 * `getAllBooks` answer, taken as a sequence in its own order.
 */
module Library {
  import opened Entities
  import opened Repository

  /** The three lists, in the order of the screen's tabs. */
  datatype ShelfKind = Owned | Loans | Borrows

  /** The book is mine to lend: it came from no other lender (or I am the lender). */
  predicate LenderIsMe(b: Book, me: string)
  {
    b.lenderId.None? || b.lenderId == Some(me)
  }

  /** The filter behind `myOwnedBooks`, `myLoans` and `myBorrows`. */
  predicate InShelf(kind: ShelfKind, b: Book, me: string)
  {
    match kind
    case Owned => LenderIsMe(b, me) && b.borrowerId.None?
    case Loans => LenderIsMe(b, me) && b.borrowerId.Some?
    case Borrows => b.borrowerId == Some(me)
  }

  /** Kotlin's `filter`: the books of `bs` on the shelf, in their listing order. */
  function Shelf(bs: seq<Book>, me: string, kind: ShelfKind): (r: seq<Book>)
    ensures |r| <= |bs|
    ensures forall b :: b in r <==> b in bs && InShelf(kind, b, me)
  {
    if |bs| == 0 then []
    else (if InShelf(kind, bs[0], me) then [bs[0]] else []) + Shelf(bs[1..], me, kind)
  }

  /** Filtering commutes with concatenation, so the listing order is kept. */
  lemma {:induction false} ShelfOfAppend(a: seq<Book>, b: seq<Book>, me: string, kind: ShelfKind)
    ensures Shelf(a + b, me, kind) == Shelf(a, me, kind) + Shelf(b, me, kind)
  {
    if |a| == 0 {
      assert a + b == b;
    } else {
      assert (a + b)[1..] == a[1..] + b;
      ShelfOfAppend(a[1..], b, me, kind);
    }
  }

  /** Each copy of a book in the listing is kept exactly when the book is on the shelf. */
  lemma {:induction false} ShelfCount(bs: seq<Book>, me: string, kind: ShelfKind, x: Book)
    ensures multiset(Shelf(bs, me, kind))[x] == if InShelf(kind, x, me) then multiset(bs)[x] else 0
  {
    if |bs| > 0 {
      assert bs == [bs[0]] + bs[1..];
      ShelfCount(bs[1..], me, kind, x);
    }
  }

  /**
   * The library and loans tabs split the books I am the lender of: every copy
   * of such a book is on exactly one of them, and no other book is on either.
   */
  lemma OwnedLoansPartition(bs: seq<Book>, me: string)
    ensures forall x :: multiset(Shelf(bs, me, Owned))[x] + multiset(Shelf(bs, me, Loans))[x]
                        == if LenderIsMe(x, me) then multiset(bs)[x] else 0
    ensures forall x :: !(x in Shelf(bs, me, Owned) && x in Shelf(bs, me, Loans))
  {
    forall x
      ensures multiset(Shelf(bs, me, Owned))[x] + multiset(Shelf(bs, me, Loans))[x]
              == if LenderIsMe(x, me) then multiset(bs)[x] else 0
    {
      ShelfCount(bs, me, Owned, x);
      ShelfCount(bs, me, Loans, x);
    }
  }

  const MSG_BOOK_ADDED: string := "Livre ajouté à votre bibliothèque !"
  const MSG_BOOK_NOT_FOUND: string := "Livre non trouvé."
  const MSG_LOOKUP_FAILED: string := "Erreur lors de la récupération du livre."
  const UNKNOWN_USER_NAME: string := "Utilisateur inconnu"

  /** `getUserFullName`: "" without an id, the placeholder when the row is missing. */
  function UserFullName(users: map<string, User>, userId: Option<string>): (name: string)
    ensures userId.None? ==> name == ""
    ensures userId.Some? && userId.value !in users ==> name == UNKNOWN_USER_NAME
    ensures userId.Some? && userId.value in users ==> name == users[userId.value].fullName
  {
    match userId
    case None => ""
    case Some(id) => if id in users then users[id].fullName else UNKNOWN_USER_NAME
  }

  /** The three books written into an empty table, each under its own fresh uid. */
  function SeedBooks(uid1: string, uid2: string, uid3: string): (seeds: seq<Book>)
    ensures |seeds| == 3
    ensures seeds[0].uid == uid1 && seeds[1].uid == uid2 && seeds[2].uid == uid3
    ensures forall i :: 0 <= i < |seeds| ==> seeds[i].borrowerId.None? && seeds[i].lenderId.None?
  {
    [ Book(uid1, "978-0321721349", "The Lord of the Rings", Some("J.R.R. Tolkien"),
           Some("https://covers.openlibrary.org/b/id/8264423-L.jpg"), None, None),
      Book(uid2, "978-0743273565", "The Hitchhiker's Guide to the Galaxy", Some("Douglas Adams"),
           Some("https://covers.openlibrary.org/b/id/9144214-L.jpg"), None, None),
      Book(uid3, "978-0439064873", "Harry Potter and the Chamber of Secrets", Some("J.K. Rowling"),
           Some("https://covers.openlibrary.org/b/id/8773826-L.jpg"), None, None) ]
  }

  /** The table after inserting `bs` one after the other. */
  function InsertAll(m: map<string, Book>, bs: seq<Book>): map<string, Book>
  {
    if |bs| == 0 then m
    else InsertAll(m, bs[..|bs| - 1])[bs[|bs| - 1].uid := bs[|bs| - 1]]
  }

  /** With distinct uids every inserted book is in the table as inserted, and nothing else is added. */
  lemma {:induction false} InsertAllContains(m: map<string, Book>, bs: seq<Book>)
    requires forall i, j :: 0 <= i < j < |bs| ==> bs[i].uid != bs[j].uid
    ensures forall i :: 0 <= i < |bs| ==> bs[i].uid in InsertAll(m, bs) && InsertAll(m, bs)[bs[i].uid] == bs[i]
    ensures forall k :: k in InsertAll(m, bs) <==> k in m || exists i :: 0 <= i < |bs| && bs[i].uid == k
  {
    if |bs| > 0 {
      var init := bs[..|bs| - 1];
      InsertAllContains(m, init);
      forall k | k in InsertAll(m, bs)
        ensures k in m || exists i :: 0 <= i < |bs| && bs[i].uid == k
      {
        if k != bs[|bs| - 1].uid && k !in m {
          var i :| 0 <= i < |init| && init[i].uid == k;
          assert bs[i].uid == k;
        }
      }
      forall k | k in m || exists i :: 0 <= i < |bs| && bs[i].uid == k
        ensures k in InsertAll(m, bs)
      {
        if k !in m && k != bs[|bs| - 1].uid {
          var i :| 0 <= i < |bs| && bs[i].uid == k;
          assert init[i].uid == k;
        }
      }
    }
  }

  /** Seeding an empty table with distinct uids yields exactly the three seed books, all available. */
  lemma SeededTableIsOwnedStock(uid1: string, uid2: string, uid3: string, me: string)
    requires uid1 != uid2 && uid1 != uid3 && uid2 != uid3
    ensures var seeded := InsertAll(map[], SeedBooks(uid1, uid2, uid3));
      && seeded.Keys == {uid1, uid2, uid3}
      && forall k :: k in seeded ==> InShelf(Owned, seeded[k], me) && seeded[k].uid == k
  {
    var seeds := SeedBooks(uid1, uid2, uid3);
    InsertAllContains(map[], seeds);
    var seeded := InsertAll(map[], seeds);
    forall k | k in seeded
      ensures InShelf(Owned, seeded[k], me) && seeded[k].uid == k
    {
      var i :| 0 <= i < |seeds| && seeds[i].uid == k;
    }
    assert seeds[0].uid in seeded && seeds[1].uid in seeded && seeds[2].uid in seeded;
  }

  /** A book added from the catalog is available, so it lands on the library tab of its owner. */
  lemma ScannedBookIsOwned(isbn: string, response: map<string, BookDetails>, me: string)
    requires BookFromCatalog(isbn, response).Some?
    ensures InShelf(Owned, BookFromCatalog(isbn, response).value.(lenderId := None), me)
  {
  }

  class MyLibraryViewModel {
    const repo: BookRepository
    const prefs: Preferences
    const currentUserId: string
    /** Every message emitted on `toastMessages`, oldest first. */
    var toastMessages: seq<string>

    /**
     * Construction: the user id is the stored one, or `freshId` written once;
     * an empty book table is then seeded with the three books under the fresh
     * uids `seedUids`.
     */
    constructor (repo: BookRepository, prefs: Preferences, freshId: string, seedUids: (string, string, string))
      modifies prefs, repo`books
      ensures this.repo == repo && this.prefs == prefs
      ensures currentUserId == UserIdAfterInit(old(prefs.userId), freshId)
      ensures prefs.userId == Some(currentUserId)
      ensures toastMessages == []
      ensures old(repo.books) == map[] ==> repo.books == InsertAll(map[], SeedBooks(seedUids.0, seedUids.1, seedUids.2))
      ensures old(repo.books) != map[] ==> repo.books == old(repo.books)
    {
      this.repo := repo;
      this.prefs := prefs;
      var id := prefs.GetOrCreateUserId(freshId);
      currentUserId := id;
      toastMessages := [];
      new;
      if repo.books == map[] {
        PrepopulateDatabase(seedUids);
      }
    }

    /** `prepopulateDatabase`: the three seed books inserted in list order. */
    method PrepopulateDatabase(seedUids: (string, string, string))
      modifies repo`books
      ensures repo.books == InsertAll(old(repo.books), SeedBooks(seedUids.0, seedUids.1, seedUids.2))
    {
      var booksToInsert := SeedBooks(seedUids.0, seedUids.1, seedUids.2);
      for i := 0 to |booksToInsert|
        invariant repo.books == InsertAll(old(repo.books), booksToInsert[..i])
      {
        assert booksToInsert[..i + 1][..i] == booksToInsert[..i];
        repo.InsertBook(booksToInsert[i]);
      }
      assert booksToInsert[..|booksToInsert|] == booksToInsert;
    }

    /**
     * `onIsbnScanned`: a found book is inserted as not borrowed-from-anyone and
     * announced; a miss or a failed lookup only emits its message.
     */
    method OnIsbnScanned(isbn: string, catalog: Result<map<string, BookDetails>>)
      modifies repo`books, this`toastMessages
      ensures catalog.Err? ==>
        repo.books == old(repo.books) && toastMessages == old(toastMessages) + [MSG_LOOKUP_FAILED]
      ensures catalog.Ok? && BookFromCatalog(isbn, catalog.value).None? ==>
        repo.books == old(repo.books) && toastMessages == old(toastMessages) + [MSG_BOOK_NOT_FOUND]
      ensures catalog.Ok? && BookFromCatalog(isbn, catalog.value).Some? ==>
        && repo.books == old(repo.books)[isbn := BookFromCatalog(isbn, catalog.value).value.(lenderId := None)]
        && toastMessages == old(toastMessages) + [MSG_BOOK_ADDED]
    {
      if catalog.Err? {
        toastMessages := toastMessages + [MSG_LOOKUP_FAILED];
        return;
      }
      var book := BookFromCatalog(isbn, catalog.value);
      if book.Some? {
        repo.InsertBook(book.value.(lenderId := None));
        toastMessages := toastMessages + [MSG_BOOK_ADDED];
      } else {
        toastMessages := toastMessages + [MSG_BOOK_NOT_FOUND];
      }
    }
  }
}
