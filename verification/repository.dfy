/**
 * The data layer behind every view model: the two Room tables (as maps keyed
 * by uid), the "user_id" preference, the three mediator calls and the
 * OpenLibrary lookup. Room, Retrofit and SharedPreferences are replaced by
 * fields and parameters; the mediator's answers are passed in by the caller.
 */
module Repository {
  import opened Entities

  /** A snapshot of the local tables. */
  datatype Ledger = Ledger(books: map<string, Book>, users: map<string, User>)

  /** Room's primary-key discipline: every row is stored under its own uid. */
  predicate Keyed(l: Ledger)
  {
    && (forall k :: k in l.books ==> l.books[k].uid == k)
    && (forall k :: k in l.users ==> l.users[k].uid == k)
  }

  /** One request sent to the mediator, in the order they are sent. */
  datatype MediatorCall =
    | InitCall(initRequest: InitRequest)
    | AcceptCall(shareId: string, acceptRequest: AcceptRequest)
    | ResultCall(shareId: string)

  /** The value "user_id" holds after the first-run initialisation: the stored id if any, else the fresh one. */
  function UserIdAfterInit(stored: Option<string>, freshId: string): (id: string)
    ensures stored.Some? ==> id == stored.value
    ensures stored.None? ==> id == freshId
  {
    match stored
    case Some(s) => s
    case None => freshId
  }

  /** Once an id is stored, a later initialisation never replaces it, whatever fresh id it draws. */
  lemma InitialisedIdIsKept(stored: Option<string>, fresh1: string, fresh2: string)
    ensures UserIdAfterInit(Some(UserIdAfterInit(stored, fresh1)), fresh2) == UserIdAfterInit(stored, fresh1)
  {
  }

  /** The "user_prefs" preference file, reduced to its one key. */
  class Preferences {
    var userId: Option<string>

    constructor (stored: Option<string>)
      ensures userId == stored
    {
      userId := stored;
    }

    /** Reads "user_id", writing `freshId` first when nothing is stored. */
    method GetOrCreateUserId(freshId: string) returns (id: string)
      modifies this
      ensures id == UserIdAfterInit(old(userId), freshId)
      ensures userId == Some(id)
    {
      if userId.None? {
        userId := Some(freshId);
      }
      id := userId.value;
    }
  }

  /** The key under which OpenLibrary's `bibkeys` answer lists an ISBN. */
  function CatalogKey(isbn: string): string
  {
    "ISBN:" + isbn
  }

  /** Distinct ISBNs are looked up under distinct keys. */
  lemma CatalogKeyInjective(isbn1: string, isbn2: string)
    requires CatalogKey(isbn1) == CatalogKey(isbn2)
    ensures isbn1 == isbn2
  {
    assert isbn1 == CatalogKey(isbn1)[5..];
    assert isbn2 == CatalogKey(isbn2)[5..];
  }

  /** Kotlin's `joinToString { it.name }`: the names in order, separated by ", ". */
  function JoinNames(authors: seq<Author>): (r: string)
    ensures |authors| > 0 ==> authors[0].name <= r
    ensures |authors| == 1 ==> r == authors[0].name
  {
    if |authors| == 0 then ""
    else if |authors| == 1 then authors[0].name
    else authors[0].name + ", " + JoinNames(authors[1..])
  }

  /** The joined string ends with the last author's name. */
  lemma {:induction false} JoinNamesEndsWithLast(authors: seq<Author>)
    requires |authors| > 0
    ensures var r := JoinNames(authors); var last := authors[|authors| - 1].name;
      |last| <= |r| && r[|r| - |last|..] == last
  {
    if |authors| > 1 {
      JoinNamesEndsWithLast(authors[1..]);
    }
  }

  /** Joining a concatenation joins the two parts with one separator: the names keep their order. */
  lemma {:induction false} JoinNamesAppend(a: seq<Author>, b: seq<Author>)
    requires |a| > 0 && |b| > 0
    ensures JoinNames(a + b) == JoinNames(a) + ", " + JoinNames(b)
  {
    if |a| == 1 {
      assert (a + b)[1..] == b;
    } else {
      assert (a + b)[1..] == a[1..] + b;
      JoinNamesAppend(a[1..], b);
    }
  }

  /** `getBookDetailsFromApi`: the catalog answer for one ISBN turned into a new, available book. */
  function BookFromCatalog(isbn: string, response: map<string, BookDetails>): (r: Option<Book>)
    ensures r.Some? <==> CatalogKey(isbn) in response
    ensures r.Some? ==>
      && r.value.uid == isbn && r.value.isbn == isbn
      && r.value.title == response[CatalogKey(isbn)].title
      && r.value.borrowerId.None? && r.value.lenderId.None?
    ensures r.Some? ==> (r.value.authors.None? <==> response[CatalogKey(isbn)].authors.None?)
    ensures r.Some? ==> (r.value.covers.None? <==> response[CatalogKey(isbn)].cover.None?)
    ensures r.Some? && response[CatalogKey(isbn)].authors.Some? ==>
      r.value.authors == Some(JoinNames(response[CatalogKey(isbn)].authors.value))
    ensures r.Some? && response[CatalogKey(isbn)].cover.Some? ==>
      r.value.covers == Some(response[CatalogKey(isbn)].cover.value.medium)
  {
    var key := CatalogKey(isbn);
    if key in response then
      var details := response[key];
      Some(Book(
        isbn,
        isbn,
        details.title,
        match details.authors case None => None case Some(names) => Some(JoinNames(names)),
        match details.cover case None => None case Some(c) => Some(c.medium),
        None,
        None))
    else
      None
  }

  /** `BookRepository`: the Room DAOs and the mediator client behind one object. */
  class BookRepository {
    var books: map<string, Book>
    var users: map<string, User>
    /** Every request sent to the mediator so far. */
    ghost var mediatorCalls: seq<MediatorCall>

    constructor (books: map<string, Book>, users: map<string, User>)
      ensures this.books == books && this.users == users && mediatorCalls == []
    {
      this.books := books;
      this.users := users;
      mediatorCalls := [];
    }

    function Tables(): Ledger
      reads this
    {
      Ledger(books, users)
    }

    /** `getBookById(id).first()`: the row, or None where Room yields null. */
    method GetBookById(id: string) returns (b: Option<Book>)
      ensures b.Some? <==> id in books
      ensures b.Some? ==> b.value == books[id]
    {
      b := if id in books then Some(books[id]) else None;
    }

    /** `getUserById(id).first()`: the row, or None where Room yields null. */
    method GetUserById(id: string) returns (u: Option<User>)
      ensures u.Some? <==> id in users
      ensures u.Some? ==> u.value == users[id]
    {
      u := if id in users then Some(users[id]) else None;
    }

    /** Insert, replacing a row with the same uid. */
    method InsertBook(b: Book)
      modifies this`books
      ensures books == old(books)[b.uid := b]
    {
      books := books[b.uid := b];
    }

    /** Room's @Update: rewrites the row with the same uid, if there is one. */
    method UpdateBook(b: Book)
      modifies this`books
      ensures books == if b.uid in old(books) then old(books)[b.uid := b] else old(books)
    {
      if b.uid in books {
        books := books[b.uid := b];
      }
    }

    /** Room's @Delete: removes the row with the same uid; no row, no change. */
    method DeleteBook(b: Book)
      modifies this`books
      ensures books == old(books) - {b.uid}
    {
      books := books - {b.uid};
    }

    /** `insertUser` with OnConflictStrategy.REPLACE: an upsert. */
    method InsertUser(u: User)
      modifies this`users
      ensures users == old(users)[u.uid := u]
    {
      users := users[u.uid := u];
    }

    /** `initTransaction`: sends the request and hands back the response's share id unchanged. */
    method InitTransaction(book: Book, owner: User, action: string, response: Result<InitResponse>)
      returns (r: Result<string>)
      modifies this`mediatorCalls
      ensures mediatorCalls == old(mediatorCalls) + [InitCall(InitRequest(action, book, owner))]
      ensures r.Ok? <==> response.Ok?
      ensures r.Ok? ==> r.value == response.value.shareId
    {
      mediatorCalls := mediatorCalls + [InitCall(InitRequest(action, book, owner))];
      r := match response case Ok(resp) => Ok(resp.shareId) case Err => Err;
    }

    /** `acceptTransaction`: sends the accepting user and returns the mediator's record. */
    method AcceptTransaction(shareId: string, borrower: User, response: Result<TransactionData>)
      returns (r: Result<TransactionData>)
      modifies this`mediatorCalls
      ensures mediatorCalls == old(mediatorCalls) + [AcceptCall(shareId, AcceptRequest(borrower))]
      ensures r == response
    {
      mediatorCalls := mediatorCalls + [AcceptCall(shareId, AcceptRequest(borrower))];
      r := response;
    }

    /** `resultTransaction`: one poll of the mediator; a failure is rethrown as it came. */
    method ResultTransaction(shareId: string, response: Result<TransactionData>)
      returns (r: Result<TransactionData>)
      modifies this`mediatorCalls
      ensures mediatorCalls == old(mediatorCalls) + [ResultCall(shareId)]
      ensures r == response
    {
      mediatorCalls := mediatorCalls + [ResultCall(shareId)];
      r := response;
    }
  }
}
