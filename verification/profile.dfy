/**
 * ProfileViewModel: on creation it makes sure a user id is stored and shows
 * that user's row; saving writes the three contact fields under the stored id.
 * The shown user follows the table, as Room's flow re-emits after each write.
 */
module Profile {
  import opened Entities
  import opened Repository
  import opened Handshake
  import opened Library

  /** The users table after `saveUser`: an upsert under the stored id, nothing without one. */
  function SavedUsers(users: map<string, User>, userId: Option<string>,
                      fullName: string, tel: string, email: string): (r: map<string, User>)
    ensures userId.None? ==> r == users
    ensures userId.Some? ==> r.Keys == users.Keys + {userId.value}
    ensures userId.Some? ==> r[userId.value] == User(userId.value, fullName, tel, email)
    ensures forall k :: k in users && Some(k) != userId ==> r[k] == users[k]
  {
    match userId
    case None => users
    case Some(id) => users[id := User(id, fullName, tel, email)]
  }

  /** The row shown for an id: None where Room yields null. */
  function ShownUser(users: map<string, User>, id: string): Option<User>
  {
    if id in users then Some(users[id]) else None
  }

  /** A later save replaces an earlier one completely: last write wins, and saving twice is saving once. */
  lemma SaveLastWriteWins(users: map<string, User>, userId: Option<string>,
                          n1: string, t1: string, e1: string, n2: string, t2: string, e2: string)
    ensures SavedUsers(SavedUsers(users, userId, n1, t1, e1), userId, n2, t2, e2) == SavedUsers(users, userId, n2, t2, e2)
  {
  }

  /** Saving keeps every row under its own uid. */
  lemma SaveKeepsKeyed(books: map<string, Book>, users: map<string, User>, userId: Option<string>,
                       fullName: string, tel: string, email: string)
    requires Keyed(Ledger(books, users))
    ensures Keyed(Ledger(books, SavedUsers(users, userId, fullName, tel, email)))
  {
  }

  /**
   * Saving does no validation, so whether the saved profile may start or
   * accept a handshake is decided by its three fields alone.
   */
  lemma SavedProfileGate(users: map<string, User>, id: string, fullName: string, tel: string, email: string)
    ensures var saved := SavedUsers(users, Some(id), fullName, tel, email);
      ProfileGate(Some(id), saved) ==
        if fullName != "" && tel != "" && email != "" then Ready(User(id, fullName, tel, email))
        else IncompleteProfile
  {
  }

  /** After a save, the lists show the saved full name for the stored id. */
  lemma SavedNameIsShown(users: map<string, User>, id: string, fullName: string, tel: string, email: string)
    ensures UserFullName(SavedUsers(users, Some(id), fullName, tel, email), Some(id)) == fullName
  {
  }

  class ProfileViewModel {
    const repo: BookRepository
    const prefs: Preferences
    var user: Option<User>

    /** Construction runs `loadUser`, drawing `freshId` in case no id is stored yet. */
    constructor (repo: BookRepository, prefs: Preferences, freshId: string)
      modifies prefs
      ensures this.repo == repo && this.prefs == prefs
      ensures prefs.userId == Some(UserIdAfterInit(old(prefs.userId), freshId))
      ensures user == ShownUser(repo.users, prefs.userId.value)
    {
      this.repo := repo;
      this.prefs := prefs;
      user := None;
      new;
      LoadUser(freshId);
    }

    /** `loadUser`: an id is written only when none is stored; the row of the stored id is shown. */
    method LoadUser(freshId: string)
      modifies prefs, this`user
      ensures prefs.userId == Some(UserIdAfterInit(old(prefs.userId), freshId))
      ensures user == ShownUser(repo.users, prefs.userId.value)
    {
      var userId := prefs.GetOrCreateUserId(freshId);
      user := ShownUser(repo.users, userId);
    }

    /** `saveUser`: upserts the profile under the stored id; the shown row follows the write. */
    method SaveUser(fullName: string, tel: string, email: string)
      modifies repo`users, this`user
      ensures repo.users == SavedUsers(old(repo.users), prefs.userId, fullName, tel, email)
      ensures prefs.userId.Some? ==> user == Some(User(prefs.userId.value, fullName, tel, email))
      ensures prefs.userId.None? ==> user == old(user)
    {
      var userId := prefs.userId;
      if userId.Some? {
        var updatedUser := User(userId.value, fullName, tel, email);
        repo.InsertUser(updatedUser);
        user := ShownUser(repo.users, userId.value);
      }
    }
  }
}
