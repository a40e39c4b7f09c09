/**
  * contexts/UserContext.tsx: the one current-user slot and its copy under "bremiAI_user".
  *
  * The mount effect parses the stored record with no error handling, so a record that does
  * not parse makes the effect throw; ReadUser reports that as ParseError instead of
  * recovering from it.
  */
module UserContext {
  import opened Wrappers
  import opened Types
  import opened Storage
  import SessionContext

  const USER_KEY: string := "bremiAI_user"

  datatype StoredUser = Absent | Stored(user: UserProfile) | ParseError

  /** `localStorage.getItem('bremiAI_user')` followed by `JSON.parse` when something is there. */
  function ReadUser(items: map<string, Blob>): StoredUser {
    if USER_KEY !in items then Absent
    else if items[USER_KEY].UserRecord? then Stored(items[USER_KEY].user)
    else ParseError
  }

  /** What login and updateUser write is what the next mount reads back; after logout the
      next mount finds nobody. */
  lemma ReadUserRoundTrip(items: map<string, Blob>, u: UserProfile)
    ensures ReadUser(items[USER_KEY := UserRecord(u)]) == Stored(u)
    ensures ReadUser(items - {USER_KEY}) == Absent
  {
  }

  /** The identity key is never a session key, whoever is signed in. */
  lemma UserKeyIsNotASessionKey(userId: Option<string>)
    ensures SessionContext.SessionStorageKey(userId) != USER_KEY
  {
    var k := SessionContext.SessionStorageKey(userId);
    SessionContext.SessionStorageKeyIsolates(userId, userId);
    assert k[8] == SessionContext.SESSIONS_KEY[8] == 's';
    assert USER_KEY[8] == 'u';
  }

  /** Removing or rewriting the identity record leaves every user's sessions where they are. */
  lemma IdentityWritesKeepSessions(items: map<string, Blob>, u: UserProfile, userId: Option<string>)
    ensures var k := SessionContext.SessionStorageKey(userId);
            && (k in items - {USER_KEY} <==> k in items)
            && (k in items ==> (items - {USER_KEY})[k] == items[k])
            && (k in items[USER_KEY := UserRecord(u)] <==> k in items)
            && (k in items ==> items[USER_KEY := UserRecord(u)][k] == items[k])
  {
    UserKeyIsNotASessionKey(userId);
  }

  class IdentityStore {
    var user: Option<UserProfile>
    const store: KeyValueStore

    /** The slot and the store agree whenever somebody is signed in. */
    predicate Valid()
      reads this, store
    {
      user.Some? ==> ReadUser(store.items) == Stored(user.value)
    }

    /** `useState<UserProfile | null>(null)`. */
    constructor (store: KeyValueStore)
      ensures this.store == store && user == None
      ensures Valid()
    {
      this.store := store;
      user := None;
    }

    /** The mount effect: adopt the stored record if there is one; `thrown` reports a record
      that does not parse, in which case the slot stays empty. */
    method Mount() returns (thrown: bool)
      requires Valid()
      modifies this
      ensures Valid()
      ensures store.items == old(store.items)
      ensures thrown <==> ReadUser(store.items).ParseError?
      ensures ReadUser(store.items).Stored? ==> user == Some(ReadUser(store.items).user)
      ensures !ReadUser(store.items).Stored? ==> user == old(user)
    {
      match ReadUser(store.items)
      case Absent => thrown := false;
      case Stored(u) => user := Some(u); thrown := false;
      case ParseError => thrown := true;
    }

    /** `login`. */
    method Login(newUser: UserProfile)
      modifies this, store
      ensures Valid()
      ensures user == Some(newUser)
      ensures store.items == old(store.items)[USER_KEY := UserRecord(newUser)]
    {
      user := Some(newUser);
      store.SetItem(USER_KEY, UserRecord(newUser));
    }

    /** `logout`: only the identity key goes. */
    method Logout()
      modifies this, store
      ensures Valid()
      ensures user == None
      ensures store.items == old(store.items) - {USER_KEY}
    {
      store.RemoveItem(USER_KEY);
      user := None;
    }

    /** `updateUser`: a full replacement of the slot and of the stored record. */
    method UpdateUser(updated: UserProfile)
      modifies this, store
      ensures Valid()
      ensures user == Some(updated)
      ensures store.items == old(store.items)[USER_KEY := UserRecord(updated)]
    {
      user := Some(updated);
      store.SetItem(USER_KEY, UserRecord(updated));
    }
  }
}
