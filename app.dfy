/**
  * App.tsx: the older application shell, which keeps its own user slot, session list and
  * selection, with rules of its own: it saves any list longer than one message, writes
  * sessions without titles under the single key "bremiAI_sessions", and on deleting the
  * active session selects nothing.
  *
  * The shell still hands `initialMessages`, `onSessionUpdate` and `sessionId` to a chat
  * component that only declares `onEmergency`, so in the application as shipped
  * HandleSessionUpdate and InitialMessages are never reached; they are modelled as
  * written.
  */
module App {
  import opened Wrappers
  import opened Strings
  import opened Types
  import opened Storage
  import Translations
  import SessionContext
  import UserContext

  const LEGACY_SESSIONS_KEY: string := "bremiAI_sessions"
  const NAME_PLACEHOLDER: string := "${user.name}"

  /** `!save || messages.length <= 1` refuses the update. */
  predicate SavesUpdate(messages: seq<Message>, save: bool) {
    save && |messages| > 1
  }

  /** The shell's gate and the session manager's gate are different rules: a user message
      alone passes only the manager's, a reply with no user message only the shell's. */
  lemma GatesDiffer(t: int)
    ensures var alone := [PlainMessage("1", User, "hi", t)];
            SessionContext.HasUserMessage(alone) && !SavesUpdate(alone, true)
    ensures var noUser := [PlainMessage("privacy-notice", System, "", t), PlainMessage("2", Model, "hello", t)];
            !SessionContext.HasUserMessage(noUser) && SavesUpdate(noUser, true)
  {
    var alone := [PlainMessage("1", User, "hi", t)];
    assert alone[0].role == User;
  }

  /** The shell's upsert: the written session never has a title. */
  function LegacyUpsert(prev: seq<ChatSession>, id: string, messages: seq<Message>, now: int, preview: string): seq<ChatSession> {
    var u := ChatSession(id, messages, now, preview, None);
    if SessionContext.Find(prev, id).Some? then seq(|prev|, i requires 0 <= i < |prev| => if prev[i].id == id then u else prev[i])
    else [u] + prev
  }

  /** An existing id is replaced in place by a title-less record, a new id is put in front,
      and every other id finds what it found before. */
  lemma LegacyUpsertSpec(prev: seq<ChatSession>, id: string, messages: seq<Message>, now: int, preview: string)
    ensures var r := LegacyUpsert(prev, id, messages, now, preview);
            var u := ChatSession(id, messages, now, preview, None);
            && (SessionContext.Find(prev, id).Some? ==>
                  && |r| == |prev|
                  && (forall i :: 0 <= i < |prev| ==> r[i] == if prev[i].id == id then u else prev[i]))
            && (SessionContext.Find(prev, id).None? ==> r == [u] + prev)
            && SessionContext.Find(r, id) == Some(u)
            && (forall x :: x != id ==> SessionContext.Find(r, x) == SessionContext.Find(prev, x))
  {
    var r := LegacyUpsert(prev, id, messages, now, preview);
    var u := ChatSession(id, messages, now, preview, None);
    if SessionContext.Find(prev, id).Some? {
      var k := SessionContext.FindIndex(prev, id).value;
      assert SessionContext.FindIndex(r, id) == Some(k) by {
        assert r[k].id == id;
        var rk := SessionContext.FindIndex(r, id);
        assert rk.Some? && rk.value <= k;
        assert prev[rk.value].id == id;
      }
      forall x | x != id ensures SessionContext.Find(r, x) == SessionContext.Find(prev, x) {
        SessionContext.FindAgrees(r, prev, x);
      }
    } else {
      assert r[1..] == prev;
      forall x | x != id ensures SessionContext.Find(r, x) == SessionContext.Find(prev, x) {
        SessionContext.FindPrepend(u, prev, x);
      }
    }
  }

  /** Where the session manager keeps a title the shell loses it. */
  lemma LegacyDropsTitle(prev: seq<ChatSession>, id: string, messages: seq<Message>, now: int, preview: string)
    requires SessionContext.Find(prev, id).Some? && SessionContext.Find(prev, id).value.title.Some?
    ensures var r := SessionContext.Find(LegacyUpsert(prev, id, messages, now, preview), id);
            r.Some? && r.value.title == None
    ensures var r := SessionContext.Find(SessionContext.Upsert(prev, id, messages, now, preview), id);
            r.Some? && r.value.title == SessionContext.Find(prev, id).value.title
  {
    LegacyUpsertSpec(prev, id, messages, now, preview);
    SessionContext.UpsertSpec(prev, id, messages, now, preview);
  }

  /** `getInitialMessages` of the shell. */
  function InitialMessages(sessions: seq<ChatSession>, activeId: Option<string>, user: Option<UserProfile>, now: int): seq<Message> {
    if activeId.Some? && activeId.value != "" && SessionContext.Find(sessions, activeId.value).Some? then
      SessionContext.Find(sessions, activeId.value).value.messages
    else if user.None? then []
    else
      var welcome := Translations.Welcome(user.value.language);
      [PlainMessage("welcome", Model, ReplaceFirst(welcome, NAME_PLACEHOLDER, user.value.name), now)]
  }

  /** The selected session's messages when it exists; otherwise nothing without a user, and
      with one a single model-role "welcome" message whose text is the greeting of the
      user's language. None of the greetings holds the "${user.name}" placeholder, so the
      name is never put in. */
  lemma InitialMessagesSpec(sessions: seq<ChatSession>, activeId: Option<string>, user: Option<UserProfile>, now: int)
    ensures var r := InitialMessages(sessions, activeId, user, now);
            var found := activeId.Some? && activeId.value != "" && SessionContext.Find(sessions, activeId.value).Some?;
            && (found ==> exists i :: 0 <= i < |sessions| && sessions[i].id == activeId.value && r == sessions[i].messages)
            && (!found && user.None? ==> r == [])
            && (!found && user.Some? ==>
                  r == [PlainMessage("welcome", Model, Translations.Welcome(user.value.language), now)])
  {
    if user.Some? {
      var welcome := Translations.Welcome(user.value.language);
      Translations.WelcomeHasNoDollar(user.value.language);
      AbsentChar(welcome, NAME_PLACEHOLDER, '$');
    }
    if activeId.Some? && activeId.value != "" && SessionContext.Find(sessions, activeId.value).Some? {
      var k := SessionContext.FindIndex(sessions, activeId.value).value;
      assert sessions[k].id == activeId.value;
    }
  }

  class LegacyApp {
    var user: Option<UserProfile>
    var view: AppView
    var showEmergency: bool
    var sessions: seq<ChatSession>
    var activeId: Option<string>
    const store: KeyValueStore

    /** The initial state of the shell. */
    constructor (store: KeyValueStore)
      ensures this.store == store
      ensures user == None && view == OnboardingScreen && !showEmergency
      ensures sessions == [] && activeId == None
    {
      this.store := store;
      user := None;
      view := OnboardingScreen;
      showEmergency := false;
      sessions := [];
      activeId := None;
    }

    /** The mount effect: adopt a stored user (and open the chat), then a stored session
      list. Neither parse is guarded, so a record that does not parse ends the effect there,
      reported by `thrown`. */
    method Mount() returns (thrown: bool)
      modifies this
      ensures store.items == old(store.items)
      ensures activeId == old(activeId) && showEmergency == old(showEmergency)
      ensures var u := UserContext.ReadUser(store.items);
              var key := LEGACY_SESSIONS_KEY;
              var badSessions := key in store.items && !store.items[key].SessionList?;
              && (thrown <==> u.ParseError? || badSessions)
              && (u.Stored? ==> user == Some(u.user) && view == ChatScreen)
              && (!u.Stored? ==> user == old(user) && view == old(view))
              && (!u.ParseError? && key in store.items && store.items[key].SessionList? ==> sessions == store.items[key].sessions)
              && (u.ParseError? || key !in store.items || !store.items[key].SessionList? ==> sessions == old(sessions))
    {
      var u := UserContext.ReadUser(store.items);
      if u.ParseError? {
        return true;
      }
      if u.Stored? {
        user := Some(u.user);
        view := ChatScreen;
      }
      if LEGACY_SESSIONS_KEY in store.items {
        if store.items[LEGACY_SESSIONS_KEY].SessionList? {
          sessions := store.items[LEGACY_SESSIONS_KEY].sessions;
        } else {
          return true;
        }
      }
      return false;
    }

    /** `handleLogin`. */
    method HandleLogin(newUser: UserProfile)
      modifies this, store
      ensures user == Some(newUser) && view == ChatScreen
      ensures store.items == old(store.items)[UserContext.USER_KEY := UserRecord(newUser)]
      ensures sessions == old(sessions) && activeId == old(activeId) && showEmergency == old(showEmergency)
    {
      user := Some(newUser);
      store.SetItem(UserContext.USER_KEY, UserRecord(newUser));
      view := ChatScreen;
    }

    /** `handleUpdateUser`. */
    method HandleUpdateUser(updated: UserProfile)
      modifies this, store
      ensures user == Some(updated)
      ensures store.items == old(store.items)[UserContext.USER_KEY := UserRecord(updated)]
      ensures view == old(view) && sessions == old(sessions) && activeId == old(activeId) && showEmergency == old(showEmergency)
    {
      user := Some(updated);
      store.SetItem(UserContext.USER_KEY, UserRecord(updated));
    }

    /** `handleLogout`. */
    method HandleLogout()
      modifies this, store
      ensures user == None && view == OnboardingScreen
      ensures store.items == old(store.items) - {UserContext.USER_KEY}
      ensures sessions == old(sessions) && activeId == old(activeId) && showEmergency == old(showEmergency)
    {
      store.RemoveItem(UserContext.USER_KEY);
      user := None;
      view := OnboardingScreen;
    }

    /** `triggerEmergency`. */
    method TriggerEmergency()
      modifies this
      ensures showEmergency
      ensures user == old(user) && view == old(view) && sessions == old(sessions) && activeId == old(activeId)
    {
      showEmergency := true;
    }

    /** `handleSessionUpdate(messages, save)`, with the clock reading `now` standing for both
      `Date.now()` calls. */
    method HandleSessionUpdate(messages: seq<Message>, save: bool, now: nat)
      modifies this, store
      ensures user == old(user) && view == old(view) && showEmergency == old(showEmergency)
      ensures !SavesUpdate(messages, save) ==> unchanged(this) && store.items == old(store.items)
      ensures SavesUpdate(messages, save) ==>
                var id := SessionContext.ChosenId(old(activeId), now);
                && activeId == Some(id)
                && sessions == LegacyUpsert(old(sessions), id, messages, now, SessionContext.Preview(messages))
                && store.items == old(store.items)[LEGACY_SESSIONS_KEY := SessionList(sessions)]
    {
      if !SavesUpdate(messages, save) {
        return;
      }
      var id: string;
      if activeId.Some? && activeId.value != "" {
        id := activeId.value;
      } else {
        id := Decimal(now);
        activeId := Some(id);
      }
      sessions := LegacyUpsert(sessions, id, messages, now, SessionContext.Preview(messages));
      store.SetItem(LEGACY_SESSIONS_KEY, SessionList(sessions));
    }

    /** `handleSelectSession`. */
    method HandleSelectSession(session: ChatSession)
      modifies this
      ensures activeId == Some(session.id) && view == ChatScreen
      ensures user == old(user) && sessions == old(sessions) && showEmergency == old(showEmergency)
    {
      activeId := Some(session.id);
      view := ChatScreen;
    }

    /** `handleDeleteSession`, with the answer to the confirmation dialog as `confirmed`. */
    method HandleDeleteSession(id: string, confirmed: bool)
      modifies this, store
      ensures user == old(user) && view == old(view) && showEmergency == old(showEmergency)
      ensures !confirmed ==> unchanged(this) && store.items == old(store.items)
      ensures confirmed ==>
                && sessions == SessionContext.Remove(old(sessions), id)
                && store.items == old(store.items)[LEGACY_SESSIONS_KEY := SessionList(sessions)]
                && activeId == (if old(activeId) == Some(id) then None else old(activeId))
    {
      if confirmed {
        var remaining := SessionContext.Remove(sessions, id);
        sessions := remaining;
        store.SetItem(LEGACY_SESSIONS_KEY, SessionList(remaining));
        if activeId == Some(id) {
          activeId := None;
        }
      }
    }

    /** `handleNewChat`. */
    method HandleNewChat()
      modifies this
      ensures activeId == None && view == ChatScreen
      ensures user == old(user) && sessions == old(sessions) && showEmergency == old(showEmergency)
    {
      activeId := None;
      view := ChatScreen;
    }
  }
}
