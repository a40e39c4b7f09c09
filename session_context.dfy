/**
  * contexts/SessionContext.tsx: the list of saved conversations of the signed-in user, the
  * id of the conversation on screen, and their persistence under a per-user storage key.
  *
  * The asynchronous backend sync is split into two sequential operations: UpdateSession
  * (the optimistic upsert) and, when the backend answers, PatchTitle. The persist effect,
  * which rewrites the user's key whenever the list changes, is folded into every operation
  * that changes the list, so the store always holds the current list (SessionManager.Valid).
  */
module SessionContext {
  import opened Wrappers
  import opened Strings
  import opened Types
  import opened Storage
  import ChatHistory
  import Seqs

  const SESSIONS_KEY: string := "bremiAI_sessions"
  const PREVIEW_LENGTH: nat := 60
  const NO_MESSAGE: string := "No message"

  /** `user && user.id`: an absent or empty id means nobody is signed in. */
  predicate SignedIn(userId: Option<string>) {
    userId.Some? && userId.value != ""
  }

  /** `getSessionStorageKey`. */
  function SessionStorageKey(userId: Option<string>): string {
    if SignedIn(userId) then SESSIONS_KEY + "_" + userId.value else SESSIONS_KEY
  }

  /** Keys isolate accounts: two signed-in users with different ids never share a key, and
      no signed-in user shares the anonymous key. */
  lemma SessionStorageKeyIsolates(a: Option<string>, b: Option<string>)
    ensures SessionStorageKey(a) == SessionStorageKey(b) <==>
              (SignedIn(a) <==> SignedIn(b)) && (SignedIn(a) ==> a.value == b.value)
    ensures |SessionStorageKey(a)| >= |SESSIONS_KEY|
    ensures SessionStorageKey(a)[..|SESSIONS_KEY|] == SESSIONS_KEY
  {
    var ka, kb := SessionStorageKey(a), SessionStorageKey(b);
    if SignedIn(a) && SignedIn(b) && ka == kb {
      var n := |SESSIONS_KEY| + 1;
      assert a.value == ka[n..] == kb[n..] == b.value;
    }
    if SignedIn(a) != SignedIn(b) {
      assert |ka| != |kb|;
    }
  }

  // ---------------------------------------------------------------- messages

  /** `messages.some(m => m.role === 'user')`. */
  predicate HasUserMessage(messages: seq<Message>) {
    exists i :: 0 <= i < |messages| && messages[i].role == User
  }

  /** `messages.filter(m => m.role === 'user').pop()?.text`. */
  function LastUserText(messages: seq<Message>): (r: Option<string>)
    ensures r.None? <==> !HasUserMessage(messages)
    ensures r.Some? ==> exists i :: 0 <= i < |messages| && messages[i].role == User && messages[i].text == r.value &&
                                    forall j :: i < j < |messages| ==> messages[j].role != User
  {
    if messages == [] then None
    else
      var n := |messages| - 1;
      if messages[n].role == User then Some(messages[n].text)
      else
        var r := LastUserText(messages[..n]);
        assert forall i :: 0 <= i < n ==> messages[..n][i] == messages[i];
        r
  }

  /** The preview of a conversation: the last user text, or "No message" when that is
      absent or empty, cut to 60 characters. */
  function Preview(messages: seq<Message>): string {
    Take(Or(LastUserText(messages), NO_MESSAGE), PREVIEW_LENGTH)
  }

  /** The preview is at most 60 characters long and is the start of the text of the last
      user-role message, or of "No message" when there is no such message or it is empty. */
  lemma PreviewSpec(messages: seq<Message>)
    ensures |Preview(messages)| <= PREVIEW_LENGTH
    ensures !HasUserMessage(messages) ==> Preview(messages) == NO_MESSAGE
    ensures HasUserMessage(messages) ==>
              exists i :: 0 <= i < |messages| && messages[i].role == User &&
                          (forall j :: i < j < |messages| ==> messages[j].role != User) &&
                          var t := if messages[i].text == "" then NO_MESSAGE else messages[i].text;
                          Preview(messages) == t[..|Preview(messages)|] &&
                          |Preview(messages)| == (if |t| <= PREVIEW_LENGTH then |t| else PREVIEW_LENGTH)
  {
  }

  // ---------------------------------------------------------------- session lists

  /** Position of the first session with the given id. */
  function FindIndex(sessions: seq<ChatSession>, id: string): (r: Option<nat>)
    ensures r.None? <==> forall i :: 0 <= i < |sessions| ==> sessions[i].id != id
    ensures r.Some? ==> r.value < |sessions| && sessions[r.value].id == id &&
                        forall j :: 0 <= j < r.value ==> sessions[j].id != id
  {
    if sessions == [] then None
    else if sessions[0].id == id then Some(0)
    else
      match FindIndex(sessions[1..], id)
      case None => None
      case Some(k) => Some(k + 1)
  }

  /** `sessions.find(s => s.id === id)`. */
  function Find(sessions: seq<ChatSession>, id: string): Option<ChatSession> {
    match FindIndex(sessions, id)
    case None => None
    case Some(i) => Some(sessions[i])
  }

  /** Lookup by id only sees ids and the sessions carrying the sought id. */
  lemma FindAgrees(a: seq<ChatSession>, b: seq<ChatSession>, x: string)
    requires |a| == |b|
    requires forall i :: 0 <= i < |a| ==> a[i].id == b[i].id
    requires forall i :: 0 <= i < |a| && a[i].id == x ==> a[i] == b[i]
    ensures Find(a, x) == Find(b, x)
  {
    var ra, rb := FindIndex(a, x), FindIndex(b, x);
    if ra.Some? {
      assert b[ra.value].id == x;
      assert rb.Some? && rb.value <= ra.value;
      assert a[rb.value].id == x;
    }
  }

  /** Lookup of any other id is unaffected by putting a session in front. */
  lemma FindPrepend(u: ChatSession, s: seq<ChatSession>, x: string)
    requires u.id != x
    ensures Find([u] + s, x) == Find(s, x)
  {
    var t := [u] + s;
    assert t[1..] == s;
  }

  /** The session the upsert writes for `id`: the new messages, time and preview, keeping
      the title of the existing session with that id. */
  function Updated(prev: seq<ChatSession>, id: string, messages: seq<Message>, now: int, preview: string): ChatSession {
    var existing := Find(prev, id);
    ChatSession(id, messages, now, preview, if existing.Some? then existing.value.title else None)
  }

  /** The optimistic update of `updateSession`: replace every session with that id, or put a
      new one in front. */
  function Upsert(prev: seq<ChatSession>, id: string, messages: seq<Message>, now: int, preview: string): seq<ChatSession> {
    var u := Updated(prev, id, messages, now, preview);
    if Find(prev, id).Some? then seq(|prev|, i requires 0 <= i < |prev| => if prev[i].id == id then u else prev[i])
    else [u] + prev
  }

  /** An existing id is replaced in place, with its title kept; a new id is put in front
      with no title; the session then found under `id` carries the new messages, time and
      preview; and every other id finds what it found before. */
  lemma UpsertSpec(prev: seq<ChatSession>, id: string, messages: seq<Message>, now: int, preview: string)
    ensures var r := Upsert(prev, id, messages, now, preview);
            && (Find(prev, id).Some? ==>
                  && |r| == |prev|
                  && (forall i :: 0 <= i < |prev| && prev[i].id != id ==> r[i] == prev[i])
                  && (forall i :: 0 <= i < |prev| && prev[i].id == id ==>
                        r[i] == ChatSession(id, messages, now, preview, Find(prev, id).value.title)))
            && (Find(prev, id).None? ==> r == [ChatSession(id, messages, now, preview, None)] + prev)
            && Find(r, id) == Some(ChatSession(id, messages, now, preview,
                                               if Find(prev, id).Some? then Find(prev, id).value.title else None))
            && (forall x :: x != id ==> Find(r, x) == Find(prev, x))
  {
    var r := Upsert(prev, id, messages, now, preview);
    var u := Updated(prev, id, messages, now, preview);
    if Find(prev, id).Some? {
      var k := FindIndex(prev, id).value;
      assert FindIndex(r, id) == Some(k) by {
        assert r[k].id == id;
        var rk := FindIndex(r, id);
        assert rk.Some? && rk.value <= k;
        assert prev[rk.value].id == id;
      }
      forall x | x != id ensures Find(r, x) == Find(prev, x) {
        FindAgrees(r, prev, x);
      }
    } else {
      assert r[1..] == prev;
      forall x | x != id ensures Find(r, x) == Find(prev, x) {
        FindPrepend(u, prev, x);
      }
    }
  }

  /** The title patch: `prev.map(s => s.id === id ? { ...s, title } : s)`. */
  function SetTitle(prev: seq<ChatSession>, id: string, title: string): seq<ChatSession> {
    seq(|prev|, i requires 0 <= i < |prev| => if prev[i].id == id then prev[i].(title := Some(title)) else prev[i])
  }

  /** The patch changes only the title, and only of the sessions with that id; with no such
      session the list is unchanged; otherwise `id` now finds the new title. */
  lemma SetTitleSpec(prev: seq<ChatSession>, id: string, title: string)
    ensures var r := SetTitle(prev, id, title);
            && |r| == |prev|
            && (forall i :: 0 <= i < |prev| && prev[i].id != id ==> r[i] == prev[i])
            && (forall i :: 0 <= i < |prev| && prev[i].id == id ==>
                  r[i].title == Some(title) && r[i] == prev[i].(title := r[i].title))
            && (Find(prev, id).None? ==> r == prev)
            && (Find(prev, id).Some? ==> Find(r, id) == Some(Find(prev, id).value.(title := Some(title))))
  {
    var r := SetTitle(prev, id, title);
    if Find(prev, id).Some? {
      var k := FindIndex(prev, id).value;
      var rk := FindIndex(r, id);
      assert r[k].id == id;
      assert rk.Some? && rk.value <= k;
      assert prev[rk.value].id == id;
    }
  }

  /** `sessions.filter(s => s.id !== id)`. */
  function Remove(sessions: seq<ChatSession>, id: string): seq<ChatSession> {
    Seqs.Filter(sessions, OtherId(id))
  }

  /** The filter's test: the session has another id. */
  function OtherId(id: string): ChatSession -> bool {
    (s: ChatSession) => s.id != id
  }

  /** Removal deletes exactly the sessions with that id and nothing else, and a list with no
      such session is left as it is. */
  lemma RemoveSpec(sessions: seq<ChatSession>, id: string)
    ensures forall s :: s in Remove(sessions, id) <==> s in sessions && s.id != id
    ensures |Remove(sessions, id)| <= |sessions|
    ensures (forall i :: 0 <= i < |sessions| ==> sessions[i].id != id) ==> Remove(sessions, id) == sessions
  {
    Seqs.FilterMembers(sessions, OtherId(id));
  }

  /** Removal keeps the stored order of what remains: it is the removal applied piecewise. */
  lemma RemoveConcat(a: seq<ChatSession>, b: seq<ChatSession>, id: string)
    ensures Remove(a + b, id) == Remove(a, id) + Remove(b, id)
  {
    Seqs.FilterConcat(a, b, OtherId(id));
  }

  /** The id selected after the active session is deleted: the newest remaining session. */
  function Fallback(remaining: seq<ChatSession>): Option<string> {
    if |remaining| > 0 then Some(ChatHistory.SortNewestFirst(remaining)[0].id) else None
  }

  /** The fallback is none exactly when nothing remains, and otherwise the remaining session
      with the largest `lastUpdated`, the first in stored order among equals. */
  lemma FallbackSpec(remaining: seq<ChatSession>)
    ensures Fallback(remaining).None? <==> remaining == []
    ensures remaining != [] ==> Fallback(remaining) == Some(remaining[ChatHistory.FirstMaxIndex(remaining)].id)
  {
    if remaining != [] {
      ChatHistory.SortNewestFirstSpec(remaining);
      ChatHistory.SortHead(remaining);
    }
  }

  /** What the reload effect puts in the list: the stored list, or `[]` when the key is
      missing or does not hold a session list. */
  function Loaded(items: map<string, Blob>, key: string): seq<ChatSession> {
    if key in items && items[key].SessionList? then items[key].sessions else []
  }

  /** `activeSessionId || Date.now().toString()`: the session an update is written to. */
  function ChosenId(activeId: Option<string>, now: nat): string {
    if activeId.Some? && activeId.value != "" then activeId.value else Decimal(now)
  }

  // ---------------------------------------------------------------- the provider

  class SessionManager {
    var userId: Option<string>
    var sessions: seq<ChatSession>
    var activeId: Option<string>
    const store: KeyValueStore

    function Key(): string
      reads this
    {
      SessionStorageKey(userId)
    }

    /** The persist effect has run: the user's key holds the current list. */
    predicate Valid()
      reads this, store
    {
      Key() in store.items && store.items[Key()] == SessionList(sessions)
    }

    /** The first load on mount: read the user's key, select nothing, write the list back. */
    constructor Mount(store: KeyValueStore, userId: Option<string>)
      modifies store
      ensures this.store == store && this.userId == userId
      ensures sessions == Loaded(old(store.items), SessionStorageKey(userId))
      ensures activeId == None
      ensures store.items == old(store.items)[SessionStorageKey(userId) := SessionList(sessions)]
      ensures Valid()
    {
      this.store := store;
      this.userId := userId;
      var key := SessionStorageKey(userId);
      var loaded := Loaded(store.items, key);
      sessions := loaded;
      activeId := None;
      new;
      store.SetItem(key, SessionList(loaded));
    }

    /** The reload effect when `user?.id` changes: the list comes from the new user's key,
      the selection is cleared, and only the new user's key is written. */
    method UserChanged(newUserId: Option<string>)
      requires Valid()
      modifies this, store
      ensures Valid()
      ensures newUserId == old(userId) ==> unchanged(this) && store.items == old(store.items)
      ensures newUserId != old(userId) ==>
                && userId == newUserId
                && sessions == Loaded(old(store.items), SessionStorageKey(newUserId))
                && activeId == None
                && store.items == old(store.items)[Key() := SessionList(sessions)]
    {
      if newUserId != userId {
        var key := SessionStorageKey(newUserId);
        var loaded := Loaded(store.items, key);
        userId := newUserId;
        sessions := loaded;
        activeId := None;
        store.SetItem(key, SessionList(loaded));
      }
    }

    /** `updateSession(messages, save)` up to the point where the backend sync starts, with
      the clock reading `now` standing for both `Date.now()` calls. Returns the id written,
      if any, and whether a backend sync (and so a later PatchTitle) follows. */
    method UpdateSession(messages: seq<Message>, save: bool, now: nat) returns (written: Option<string>, syncs: bool)
      requires Valid()
      modifies this, store
      ensures Valid()
      ensures userId == old(userId)
      ensures !save || !HasUserMessage(messages) ==>
                unchanged(this) && store.items == old(store.items) && written.None? && !syncs
      ensures save && HasUserMessage(messages) ==>
                var id := ChosenId(old(activeId), now);
                && written == Some(id)
                && activeId == Some(id)
                && sessions == Upsert(old(sessions), id, messages, now, Preview(messages))
                && store.items == old(store.items)[Key() := SessionList(sessions)]
                && (syncs <==> SignedIn(userId))
    {
      if !save || !HasUserMessage(messages) {
        return None, false;
      }
      var id: string;
      if activeId.Some? && activeId.value != "" {
        id := activeId.value;
      } else {
        id := Decimal(now);
        activeId := Some(id);
      }
      sessions := Upsert(sessions, id, messages, now, Preview(messages));
      store.SetItem(Key(), SessionList(sessions));
      written := Some(id);
      syncs := SignedIn(userId);
    }

    /** The backend's answer to the sync: a non-empty suggested title is written to the
      session with that id. */
    method PatchTitle(id: string, suggested: Option<string>)
      requires Valid()
      modifies this, store
      ensures Valid()
      ensures userId == old(userId) && activeId == old(activeId)
      ensures suggested.None? || suggested.value == "" ==> sessions == old(sessions)
      ensures suggested.Some? && suggested.value != "" ==> sessions == SetTitle(old(sessions), id, suggested.value)
      ensures store.items == old(store.items)[Key() := SessionList(sessions)]
    {
      if suggested.Some? && suggested.value != "" {
        sessions := SetTitle(sessions, id, suggested.value);
      }
      store.SetItem(Key(), SessionList(sessions));
    }

    /** `selectSession`. */
    method SelectSession(id: string)
      requires Valid()
      modifies this
      ensures Valid()
      ensures activeId == Some(id)
      ensures userId == old(userId) && sessions == old(sessions)
    {
      activeId := Some(id);
    }

    /** `deleteSession`: drop the sessions with that id, write the rest, and when the deleted
      session was the active one select the newest remaining session or none. */
    method DeleteSession(id: string)
      requires Valid()
      modifies this, store
      ensures Valid()
      ensures userId == old(userId)
      ensures sessions == Remove(old(sessions), id)
      ensures store.items == old(store.items)[Key() := SessionList(sessions)]
      ensures old(activeId) == Some(id) ==> activeId == Fallback(sessions)
      ensures old(activeId) != Some(id) ==> activeId == old(activeId)
    {
      var remaining := Remove(sessions, id);
      sessions := remaining;
      store.SetItem(Key(), SessionList(remaining));
      if activeId == Some(id) {
        activeId := Fallback(remaining);
      }
    }

    /** `newChat`. */
    method NewChat()
      requires Valid()
      modifies this
      ensures Valid()
      ensures activeId == None
      ensures userId == old(userId) && sessions == old(sessions)
    {
      activeId := None;
    }

    /** `activeSession`. */
    function ActiveSession(): (r: Option<ChatSession>)
      reads this
      ensures r.Some? ==> activeId.Some? && r.value.id == activeId.value && r.value in sessions
      ensures activeId.Some? && (exists i :: 0 <= i < |sessions| && sessions[i].id == activeId.value) ==> r.Some?
    {
      if activeId.None? then None else Find(sessions, activeId.value)
    }
  }
}
