/**
  * components/ChatInterface.tsx, its local part: the message list of the conversation on
  * screen, the send and feedback handlers, the history toggle, the effect that hands the
  * list to the session manager, the keyword checks on the input, and the lookups in the
  * psycho-education wiki.
  *
  * The component reads the signed-in user from the identity store and the active session
  * from the session manager; both write the same key-value store. The Gemini call and the
  * geolocation prompt are outside: Send returns what would be sent, and ReceiveReply takes
  * the outcome. Each handler ends by running the persistence effect, as React runs it after
  * the render that follows a change to the list or to the `saveHistory` flag.
  */
module ChatInterface {
  import opened Wrappers
  import opened Strings
  import opened Types
  import opened Storage
  import Translations
  import SessionContext
  import UserContext
  import GeminiService
  import Seqs

  const PRIVACY_NOTICE_ID: string := "privacy-notice"
  const SEND_ERROR_TEXT: string := "Sorry, something went wrong. Please try again."
  const EMERGENCY_KEYWORDS: seq<string> := ["suicide", "kill myself", "end it all"]
  const LOCATION_KEYWORDS: seq<string> := ["hospital", "help", "emergency", "clinic", "therapist", "doctor"]

  // ---------------------------------------------------------------- the message list

  /** `getInitialMessages`: the active session's messages, or the privacy notice alone.
      `notice` is `t.privacy_notice`, the notice in the user's language. */
  function InitialMessages(active: Option<ChatSession>, notice: string, now: int): seq<Message> {
    if active.Some? then active.value.messages
    else [PlainMessage(PRIVACY_NOTICE_ID, System, notice, now)]
  }

  /** The list is handed to the session manager only once it holds more than one message. */
  predicate PersistsHistory(messages: seq<Message>) {
    |messages| > 1
  }

  /** A fresh conversation is exactly one system-role privacy notice, which on its own is
      never persisted. */
  lemma InitialMessagesSpec(active: Option<ChatSession>, notice: string, now: int)
    ensures active.Some? ==> InitialMessages(active, notice, now) == active.value.messages
    ensures active.None? ==> |InitialMessages(active, notice, now)| == 1
    ensures active.None? ==> InitialMessages(active, notice, now)[0].id == PRIVACY_NOTICE_ID
    ensures active.None? ==> InitialMessages(active, notice, now)[0].role == System
    ensures active.None? ==> InitialMessages(active, notice, now)[0].text == notice
    ensures active.None? ==> !PersistsHistory(InitialMessages(active, notice, now))
    ensures active.None? ==> !SessionContext.HasUserMessage(InitialMessages(active, notice, now))
  {
    if active.None? {
      var m := PlainMessage(PRIVACY_NOTICE_ID, System, notice, now);
      assert InitialMessages(active, notice, now) == [m];
      assert !SessionContext.HasUserMessage([m]) by {
        assert forall i :: 0 <= i < |[m]| ==> [m][i].role == System;
      }
    }
  }

  /** `!inputText.trim() && !selectedImage`. */
  predicate SendRefused(input: string, image: Option<string>) {
    Trim(input) == "" && !GeminiService.HasImage(image)
  }

  /** Send is refused exactly when the input is all whitespace and no image is attached. */
  lemma SendRefusedSpec(input: string, image: Option<string>)
    ensures SendRefused(input, image) <==> IsBlank(input) && (image.None? || image.value == "")
  {
    TrimSpec(input);
  }

  /** `prev.map(msg => msg.id === id ? { ...msg, feedback } : msg)`. */
  function SetFeedback(messages: seq<Message>, id: string, feedback: Feedback): seq<Message> {
    seq(|messages|, i requires 0 <= i < |messages| =>
      if messages[i].id == id then messages[i].(feedback := Some(feedback)) else messages[i])
  }

  /** Feedback lands only on the messages with that id, and only in their feedback field;
      length and order are kept, and setting the same feedback twice changes nothing more. */
  lemma SetFeedbackSpec(messages: seq<Message>, id: string, feedback: Feedback)
    ensures var r := SetFeedback(messages, id, feedback);
            && |r| == |messages|
            && (forall i :: 0 <= i < |r| && messages[i].id != id ==> r[i] == messages[i])
            && (forall i :: 0 <= i < |r| && messages[i].id == id ==>
                  r[i].feedback == Some(feedback) && r[i].(feedback := messages[i].feedback) == messages[i])
            && SetFeedback(r, id, feedback) == r
  {
  }

  /** The `updatedUser` of `handleToggleHistory`. */
  function ToggledHistory(u: UserProfile): UserProfile {
    u.(preferences := u.preferences.(saveHistory := !u.preferences.saveHistory))
  }

  /** Toggling flips `saveHistory`, keeps every other field, and undoes itself. */
  lemma ToggledHistorySpec(u: UserProfile)
    ensures ToggledHistory(u).preferences.saveHistory == !u.preferences.saveHistory
    ensures ToggledHistory(u).id == u.id && ToggledHistory(u).name == u.name
    ensures ToggledHistory(u).email == u.email && ToggledHistory(u).language == u.language
    ensures ToggledHistory(ToggledHistory(u)) == u
  {
  }

  // ---------------------------------------------------------------- keywords

  /** Some keyword occurs in the lower-cased text. */
  predicate MentionsAny(text: string, keywords: seq<string>) {
    exists i :: 0 <= i < |keywords| && Contains(ToLower(text), keywords[i])
  }

  /** The emergency callback condition. */
  predicate IsEmergency(text: string) {
    MentionsAny(text, EMERGENCY_KEYWORDS)
  }

  /** The condition under which the device location is asked for. */
  predicate RequestsLocation(text: string) {
    MentionsAny(text, LOCATION_KEYWORDS)
  }

  /** The emergency check is the source's chain of three `includes` on the lower-cased text. */
  lemma IsEmergencySpec(text: string)
    ensures IsEmergency(text) <==>
              var lower := ToLower(text);
              Contains(lower, "suicide") || Contains(lower, "kill myself") || Contains(lower, "end it all")
  {
    var lower := ToLower(text);
    if Contains(lower, "suicide") { assert Contains(lower, EMERGENCY_KEYWORDS[0]); }
    if Contains(lower, "kill myself") { assert Contains(lower, EMERGENCY_KEYWORDS[1]); }
    if Contains(lower, "end it all") { assert Contains(lower, EMERGENCY_KEYWORDS[2]); }
  }

  /** Keyword checks ignore case: lower-casing the text first changes nothing. */
  lemma MentionsAnyIgnoresCase(text: string, keywords: seq<string>)
    ensures MentionsAny(ToLower(text), keywords) <==> MentionsAny(text, keywords)
  {
    ToLowerLaws(text, "");
  }

  /** A keyword anywhere triggers the check: text around it does not hide it. */
  lemma MentionsAnyExtend(text: string, more: string, keywords: seq<string>)
    requires MentionsAny(text, keywords)
    ensures MentionsAny(text + more, keywords) && MentionsAny(more + text, keywords)
  {
    var i :| 0 <= i < |keywords| && Contains(ToLower(text), keywords[i]);
    ToLowerLaws(text, more);
    ToLowerLaws(more, text);
    ContainsExtend(ToLower(text), ToLower(more), keywords[i]);
  }

  // ---------------------------------------------------------------- the wiki

  /** The fields of a wiki entry the lookup uses. */
  datatype WikiEntry = WikiEntry(id: string, caption: string, triggers: seq<string>)

  predicate TriggeredBy(e: WikiEntry, lowerText: string) {
    exists i :: 0 <= i < |e.triggers| && Contains(lowerText, ToLower(e.triggers[i]))
  }

  function WikiFilter(catalogue: seq<WikiEntry>, lowerText: string): seq<WikiEntry> {
    Seqs.Filter(catalogue, TriggeredIn(lowerText))
  }

  /** The filter's test: some trigger of the entry occurs in the text. */
  function TriggeredIn(lowerText: string): WikiEntry -> bool {
    (e: WikiEntry) => TriggeredBy(e, lowerText)
  }

  /** `findWikiMatches` over a catalogue. */
  function FindWikiMatches(catalogue: seq<WikiEntry>, text: string): seq<WikiEntry> {
    WikiFilter(catalogue, ToLower(text))
  }

  /** The matches are exactly the entries with a trigger in the text, ignoring case. */
  lemma WikiFilterMembers(catalogue: seq<WikiEntry>, lowerText: string)
    ensures forall e :: e in WikiFilter(catalogue, lowerText) <==> e in catalogue && TriggeredBy(e, lowerText)
  {
    Seqs.FilterMembers(catalogue, TriggeredIn(lowerText));
  }

  /** Matches come in catalogue order: filtering a catalogue in two parts gives the two
      filtered parts one after the other. */
  lemma WikiFilterConcat(a: seq<WikiEntry>, b: seq<WikiEntry>, lowerText: string)
    ensures WikiFilter(a + b, lowerText) == WikiFilter(a, lowerText) + WikiFilter(b, lowerText)
  {
    Seqs.FilterConcat(a, b, TriggeredIn(lowerText));
  }

  /** The lookup ignores the case of the text, and an entry matched by some text is still
      matched when the text goes on. */
  lemma FindWikiMatchesSpec(catalogue: seq<WikiEntry>, text: string, more: string)
    ensures forall e :: e in FindWikiMatches(catalogue, text) <==> e in catalogue && TriggeredBy(e, ToLower(text))
    ensures FindWikiMatches(catalogue, ToLower(text)) == FindWikiMatches(catalogue, text)
    ensures forall e :: e in FindWikiMatches(catalogue, text) ==> e in FindWikiMatches(catalogue, text + more)
  {
    ToLowerLaws(text, more);
    WikiFilterMembers(catalogue, ToLower(text));
    WikiFilterMembers(catalogue, ToLower(text + more));
    forall e | e in catalogue && TriggeredBy(e, ToLower(text)) ensures TriggeredBy(e, ToLower(text + more)) {
      var i :| 0 <= i < |e.triggers| && Contains(ToLower(text), ToLower(e.triggers[i]));
      ContainsExtend(ToLower(text), ToLower(more), ToLower(e.triggers[i]));
    }
  }

  /** `id.replace(/^bremi_?/i, '')`. */
  function StripBremiPrefix(id: string): string {
    if |id| >= 5 && ToLower(id[..5]) == "bremi" then (if |id| > 5 && id[5] == '_' then id[6..] else id[5..])
    else id
  }

  /** The label `openWikiById` asks the generator for: the link text, or else the id with the
      prefix dropped, underscores as spaces, whitespace runs collapsed and the ends trimmed. */
  function FallbackLabel(id: string, linkLabel: Option<string>): string {
    Or(linkLabel, Trim(CollapseSpaces(ReplaceChar(StripBremiPrefix(id), '_', ' '))))
  }

  /** `fallbackLabel || id`. */
  function GenerationLabel(id: string, linkLabel: Option<string>): string {
    Or(Some(FallbackLabel(id, linkLabel)), id)
  }

  /** An id already in label form: no whitespace, no underscore, no "bremi" prefix. */
  predicate PlainId(id: string) {
    && (forall i :: 0 <= i < |id| ==> !IsSpace(id[i]) && id[i] != '_')
    && !(|id| >= 5 && ToLower(id[..5]) == "bremi")
  }

  /** Trimming keeps what holds of every character and every pair of neighbours. */
  lemma TrimKeepsShape(c: string)
    requires '_' !in c
    requires forall i :: 0 <= i < |c| && IsSpace(c[i]) ==> c[i] == ' '
    requires forall i :: 0 <= i < |c| - 1 ==> !(IsSpace(c[i]) && IsSpace(c[i + 1]))
    ensures var l := Trim(c);
            && '_' !in l
            && (forall i :: 0 <= i < |l| && IsSpace(l[i]) ==> l[i] == ' ')
            && (forall i :: 0 <= i < |l| - 1 ==> !(IsSpace(l[i]) && IsSpace(l[i + 1])))
            && (l != "" ==> !IsSpace(l[0]) && !IsSpace(l[|l| - 1]))
  {
    TrimSpec(c);
    var a := LeadingSpaces(c);
    var b := |c| - TrailingSpaces(c[a..]);
    var l := Trim(c);
    assert forall i :: 0 <= i < |l| ==> l[i] == c[a + i];
  }

  /** After underscores become spaces, collapsing leaves none behind. */
  lemma UnderscoresGone(s: string)
    requires forall i :: 0 <= i < |s| ==> s[i] != '_'
    ensures '_' !in CollapseSpaces(s)
  {
    assert '_' !in s;
    assert !IsSpace('_');
    CollapseSpacesKeeps(s);
  }

  /** A plain id is its own label. */
  lemma PlainIdLabel(id: string)
    requires PlainId(id)
    ensures FallbackLabel(id, None) == id
  {
    assert StripBremiPrefix(id) == id;
    var s := ReplaceChar(id, '_', ' ');
    assert s == id by {
      assert forall i :: 0 <= i < |id| ==> s[i] == id[i];
    }
    CollapseSpacesKeeps(id);
    assert CollapseSpaces(id) == id;
    NoSpacesTrim(id);
  }

  /** A string without whitespace trims to itself. */
  lemma NoSpacesTrim(s: string)
    requires forall i :: 0 <= i < |s| ==> !IsSpace(s[i])
    ensures Trim(s) == s
  {
    assert LeadingSpaces(s) == 0;
    assert s[0..] == s;
    assert TrailingSpaces(s) == 0;
  }

  /** Without a link text, the label derived from an id has no underscore, uses only single
      plain spaces and none at its ends, and is the id itself for a plain id; the label given
      to the generator is never empty for a non-empty id. */
  lemma FallbackLabelSpec(id: string)
    ensures var l := FallbackLabel(id, None);
            && '_' !in l
            && (forall i :: 0 <= i < |l| && IsSpace(l[i]) ==> l[i] == ' ')
            && (forall i :: 0 <= i < |l| - 1 ==> !(IsSpace(l[i]) && IsSpace(l[i + 1])))
            && (l != "" ==> !IsSpace(l[0]) && !IsSpace(l[|l| - 1]))
            && (PlainId(id) ==> l == id)
    ensures id != "" ==> GenerationLabel(id, None) != ""
  {
    var s := ReplaceChar(StripBremiPrefix(id), '_', ' ');
    UnderscoresGone(s);
    TrimKeepsShape(CollapseSpaces(s));
    if PlainId(id) {
      PlainIdLabel(id);
    }
  }

  // ---------------------------------------------------------------- the component

  /** What a send hands to the Gemini service and to the caller: the list before the new
      message, the raw input, the attached image, and the two keyword checks. */
  datatype Outgoing = Outgoing(history: seq<Message>, text: string, image: Option<string>, emergency: bool, wantsLocation: bool)

  /** The persistence effect's change to the session manager, as UpdateSession defines it. */
  ghost predicate PersistEffect(before: seq<ChatSession>, beforeActive: Option<string>,
                                after: seq<ChatSession>, afterActive: Option<string>,
                                messages: seq<Message>, save: bool, now: nat)
  {
    if PersistsHistory(messages) && save && SessionContext.HasUserMessage(messages) then
      var id := SessionContext.ChosenId(beforeActive, now);
      after == SessionContext.Upsert(before, id, messages, now, SessionContext.Preview(messages)) && afterActive == Some(id)
    else after == before && afterActive == beforeActive
  }

  class ChatOrchestrator {
    var messages: seq<Message>
    var inputText: string
    var selectedImage: Option<string>
    var isLoading: bool
    const identity: UserContext.IdentityStore
    const sessions: SessionContext.SessionManager

    /** A signed-in user, both providers consistent, one store shared, and the session
      manager keyed by the signed-in user's id. */
    predicate Valid()
      reads this, identity, identity.store, sessions, sessions.store
    {
      && identity.store == sessions.store
      && identity.Valid() && sessions.Valid()
      && identity.user.Some?
      && sessions.userId == Some(identity.user.value.id)
    }

    function Profile(): UserProfile
      reads this, identity
      requires identity.user.Some?
    {
      identity.user.value
    }

    /** The first render: the list starts from the active session or the privacy notice.
      The effects that run after it are `Mount`. */
    constructor (identity: UserContext.IdentityStore, sessions: SessionContext.SessionManager, now: int)
      requires identity.store == sessions.store && identity.Valid() && sessions.Valid()
      requires identity.user.Some? && sessions.userId == Some(identity.user.value.id)
      ensures Valid()
      ensures this.identity == identity && this.sessions == sessions
      ensures messages == InitialMessages(sessions.ActiveSession(), Translations.PrivacyNotice(identity.user.value.language), now)
      ensures inputText == "" && selectedImage == None && !isLoading
    {
      this.identity := identity;
      this.sessions := sessions;
      messages := InitialMessages(sessions.ActiveSession(), Translations.PrivacyNotice(identity.user.value.language), now);
      inputText := "";
      selectedImage := None;
      isLoading := false;
    }

    /** The persistence effect: a list of more than one message goes to `updateSession`
      with the user's `saveHistory` flag. */
    method Persist(now: nat)
      requires Valid()
      modifies sessions, sessions.store
      ensures Valid()
      ensures sessions.userId == old(sessions.userId)
      ensures PersistEffect(old(sessions.sessions), old(sessions.activeId), sessions.sessions, sessions.activeId,
                            messages, Profile().preferences.saveHistory, now)
      ensures sessions.store.items == old(sessions.store.items)[sessions.Key() := SessionList(sessions.sessions)]
    {
      if PersistsHistory(messages) {
        var written, syncs := sessions.UpdateSession(messages, Profile().preferences.saveHistory, now);
      }
      UserContext.UserKeyIsNotASessionKey(sessions.userId);
    }

    /** The reset effect when the active session changes. */
    method ResetForSession(now: nat)
      requires Valid()
      modifies this, sessions, sessions.store
      ensures Valid()
      ensures messages == InitialMessages(old(sessions.ActiveSession()), Translations.PrivacyNotice(Profile().language), now)
      ensures inputText == old(inputText) && selectedImage == old(selectedImage) && isLoading == old(isLoading)
      ensures PersistEffect(old(sessions.sessions), old(sessions.activeId), sessions.sessions, sessions.activeId,
                            messages, Profile().preferences.saveHistory, now)
      ensures sessions.store.items == old(sessions.store.items)[sessions.Key() := SessionList(sessions.sessions)]
    {
      messages := InitialMessages(sessions.ActiveSession(), Translations.PrivacyNotice(Profile().language), now);
      Persist(now);
    }

    /** The effects of the first commit: the reset effect seeds the list it already holds,
      and the persistence effect then runs on it, so an active session of more than one
      message is upserted again with the new clock reading when saving is on. */
    method Mount(now: nat)
      requires Valid()
      modifies sessions, sessions.store
      ensures Valid()
      ensures messages == old(messages)
      ensures sessions.userId == old(sessions.userId)
      ensures PersistEffect(old(sessions.sessions), old(sessions.activeId), sessions.sessions, sessions.activeId,
                            messages, Profile().preferences.saveHistory, now)
      ensures sessions.store.items == old(sessions.store.items)[sessions.Key() := SessionList(sessions.sessions)]
    {
      Persist(now);
    }

    /** Typing into the input box. */
    method SetInput(text: string, image: Option<string>)
      modifies this
      ensures inputText == text && selectedImage == image
      ensures messages == old(messages) && isLoading == old(isLoading)
    {
      inputText := text;
      selectedImage := image;
    }

    /** `handleSend` up to the Gemini call, with the clock reading `now`: refused when the
      input is blank and no image is attached; otherwise the user message is appended, the
      input cleared, and what is to be sent is returned. */
    method Send(now: nat) returns (outgoing: Option<Outgoing>)
      requires Valid()
      modifies this, sessions, sessions.store
      ensures Valid()
      ensures SendRefused(old(inputText), old(selectedImage)) ==>
                outgoing.None? && unchanged(this) && unchanged(sessions) && unchanged(sessions.store)
      ensures !SendRefused(old(inputText), old(selectedImage)) ==>
                var image := if GeminiService.HasImage(old(selectedImage)) then old(selectedImage) else None;
                && messages == old(messages) + [Message(Decimal(now), User, old(inputText), now, None, None, image, None)]
                && outgoing == Some(Outgoing(old(messages), old(inputText), image,
                                             IsEmergency(old(inputText)), RequestsLocation(old(inputText))))
                && inputText == "" && selectedImage == None && isLoading
                && PersistEffect(old(sessions.sessions), old(sessions.activeId), sessions.sessions, sessions.activeId,
                                 messages, Profile().preferences.saveHistory, now)
      ensures sessions.store.items == old(sessions.store.items)[sessions.Key() := SessionList(sessions.sessions)]
    {
      if SendRefused(inputText, selectedImage) {
        return None;
      }
      var image := if GeminiService.HasImage(selectedImage) then selectedImage else None;
      var text := inputText;
      var history := messages;
      messages := messages + [Message(Decimal(now), User, text, now, None, None, image, None)];
      inputText := "";
      selectedImage := None;
      isLoading := true;
      outgoing := Some(Outgoing(history, text, image, IsEmergency(text), RequestsLocation(text)));
      Persist(now);
    }

    /** The rest of `handleSend`: one model-role message with the reply, or the apology when
      the call throws, is appended and loading stops. */
    method ReceiveReply(outcome: Result<GeminiService.Reply, string>, now: nat)
      requires Valid()
      modifies this, sessions, sessions.store
      ensures Valid()
      ensures |messages| == |old(messages)| + 1 && messages[..|old(messages)|] == old(messages)
      ensures messages[|old(messages)|].role == Model
      ensures outcome.Ok? ==>
                messages[|old(messages)|] ==
                Message(Decimal(now + 1), Model, outcome.value.text, now, None, outcome.value.groundingData, None, None)
      ensures outcome.Err? ==> messages[|old(messages)|] == PlainMessage(Decimal(now), Model, SEND_ERROR_TEXT, now)
      ensures !isLoading && inputText == old(inputText) && selectedImage == old(selectedImage)
      ensures PersistEffect(old(sessions.sessions), old(sessions.activeId), sessions.sessions, sessions.activeId,
                            messages, Profile().preferences.saveHistory, now)
      ensures sessions.store.items == old(sessions.store.items)[sessions.Key() := SessionList(sessions.sessions)]
    {
      var reply: Message;
      match outcome {
        case Ok(r) =>
          reply := Message(Decimal(now + 1), Model, r.text, now, None, r.groundingData, None, None);
        case Err(_) =>
          reply := PlainMessage(Decimal(now), Model, SEND_ERROR_TEXT, now);
      }
      messages := messages + [reply];
      assert messages[..|old(messages)|] == old(messages);
      isLoading := false;
      Persist(now);
    }

    /** `handleFeedback`. */
    method GiveFeedback(id: string, feedback: Feedback, now: nat)
      requires Valid()
      modifies this, sessions, sessions.store
      ensures Valid()
      ensures messages == SetFeedback(old(messages), id, feedback)
      ensures inputText == old(inputText) && selectedImage == old(selectedImage) && isLoading == old(isLoading)
      ensures PersistEffect(old(sessions.sessions), old(sessions.activeId), sessions.sessions, sessions.activeId,
                            messages, Profile().preferences.saveHistory, now)
      ensures sessions.store.items == old(sessions.store.items)[sessions.Key() := SessionList(sessions.sessions)]
    {
      messages := SetFeedback(messages, id, feedback);
      Persist(now);
    }

    /** `handleToggleHistory`: the user is replaced by a copy with `saveHistory` flipped, and
      the persistence effect runs again with the new flag. */
    method ToggleHistory(now: nat)
      requires Valid()
      modifies identity, identity.store, sessions
      ensures Valid()
      ensures Profile() == ToggledHistory(old(Profile()))
      ensures messages == old(messages)
      ensures PersistEffect(old(sessions.sessions), old(sessions.activeId), sessions.sessions, sessions.activeId,
                            messages, Profile().preferences.saveHistory, now)
      ensures sessions.store.items ==
              old(sessions.store.items)[UserContext.USER_KEY := UserRecord(Profile())][sessions.Key() := SessionList(sessions.sessions)]
    {
      var updated := ToggledHistory(Profile());
      UserContext.UserKeyIsNotASessionKey(sessions.userId);
      identity.UpdateUser(updated);
      Persist(now);
    }
  }
}
