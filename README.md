# Bremi.AI core, modelled in Dafny

Bremi.AI is a mental-wellness companion for Nigerian users. It is a React single-page app with a small Python analysis service. This project models its core:

- **Sessions.** The saved conversations of the signed-in user live in `SessionContext`. Each user has their own storage key. Each update to a conversation is an upsert and refreshes the preview. A title suggested by the backend is patched in afterwards. Deleting the conversation on screen falls back to the newest remaining one.
- **Identity.** `UserContext` loads, saves and clears the profile under `bremiAI_user`.
- **Legacy shell.** `App.tsx` still carries the older session handlers that the context replaced.
- **Chat screen.** `ChatInterface` covers:
  - the initial messages and the privacy notice;
  - the send guard;
  - the emergency and location keyword checks;
  - the user message and the model reply, or the error reply;
  - message feedback;
  - the history toggle;
  - the wiki trigger matching;
  - the label given to a generated wiki entry.
- **Model service.** `geminiService`:
  - splits a data-URI image into its MIME type and payload;
  - keeps the last ten turns of history;
  - picks the request shape with or without an image;
  - collects the web grounding links;
  - falls back to fixed replies on an empty answer or a failure;
  - builds the analysis transcript and the speech result.
- **Conversation list.** `ChatHistory` sorts newest first and chooses each row's label.
- **Guided tour.** `GuidedTour` is the four-step introduction.
- **Journal.** The journal of `Relaxation`:
  - its PIN is a SHA-256 digest in lower-case hex;
  - an unlock with attempts counted up to five;
  - a reset;
  - entries saved, edited, deleted and collapsed to 220 characters;
  - the Markdown toolbar: insert, bold, heading and bullet.
- **Follow-up service.** The Python service:
  - the scheduler that sends due follow-up e-mails;
  - `/sync-chat`, which records a follow-up plan;
  - `/pending-tasks`.

How things are represented:

- **Shared browser storage.** `localStorage` is one `Storage.KeyValueStore` object shared by every component. Its keys map to abstract blobs, so JSON is not serialised.
- **Stateful code.** Components and contexts that keep state are classes. Their methods change the fields and the store. Each method's `ensures` gives the new value of every field and store key it changes, and says that the other fields and keys keep their values.
- **Pure code.** Pure helpers are functions. Their lemmas tie them to independent statements of what they mean.
- **Clock.** The clock is a `now: nat` parameter. `Date.now().toString()` is `Strings.Decimal(now)`.
- **External services.** The Gemini API, the analysers of the Python service and the e-mail sender are results passed in as parameters.
- **Digest.** SHA-256 is a function parameter that yields 32 bytes, or fails, and is assumed injective where it succeeds. No function from all strings to 32 bytes is injective, so such a digest must fail on all but finitely many PINs. The "only if" half of `HashPinSpec` and `UnlockNeedsThePin` therefore rests on SHA-256's collision resistance, taken as an idealisation; it is not a property of SHA-256 itself.

## Model

| member | source | states |
|---|---|---|
| Types.LanguageCodes | types.ts:3 | the four language codes parse to exactly the four languages, and each language prints back as its code |
| Types.RoleNames | types.ts:17 | the three role names parse to exactly the three roles, and each role prints back as its name |
| Translations.WelcomeHasNoDollar | constants.tsx:120 | no greeting holds a `$`, so it cannot hold the `${user.name}` placeholder |
| Strings.TrimSpec | components/ChatInterface.tsx:151 | `trim()` is empty iff the string is all whitespace; otherwise it neither starts nor ends with whitespace, and it is the middle of the string |
| Strings.SplitJoin | services/geminiService.ts:43-44 | joining the pieces of `split(sep)` gives back the string, and no piece contains the separator |
| Strings.DecimalInjective | components/ChatInterface.tsx:154 | `Date.now().toString()` ids made at different times are different |
| Strings.LastIndexOfChar | components/Relaxation.tsx:386 | `lastIndexOf(c, from)` finds `c` at the result and nowhere after it up to `from`, with a negative `from` treated as 0 |
| SessionContext.SessionStorageKeyIsolates | contexts/SessionContext.tsx:30-36 | two users share a storage key iff they have the same id or are both signed out; every key starts with `bremiAI_sessions` |
| SessionContext.LastUserText | contexts/SessionContext.tsx:78 | it is absent iff no message has the user role; otherwise it is the text of the last user message |
| SessionContext.PreviewSpec | contexts/SessionContext.tsx:78-79 | the preview is at most 60 characters; it is "No message" without a user message, and otherwise it is the start of the last user text |
| SessionContext.FindIndex | contexts/SessionContext.tsx:146 | absent iff no session has the id; otherwise the first session with it |
| SessionContext.UpsertSpec | contexts/SessionContext.tsx:82-97 | an existing session is replaced in place with the new messages, time and preview, keeping its title; an unknown id is added at the front with no title; every other session is unchanged |
| SessionContext.SetTitleSpec | contexts/SessionContext.tsx:105-111 | only the session with the id gets the title; the order and every other field stay the same |
| SessionContext.RemoveSpec | contexts/SessionContext.tsx:124-127 | the survivors are exactly the sessions without the id, in order; nothing is removed when no session has the id |
| SessionContext.RemoveConcat | contexts/SessionContext.tsx:124-127 | filtering distributes over concatenation |
| SessionContext.FallbackSpec | contexts/SessionContext.tsx:131-139 | there is no fallback iff nothing remains; otherwise it is the id of the first session with the latest `lastUpdated` |
| SessionContext.FindAgrees | contexts/SessionContext.tsx:146 | lookup by id depends only on the sessions with that id |
| SessionContext.SessionManager.Mount | contexts/SessionContext.tsx:43-68 | on mount and on a change of user, the list is whatever is stored under the user's key (empty when the blob is missing or unparsable), nothing is selected, and the list is written back |
| SessionContext.SessionManager.UserChanged | contexts/SessionContext.tsx:43-62 | the same user changes nothing; another user reloads that user's list and clears the selection |
| SessionContext.SessionManager.UpdateSession | contexts/SessionContext.tsx:70-117 | nothing happens unless saving is on and a user message exists; otherwise the active id (or `Date.now()` when none) is upserted with a new preview, selected, persisted, and a backend sync is reported for signed-in users only |
| SessionContext.SessionManager.PatchTitle | contexts/SessionContext.tsx:105-111 | a non-empty suggested title is set on that session and persisted; otherwise the list is unchanged |
| SessionContext.SessionManager.SelectSession | contexts/SessionContext.tsx:119-121 | the id becomes the active one and the list is unchanged |
| SessionContext.SessionManager.DeleteSession | contexts/SessionContext.tsx:123-140 | the session is filtered out and the list is persisted; deleting the active session selects the fallback, and any other delete keeps the selection |
| SessionContext.SessionManager.NewChat | contexts/SessionContext.tsx:142-144 | the selection is cleared and the list is unchanged |
| SessionContext.SessionManager.ActiveSession | contexts/SessionContext.tsx:146 | a result is a stored session with the active id, and there is one whenever such a session exists |
| ChatHistory.SortNewestFirstSpec | components/ChatHistory.tsx:39 | the sorted list is ordered by `lastUpdated`, newest first, and is a permutation of the sessions |
| ChatHistory.InsertSpec | components/ChatHistory.tsx:39 | inserting into a sorted list keeps it sorted and adds exactly that session |
| ChatHistory.SortHead | components/ChatHistory.tsx:39 | the first row is the first session with the latest `lastUpdated` |
| ChatHistory.RowLabelSpec | components/ChatHistory.tsx:89 | the row shows the title when it is non-empty, else the preview when it is non-empty, else "..."; never an empty label |
| ChatHistory.ViewSpec | components/ChatHistory.tsx:59-97 | the empty-history screen is shown iff there are no sessions; otherwise one row per session, a permutation of them ordered newest first, each row selecting its session, deleting its id and showing its label |
| UserContext.ReadUserRoundTrip | contexts/UserContext.tsx:16-36 | a saved profile is read back as saved, and after a removal nothing is stored |
| UserContext.UserKeyIsNotASessionKey | contexts/UserContext.tsx:17 | the profile key is not a session key |
| UserContext.IdentityWritesKeepSessions | contexts/UserContext.tsx:25 | writing or removing the profile leaves every user's sessions in storage unchanged |
| UserContext.IdentityStore.Mount | contexts/UserContext.tsx:16-21 | a stored profile is loaded; a missing one keeps the current user; an unparsable one throws; the store is not written |
| UserContext.IdentityStore.Login | contexts/UserContext.tsx:23-26 | the user becomes the new profile and it is stored under `bremiAI_user` |
| UserContext.IdentityStore.Logout | contexts/UserContext.tsx:28-31 | the stored profile is removed and the user is cleared |
| UserContext.IdentityStore.UpdateUser | contexts/UserContext.tsx:33-36 | the user becomes the updated profile and it is stored |
| App.GatesDiffer | App.tsx:57 | the legacy gate (`length > 1`) and the context's gate (some user message) disagree both ways: a lone user message is saved only by the context, and a notice plus a model reply only by the legacy shell |
| App.LegacyUpsertSpec | App.tsx:65-81 | the legacy upsert replaces an existing session by a title-less one with the new messages, time and preview, or adds a new one at the front |
| App.LegacyDropsTitle | App.tsx:65-81 | a titled session loses its title under the legacy upsert and keeps it under the context's |
| App.InitialMessagesSpec | App.tsx:107-121 | the selected session's messages when it exists; else nothing without a user; else a single "welcome" model message with the greeting, unchanged because no greeting holds the placeholder |
| App.LegacyApp.constructor | App.tsx:15-19 | no user, the onboarding view, no emergency overlay, no sessions and none active |
| App.LegacyApp.Mount | App.tsx:22-32 | a stored profile is loaded and opens the chat view, and a stored legacy session list is loaded; an unparsable profile or list throws; the store is not written |
| App.LegacyApp.HandleLogin | App.tsx:34-38 | the user is stored and set, and the chat view opens |
| App.LegacyApp.HandleUpdateUser | App.tsx:40-43 | the user is stored and set, and nothing else changes |
| App.LegacyApp.HandleLogout | App.tsx:45-49 | the stored profile is removed, the user is cleared and onboarding is shown |
| App.LegacyApp.TriggerEmergency | App.tsx:51-53 | the emergency overlay is shown |
| App.LegacyApp.HandleSessionUpdate | App.tsx:56-83 | without saving or with one message or fewer nothing changes; otherwise the legacy upsert with a new preview, and the id is selected |
| App.LegacyApp.HandleSelectSession | App.tsx:85-88 | the session becomes active and the chat view opens |
| App.LegacyApp.HandleDeleteSession | App.tsx:90-100 | an unconfirmed delete changes nothing; a confirmed one filters the session out and clears the selection when it was active |
| App.LegacyApp.HandleNewChat | App.tsx:102-105 | the selection is cleared and the chat view opens |
| ChatInterface.InitialMessagesSpec | components/ChatInterface.tsx:25-38 | the active session's messages, or a single system message "privacy-notice" holding the notice in the user's language, which neither has a user message nor passes the history-warning length |
| ChatInterface.SendRefusedSpec | components/ChatInterface.tsx:151 | sending is refused iff the input is blank after trimming and no image is attached |
| ChatInterface.SetFeedbackSpec | components/ChatInterface.tsx:220-224 | only the messages with the id get the feedback, in their feedback field alone; the rest are unchanged, and applying it twice is the same as once |
| ChatInterface.ToggledHistorySpec | components/ChatInterface.tsx:128-137 | `saveHistory` flips and every other profile field is kept, so toggling twice restores the profile |
| ChatInterface.IsEmergencySpec | components/ChatInterface.tsx:167-170 | the emergency overlay opens iff the lower-cased input contains "suicide", "kill myself" or "end it all" |
| ChatInterface.MentionsAnyIgnoresCase | components/ChatInterface.tsx:167 | the keyword checks give the same answer for a text and its lower-cased form |
| ChatInterface.MentionsAnyExtend | components/ChatInterface.tsx:168 | a text that mentions a keyword still does after more text is added on either side |
| ChatInterface.WikiFilterMembers | components/ChatInterface.tsx:89-91 | the filter keeps exactly the entries with a trigger contained in the text |
| ChatInterface.WikiFilterConcat | components/ChatInterface.tsx:89-91 | the filter distributes over concatenation of catalogues |
| ChatInterface.FindWikiMatchesSpec | components/ChatInterface.tsx:87-92 | the matches are the catalogue entries with a trigger in the lower-cased text; the matching ignores case and survives extending the text |
| ChatInterface.FallbackLabelSpec | components/ChatInterface.tsx:110-118 | the derived label has no underscores, no doubled, leading or trailing whitespace; a plain id is its own label; a non-empty id never yields an empty generation label |
| ChatInterface.ChatOrchestrator.constructor | components/ChatInterface.tsx:25-48 | for a signed-in user whose sessions are loaded from the shared store, the messages start as the initial messages; the input is empty, no image is attached, and nothing is loading |
| ChatInterface.ChatOrchestrator.Mount | components/ChatInterface.tsx:43-74 | the effects of the first commit keep the messages and run the persistence effect on them, so a saved active session of more than one message is upserted again at the new time; only the session key of the store is written |
| ChatInterface.ChatOrchestrator.Persist | components/ChatInterface.tsx:70-74 | the message list is handed to `updateSession` with the user's save-history flag |
| ChatInterface.ChatOrchestrator.ResetForSession | components/ChatInterface.tsx:43-45 | the messages are reset to the initial messages of the active session and the persistence effect runs; only the session key of the store is written |
| ChatInterface.ChatOrchestrator.SetInput | components/ChatInterface.tsx:46-47 | the input box and the attached image take the new values; the messages and the loading flag are kept |
| ChatInterface.ChatOrchestrator.Send | components/ChatInterface.tsx:150-194 | a refused send changes nothing; otherwise the user message (id and time `now`, the input, the image) is appended, the input and image are cleared, loading starts, and the request carries the earlier messages, the emergency flag and the location-request flag; only the session key of the store is written |
| ChatInterface.ChatOrchestrator.ReceiveReply | components/ChatInterface.tsx:196-218 | exactly one model message is appended: the reply with id `now + 1`, or the fixed error text with id `now`; loading stops; only the session key of the store is written |
| ChatInterface.ChatOrchestrator.GiveFeedback | components/ChatInterface.tsx:220-224 | the messages become the feedback-updated list, which is then persisted; only the session key of the store is written |
| ChatInterface.ChatOrchestrator.ToggleHistory | components/ChatInterface.tsx:128-137 | the profile becomes the toggled profile and the messages are kept; the store changes only at the user key and the session key |
| GeminiService.PayloadSpec | services/geminiService.ts:43 | without "base64," the image is sent whole; with it, the payload is the text after the first marker up to the next marker or the end, and holds no marker |
| GeminiService.DataUriRoundTrip | services/geminiService.ts:43-44 | from `data:<mime>;base64,<payload>` the MIME type and the payload are recovered exactly |
| GeminiService.HistoryWindowSpec | services/geminiService.ts:80-83 | the history sent is the last ten messages, or all of them when there are fewer, each with its role and text |
| GeminiService.HistoryWindowSlides | services/geminiService.ts:80 | adding a message slides the window: it drops its oldest turn only when the window was full |
| GeminiService.RequestForSpec | services/geminiService.ts:30-101 | with an image, a one-shot request on the image model whose prompt is the input or the default image question; without one, a chat on the flash model with the history window, the search and maps tools and the location when given |
| GeminiService.WebLinksSpec | services/geminiService.ts:104-116 | every link is the title and URI of a web chunk, every web chunk yields its link, there are never more links than chunks, and there are none when no chunk is a web chunk |
| GeminiService.WebLinksConcat | services/geminiService.ts:107-115 | links are collected chunk by chunk: the links of two runs of chunks are those of the first followed by those of the second, so they keep chunk order |
| GeminiService.CollectGroundingLinks | services/geminiService.ts:104-116 | the loop collects exactly the web links |
| GeminiService.ReplyForSpec | services/geminiService.ts:103-123 | a reply is never empty: a failure gives the network fallback, and an empty answer gives "I dey hear you. Tell me more." |
| GeminiService.SendMessageToGemini | services/geminiService.ts:21-124 | the request and the reply are the ones the two specifications give |
| GeminiService.RoleLabel | services/geminiService.ts:159 | the role tag is the upper-cased role name and holds no newline |
| GeminiService.TextOnlySpec | services/geminiService.ts:158 | the transcript keeps exactly the messages without an image |
| GeminiService.TranscriptLines | services/geminiService.ts:157-160 | the transcript splits on newlines into one `ROLE: text` line per kept message |
| GeminiService.SpeechResultSpec | services/geminiService.ts:126-150 | speech yields audio only when the call succeeds with non-empty data, and null in every other case |
| GuidedTour.StepSpec | components/GuidedTour.tsx:33-56 | a press keeps the index within the four steps; when it moves, it reports the new index if a listener is present; when it stays, it reports nothing; it finishes iff it is Skip or Next on the last step |
| GuidedTour.RunBounded | components/GuidedTour.tsx:29-56 | no sequence of presses leaves steps 0..3 |
| GuidedTour.NextBackInverse | components/GuidedTour.tsx:33-52 | Back undoes Next before the last step, and Next undoes Back after the first |
| GuidedTour.FourNextsFinish | components/GuidedTour.tsx:31-43 | three Nexts reach the last step from anywhere, and a fourth finishes |
| GuidedTour.Tour.constructor | components/GuidedTour.tsx:29 | the tour starts at step 0 and reports it once when a listener is present |
| GuidedTour.Tour.Next | components/GuidedTour.tsx:33-43 | the index and the callbacks are those of the Next transition |
| GuidedTour.Tour.Back | components/GuidedTour.tsx:45-52 | the index and the callbacks are those of the Back transition |
| GuidedTour.Tour.Skip | components/GuidedTour.tsx:54-56 | the tour finishes and the index stays |
| Relaxation.Hex | components/Relaxation.tsx:23-24 | the hex string has two lower-case hex digits per byte |
| Relaxation.HexRoundTrip | components/Relaxation.tsx:23-24 | parsing the hex string gives back the bytes |
| Relaxation.HexInjective | components/Relaxation.tsx:23-24 | two byte strings have the same hex iff they are equal |
| Relaxation.HashPinSpec | components/Relaxation.tsx:19-25 | a PIN hash is 64 hex characters, and another PIN has the same hash iff it is the same PIN |
| Relaxation.UnlockNeedsThePin | components/Relaxation.tsx:300-303 | a typed PIN matches the stored hash iff it is the PIN that was set |
| Relaxation.RemoveEntrySpec | components/Relaxation.tsx:899 | the kept entries are exactly those without the id, in order |
| Relaxation.EditEntrySpec | components/Relaxation.tsx:947-949 | only the entry with the id gets the new text; ids, dates, order and other entries are unchanged |
| Relaxation.JournalKeysDistinct | components/Relaxation.tsx:9-10 | writing the entries leaves the stored PIN alone, and writing the PIN leaves the entries alone |
| Relaxation.Journal.constructor | components/Relaxation.tsx:51-62 | the journal starts locked, with no PIN, no entries, no attempts, no error and nothing being edited |
| Relaxation.Journal.Mount | components/Relaxation.tsx:69-82 | a stored PIN hash and stored entries are loaded when present and readable; every other field keeps its value |
| Relaxation.Journal.SaveEntry | components/Relaxation.tsx:251-267 | a blank draft changes nothing; otherwise the trimmed text is added at the front with id `now`, the draft is cleared, and the list is persisted; every other field keeps its value |
| Relaxation.Journal.SetPin | components/Relaxation.tsx:269-290 | a PIN shorter than four characters or unconfirmed is refused with its error, keeping the PIN fields; otherwise its hash is stored, the journal unlocks, and the two PIN fields clear; a hashing failure reports an error; attempts, drafts, entries and expanded flags are kept |
| Relaxation.Journal.Unlock | components/Relaxation.tsx:292-319 | without a PIN it unlocks; a matching PIN unlocks, clears the typed PIN and resets the attempts; a wrong one counts an attempt and says "too many" iff the reset button is then offered (five attempts reached); a hashing failure leaves it locked; the typed PIN is kept unless it matched, and the other fields are kept |
| Relaxation.Journal.Reset | components/Relaxation.tsx:321-338 | both journal keys are removed and the journal returns to no PIN, no entries, locked and zero attempts, so the reset button is no longer offered |
| Relaxation.Journal.SetNewText | components/Relaxation.tsx:54 | typing into the editor sets the draft; every other field keeps its value |
| Relaxation.Journal.SetPinFields | components/Relaxation.tsx:56-58 | typing into the PIN boxes sets the new PIN, its confirmation and the typed PIN; every other field keeps its value |
| Relaxation.Journal.SetEditingText | components/Relaxation.tsx:925-929 | typing into the edit box sets its draft; every other field keeps its value |
| Relaxation.Journal.ToggleExpanded | components/Relaxation.tsx:1035-1039 | the entry's expanded flag flips; every other field keeps its value |
| Relaxation.Journal.DeleteEntry | components/Relaxation.tsx:898-918 | the entry is removed and the list is persisted; its expanded flag goes; an edit of it is cancelled; the drafts, PIN fields, error and attempts are kept |
| Relaxation.Journal.StartEdit | components/Relaxation.tsx:1048-1051 | the entry is being edited, with its text as the draft; every other field keeps its value |
| Relaxation.Journal.CancelEdit | components/Relaxation.tsx:934-937 | nothing is being edited and the draft is empty; every other field keeps its value |
| Relaxation.Journal.SaveEdit | components/Relaxation.tsx:944-961 | a blank draft changes nothing; otherwise the entry gets the trimmed text, the list is persisted and editing ends; every other field keeps its value |
| Relaxation.GuideSpeechTextSpec | components/Relaxation.tsx:180 | the text spoken is the first 800 characters, or all of it when shorter |
| Relaxation.DisplayTextSpec | components/Relaxation.tsx:971-977 | an expanded or short entry is shown whole; a longer one shows its first 220 characters and "…" |
| Relaxation.InsertAtCursorSpec | components/Relaxation.tsx:340-360 | without a textarea the snippet is appended; otherwise it replaces the selection and the caret lands after it |
| Relaxation.ApplyBoldSpec | components/Relaxation.tsx:362-379 | an empty selection changes nothing; otherwise it is wrapped in `**` and the caret lands after the closing marks |
| Relaxation.LineStartAgrees | components/Relaxation.tsx:386 | the written `lastIndexOf(..., pos - 1) + 1` and the line start agree except when the caret is at 0 and the text starts with a newline |
| Relaxation.LineStartAsWrittenPastCaret | components/Relaxation.tsx:386 | on "\nabc" with the caret at 0 the written expression gives 1, past the caret; the line start is 0 |
| Relaxation.LineStartSpec | components/Relaxation.tsx:386 | the line start is at most the caret, no newline lies between them, and it is 0 or follows a newline |
| Relaxation.LineStartUnique | components/Relaxation.tsx:386 | any position with those three properties is the line start |
| Relaxation.ApplyHeadingSpec | components/Relaxation.tsx:381-398 | `# ` or `## ` is put at the written line start `lastIndexOf('\n', pos - 1) + 1`, which is 0 or follows a newline; the rest of the text is kept, and the caret moves by the prefix |
| Relaxation.IntendedApplyHeadingSpec | components/Relaxation.tsx:381-398 | the intended heading puts its prefix at the start of the caret's line (at or before the caret, no newline between), keeps the rest of the text and moves the caret by the prefix |
| Relaxation.EditorAgrees | components/Relaxation.tsx:386-405 | the written heading and bullet equal the intended ones iff the caret is not at 0 in a text that begins with a newline |
| Relaxation.ApplyHeadingPastCaret | components/Relaxation.tsx:386 | on "\nabc" with the caret at 0 the written heading gives "\n# abc", the intended one "# \nabc" |
| Relaxation.ApplyBulletSpec | components/Relaxation.tsx:400-417 | the text from the written line start then starts with `- `, added only when it was not there; the text before it is kept, the caret moves by what was added, and a second bullet at the new caret changes nothing |
| Relaxation.IntendedApplyBulletSpec | components/Relaxation.tsx:400-417 | after the intended bullet the caret's line starts with `- `, the text before the line is kept, and a second bullet at the new caret changes nothing |
| FollowUpService.ProcessedSpec | analysis_service/main.py:49-78 | each due pending record becomes sent, failed or failed-no-email by its address and the sender's answer; every other record is unchanged |
| FollowUpService.AttemptedSpec | analysis_service/main.py:54-71 | an address is e-mailed iff it belongs to a due pending record with a non-empty address |
| FollowUpService.PendingTasksSpec | analysis_service/main.py:165-167 | the pending tasks are exactly the records with pending status |
| FollowUpService.NothingDueAfterRun | analysis_service/main.py:42-88 | after a run, no pending record is due |
| FollowUpService.SyncResultSpec | analysis_service/main.py:101-163 | the response holds the risk assessment iff it has no risk error; a failed plan is reported as the follow-up error; a follow-up is reported as scheduled iff exactly one pending record is added, at that record's time; a title appears only for two or more turns |
| FollowUpService.AsDeclaredNeverSchedules | analysis_service/main.py:135-143 | with the declared table, a plan asking for a follow-up records nothing and reports the invalid-keyword error |
| FollowUpService.AsDeclaredNeverSends | analysis_service/main.py:58 | with the declared table, any due record makes the scheduler abort |
| FollowUpService.WithEmailSchedulesAndSends | analysis_service/database.py:12-22 | with an e-mail column, the plan adds one pending record for the user and address, and a run once its delay has passed does not abort, settles the record by the sender's answer and e-mails a non-empty address |
| FollowUpService.FollowUpDb.CheckForDueFollowUps | analysis_service/main.py:42-88 | an aborted run commits nothing and sends nothing; otherwise the records become the processed records and the e-mails go to the attempted addresses |
| FollowUpService.FollowUpDb.SyncChat | analysis_service/main.py:101-163 | the response is the sync result, and the new records are appended |

## Left out

- **Side effects with no state.** Audio, speech playback and the breathing timer are left out. So are geolocation reads, scrolling, file reading and console or log-file writes. Only the request for a location is kept, as the `wantsLocation` flag of a send.
- **Not modelled.** `handleAnalyze`, `handleSpeak`, `generateWikiEntry` and the static and dynamic wiki caches of `openWikiById` are left out. Only the label is modelled.
- **Guide texts.** The literal guide texts of `getGuideText` are not modelled. Only the 800-character cap on speech is.
- **Platform services.** JSON, `localStorage` failures, `crypto.subtle` and `Date` formatting are abstract. A blob that is not what its key expects reads as unparsable. A PIN value of another shape is ignored.
- **Strings.** Strings are sequences of characters. UTF-16 code units and Unicode case mapping beyond ASCII are not modelled.
- **Concurrency.** React render timing, effects racing one another, and two awaits interleaving are not modelled. Each handler runs to completion before the next one starts. Asynchronous results arrive in order as parameters.
- **Clock.** One clock reading stands for the two `Date.now()` calls of one handler. The reply of a send is delivered in a separate call.
- **Send errors.** The `catch` branch of `handleSend` can be reached only when the service throws. It catches its own errors, so it does not. `ReceiveReply` still models that branch.
- SessionContext.SessionManager.UserChanged: the persist effect (contexts/SessionContext.tsx:64-68) runs in the same commit as the reload (43-62), with the previous user's list, and briefly writes it under the new key. That transient write is not modelled.
- App.LegacyApp.HandleSessionUpdate: this handler is passed to the chat screen, which no longer reads it. It is modelled as written. The same holds for `App.InitialMessages`.
- **Follow-up service.** Record ids are not modelled. The `created_at` default is the request's clock reading. The status string column is a datatype. Datetimes are integer seconds. The risk, plan and title analysers are results passed in as parameters.
- **WhatsApp.** The WhatsApp simulation of the analysis service is not part of this model.

## Findings

| source | as written | input that shows it | evidently intended | confidence | as-written member | corrected member |
|---|---|---|---|---|---|---|
| analysis_service/database.py:12-22 | the `ScheduledFollowUp` table has no `user_email` column, yet `/sync-chat` passes `user_email=` to its constructor and the scheduler reads `item.user_email` | any follow-up plan with `needs_followup`; any due pending record | the table stores the address, so follow-ups are recorded and e-mailed | not executed | FollowUpService.AsDeclaredNeverSchedules | FollowUpService.WithEmailSchedulesAndSends |
| components/Relaxation.tsx:386 | the line start is `text.lastIndexOf('\n', pos - 1) + 1`; with `pos = 0` the negative start is clamped to 0, so a newline at index 0 is found (the same expression is at line 405) | text "\nabc", caret at 0: line start 1, past the caret | the start of the caret's line, 0 here | not executed | Relaxation.ApplyHeadingPastCaret | Relaxation.IntendedApplyHeadingSpec |
