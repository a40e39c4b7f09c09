/**
  * components/Relaxation.tsx, its journal: a PIN-gated list of private notes kept in the
  * browser's key-value store, the formatting helpers of its editor, and the two length caps
  * (guide text sent to speech, entry text shown collapsed).
  *
  * The PIN is stored only as a digest: SHA-256 of the PIN rendered as lower-case hex. The
  * digest itself is a parameter of the journal (`digest`), an injective function to 32-byte
  * strings that may also fail (as `crypto.subtle.digest` throws where it is unavailable);
  * only the hex rendering is modelled here.
  */
module Relaxation {
  import opened Wrappers
  import opened Strings
  import opened Types
  import opened Storage
  import Seqs

  const JOURNAL_PIN_KEY: string := "bremi_journal_pin_v1"
  const JOURNAL_DATA_KEY: string := "bremi_journal_entries_v1"
  const MAX_PIN_ATTEMPTS: nat := 5
  const MIN_PIN_LENGTH: nat := 4
  const GUIDE_SPEECH_LIMIT: nat := 800
  const DISPLAY_LIMIT: nat := 220
  const ELLIPSIS: string := "…"
  const DIGEST_LENGTH: nat := 32

  newtype byte = x: int | 0 <= x < 256

  // ---------------------------------------------------------------- the PIN digest

  /** One hex digit, lower case, as `Number.prototype.toString(16)` writes it. */
  function HexDigit(d: nat): (c: char)
    requires d < 16
    ensures '0' <= c <= '9' || 'a' <= c <= 'f'
  {
    if d < 10 then ('0' as int + d) as char else ('a' as int + (d - 10)) as char
  }

  /** The value of a lower-case hex digit, if `c` is one. */
  function HexValue(c: char): (r: Option<nat>)
    ensures r.Some? ==> r.value < 16
  {
    if '0' <= c <= '9' then Some(c as int - '0' as int)
    else if 'a' <= c <= 'f' then Some(c as int - 'a' as int + 10)
    else None
  }

  lemma HexDigitValue(d: nat)
    requires d < 16
    ensures HexValue(HexDigit(d)) == Some(d)
  {
  }

  /** `b.toString(16).padStart(2, '0')`. */
  function HexByte(b: byte): string {
    [HexDigit(b as int / 16), HexDigit(b as int % 16)]
  }

  /** `hashArray.map(b => b.toString(16).padStart(2, '0')).join('')`. */
  function Hex(bytes: seq<byte>): (r: string)
    ensures |r| == 2 * |bytes|
    ensures forall i :: 0 <= i < |r| ==> '0' <= r[i] <= '9' || 'a' <= r[i] <= 'f'
  {
    if bytes == [] then "" else HexByte(bytes[0]) + Hex(bytes[1..])
  }

  /** Reads two hex digits per byte; fails on an odd length or a non-digit. */
  function ParseHex(s: string): (r: Option<seq<byte>>)
    ensures r.Some? ==> 2 * |r.value| == |s|
    decreases |s|
  {
    if s == [] then Some([])
    else if |s| == 1 then None
    else
      var hi, lo := HexValue(s[0]), HexValue(s[1]);
      if hi.None? || lo.None? then None
      else
        match ParseHex(s[2..])
        case None => None
        case Some(rest) => Some([(hi.value * 16 + lo.value) as byte] + rest)
  }

  /** The hex rendering loses nothing: reading it back gives the digest. */
  lemma {:induction false} HexRoundTrip(bytes: seq<byte>)
    ensures ParseHex(Hex(bytes)) == Some(bytes)
  {
    if bytes != [] {
      var b := bytes[0];
      var s := Hex(bytes);
      HexRoundTrip(bytes[1..]);
      assert s[..2] == HexByte(b) && s[2..] == Hex(bytes[1..]);
      HexDigitValue(b as int / 16);
      HexDigitValue(b as int % 16);
      assert [b] + bytes[1..] == bytes;
    }
  }

  /** Distinct digests render to distinct strings. */
  lemma HexInjective(a: seq<byte>, b: seq<byte>)
    ensures Hex(a) == Hex(b) <==> a == b
  {
    HexRoundTrip(a);
    HexRoundTrip(b);
  }

  /** What is assumed of the digest: when it succeeds it gives 32 bytes, and no two PINs
      share a digest. */
  ghost predicate DigestLaws(digest: string -> Option<seq<byte>>) {
    && (forall p :: digest(p).Some? ==> |digest(p).value| == DIGEST_LENGTH)
    && (forall p, q :: digest(p).Some? && digest(q).Some? && digest(p).value == digest(q).value ==> p == q)
  }

  /** `hashPin`: the hex of the digest, or None where the digest throws. */
  function HashPin(digest: string -> Option<seq<byte>>, pin: string): Option<string> {
    if digest(pin).Some? then Some(Hex(digest(pin).value)) else None
  }

  /** Under the digest laws a stored hash is never empty, and the hash of a PIN matches the
      hash of another PIN exactly when the two PINs are equal. */
  lemma HashPinSpec(digest: string -> Option<seq<byte>>, pin: string, other: string)
    requires DigestLaws(digest)
    ensures HashPin(digest, pin).Some? ==> |HashPin(digest, pin).value| == 2 * DIGEST_LENGTH
    ensures HashPin(digest, pin).Some? ==> (HashPin(digest, other) == HashPin(digest, pin) <==> other == pin)
  {
    if digest(pin).Some? && digest(other).Some? {
      HexInjective(digest(pin).value, digest(other).value);
    }
  }

  // ---------------------------------------------------------------- entry lists

  /** `journalEntries.filter(e => e.id !== id)`. */
  function RemoveEntry(entries: seq<JournalEntry>, id: string): seq<JournalEntry> {
    Seqs.Filter(entries, OtherEntry(id))
  }

  /** The filter's test: the entry has another id. */
  function OtherEntry(id: string): JournalEntry -> bool {
    (e: JournalEntry) => e.id != id
  }

  /** Deleting keeps exactly the entries with another id, in their order, and changes
      nothing when no entry has the id. */
  lemma RemoveEntrySpec(entries: seq<JournalEntry>, id: string)
    ensures forall e :: e in RemoveEntry(entries, id) <==> e in entries && e.id != id
    ensures |RemoveEntry(entries, id)| <= |entries|
    ensures (forall i :: 0 <= i < |entries| ==> entries[i].id != id) ==> RemoveEntry(entries, id) == entries
  {
    Seqs.FilterMembers(entries, OtherEntry(id));
  }

  /** `journalEntries.map(e => e.id === id ? { ...e, text } : e)`. */
  function EditEntry(entries: seq<JournalEntry>, id: string, text: string): seq<JournalEntry> {
    seq(|entries|, i requires 0 <= i < |entries| => if entries[i].id == id then entries[i].(text := text) else entries[i])
  }

  /** Editing keeps the length, the order, every id and every creation time, and changes
      only the text of the entries with that id. */
  lemma EditEntrySpec(entries: seq<JournalEntry>, id: string, text: string)
    ensures var r := EditEntry(entries, id, text);
            && |r| == |entries|
            && (forall i :: 0 <= i < |r| ==> r[i].id == entries[i].id && r[i].createdAt == entries[i].createdAt)
            && (forall i :: 0 <= i < |r| ==> r[i].text == if entries[i].id == id then text else entries[i].text)
  {
  }

  /** Some entry carries the id. */
  predicate HasEntry(entries: seq<JournalEntry>, id: string) {
    exists i :: 0 <= i < |entries| && entries[i].id == id
  }

  /** The stored digest, when the PIN key holds a non-empty string. */
  function StoredPin(items: map<string, Blob>): Option<string> {
    if JOURNAL_PIN_KEY in items && items[JOURNAL_PIN_KEY].Text? && items[JOURNAL_PIN_KEY].text != "" then
      Some(items[JOURNAL_PIN_KEY].text)
    else None
  }

  /** The stored entry list, when the data key holds one that parses. */
  function StoredEntries(items: map<string, Blob>): Option<seq<JournalEntry>> {
    if JOURNAL_DATA_KEY in items && items[JOURNAL_DATA_KEY].EntryList? then Some(items[JOURNAL_DATA_KEY].entries)
    else None
  }

  /** The two journal keys are distinct, so writing one never disturbs the other. */
  lemma JournalKeysDistinct(items: map<string, Blob>, b: Blob)
    ensures JOURNAL_PIN_KEY != JOURNAL_DATA_KEY
    ensures StoredPin(items[JOURNAL_DATA_KEY := b]) == StoredPin(items)
    ensures StoredEntries(items[JOURNAL_PIN_KEY := b]) == StoredEntries(items)
  {
    assert JOURNAL_PIN_KEY[14] == 'p' && JOURNAL_DATA_KEY[14] == 'e';
  }

  // ---------------------------------------------------------------- the journal

  /** The messages the PIN handlers show. */
  datatype JournalError = PinTooShort | PinMismatch | SetPinFailed | TooManyAttempts | IncorrectPin | VerifyFailed

  class Journal {
    var pinHash: Option<string>
    var unlocked: bool
    var entries: seq<JournalEntry>
    var newText: string
    var error: Option<JournalError>
    var newPin: string
    var confirmPin: string
    var pinInput: string
    var expanded: set<string>
    var editingId: Option<string>
    var editingText: string
    var attempts: nat
    const store: KeyValueStore
    const digest: string -> Option<seq<byte>>

    /** A stored digest is never empty (so a set PIN is always asked for), and the entry
      being edited is one of the entries. */
    ghost predicate Valid()
      reads this
    {
      && DigestLaws(digest)
      && (pinHash.Some? ==> pinHash.value != "")
      && (editingId.Some? ==> HasEntry(entries, editingId.value))
    }

    /** The component's initial state. */
    constructor (store: KeyValueStore, digest: string -> Option<seq<byte>>)
      requires DigestLaws(digest)
      ensures Valid()
      ensures this.store == store && this.digest == digest
      ensures pinHash == None && !unlocked && entries == [] && attempts == 0
      ensures newText == "" && error == None && newPin == "" && confirmPin == "" && pinInput == ""
      ensures expanded == {} && editingId == None && editingText == ""
    {
      this.store := store;
      this.digest := digest;
      pinHash := None;
      unlocked := false;
      entries := [];
      newText := "";
      error := None;
      newPin := "";
      confirmPin := "";
      pinInput := "";
      expanded := {};
      editingId := None;
      editingText := "";
      attempts := 0;
    }

    /** The mount effect: adopt a stored digest, then a stored entry list; a list that does
      not parse is ignored and the entries stay as they were. */
    method Mount()
      requires Valid() && editingId == None
      modifies this
      ensures Valid()
      ensures pinHash == (if StoredPin(store.items).Some? then StoredPin(store.items) else old(pinHash))
      ensures entries == (if StoredEntries(store.items).Some? then StoredEntries(store.items).value else old(entries))
      ensures unlocked == old(unlocked) && attempts == old(attempts) && editingId == None
      ensures newText == old(newText) && error == old(error) && newPin == old(newPin) && confirmPin == old(confirmPin)
      ensures pinInput == old(pinInput) && expanded == old(expanded) && editingText == old(editingText)
    {
      var pin := StoredPin(store.items);
      if pin.Some? {
        pinHash := pin;
      }
      var stored := StoredEntries(store.items);
      if stored.Some? {
        entries := stored.value;
      }
    }

    /** Typing into the editor. */
    method SetNewText(text: string)
      modifies this
      ensures newText == text
      ensures entries == old(entries) && pinHash == old(pinHash) && unlocked == old(unlocked)
      ensures attempts == old(attempts) && editingId == old(editingId)
      ensures error == old(error) && newPin == old(newPin) && confirmPin == old(confirmPin)
      ensures pinInput == old(pinInput) && expanded == old(expanded) && editingText == old(editingText)
    {
      newText := text;
    }

    /** Typing into the PIN fields. */
    method SetPinFields(pin: string, confirm: string, input: string)
      modifies this
      ensures newPin == pin && confirmPin == confirm && pinInput == input
      ensures entries == old(entries) && pinHash == old(pinHash) && unlocked == old(unlocked)
      ensures attempts == old(attempts) && editingId == old(editingId)
      ensures newText == old(newText) && error == old(error) && expanded == old(expanded) && editingText == old(editingText)
    {
      newPin := pin;
      confirmPin := confirm;
      pinInput := input;
    }

    /** `handleSaveJournalEntry` with the clock reading `now` and its ISO rendering: a blank
      text saves nothing; otherwise one entry with the trimmed text is put first and the whole
      list is written. */
    method SaveEntry(now: nat, isoNow: string)
      requires Valid()
      modifies this, store
      ensures Valid()
      ensures Trim(old(newText)) == "" ==> unchanged(this) && store.items == old(store.items)
      ensures Trim(old(newText)) != "" ==>
                && entries == [JournalEntry(Decimal(now), isoNow, Trim(old(newText)))] + old(entries)
                && newText == ""
                && store.items == old(store.items)[JOURNAL_DATA_KEY := EntryList(entries)]
      ensures pinHash == old(pinHash) && unlocked == old(unlocked) && attempts == old(attempts)
      ensures editingId == old(editingId)
      ensures error == old(error) && newPin == old(newPin) && confirmPin == old(confirmPin)
      ensures pinInput == old(pinInput) && expanded == old(expanded) && editingText == old(editingText)
    {
      var text := Trim(newText);
      if text == "" {
        return;
      }
      var entry := JournalEntry(Decimal(now), isoNow, text);
      entries := [entry] + entries;
      if editingId.Some? {
        ghost var k :| 0 <= k < |old(entries)| && old(entries)[k].id == editingId.value;
        assert entries[k + 1].id == editingId.value;
      }
      newText := "";
      store.SetItem(JOURNAL_DATA_KEY, EntryList(entries));
    }

    /** `handleSetPin`: a PIN shorter than four characters or different from its confirmation
      is refused with a message; otherwise only its digest is kept and written, and the
      journal unlocks. */
    method SetPin()
      requires Valid()
      modifies this, store
      ensures Valid()
      ensures |old(newPin)| < MIN_PIN_LENGTH ==>
                error == Some(PinTooShort) && pinHash == old(pinHash) && store.items == old(store.items)
      ensures |old(newPin)| >= MIN_PIN_LENGTH && old(newPin) != old(confirmPin) ==>
                error == Some(PinMismatch) && pinHash == old(pinHash) && store.items == old(store.items)
      ensures |old(newPin)| >= MIN_PIN_LENGTH && old(newPin) == old(confirmPin) ==>
                match HashPin(digest, old(newPin))
                case None => error == Some(SetPinFailed) && pinHash == old(pinHash) && store.items == old(store.items)
                case Some(h) =>
                  && error == None && pinHash == Some(h) && unlocked
                  && newPin == "" && confirmPin == ""
                  && store.items == old(store.items)[JOURNAL_PIN_KEY := Text(h)]
      ensures !(|old(newPin)| >= MIN_PIN_LENGTH && old(newPin) == old(confirmPin) && HashPin(digest, old(newPin)).Some?) ==>
                unlocked == old(unlocked)
      ensures entries == old(entries) && attempts == old(attempts) && editingId == old(editingId)
      ensures newText == old(newText) && pinInput == old(pinInput) && expanded == old(expanded) && editingText == old(editingText)
      ensures !(|old(newPin)| >= MIN_PIN_LENGTH && old(newPin) == old(confirmPin) && HashPin(digest, old(newPin)).Some?) ==>
                newPin == old(newPin) && confirmPin == old(confirmPin)
    {
      error := None;
      if newPin == "" || |newPin| < MIN_PIN_LENGTH {
        error := Some(PinTooShort);
        return;
      }
      if newPin != confirmPin {
        error := Some(PinMismatch);
        return;
      }
      var hash := HashPin(digest, newPin);
      if hash.None? {
        error := Some(SetPinFailed);
        return;
      }
      HashPinSpec(digest, newPin, newPin);
      pinHash := hash;
      unlocked := true;
      newPin := "";
      confirmPin := "";
      store.SetItem(JOURNAL_PIN_KEY, Text(hash.value));
    }

    /** `handleUnlockJournal`: with no PIN set the journal opens at once; otherwise it opens
      exactly when the digest of the typed PIN is the stored one, and each mismatch counts one
      more failed attempt, the fifth and later ones with the "too many attempts" message. */
    method Unlock()
      requires Valid()
      modifies this
      ensures Valid()
      ensures pinHash.None? ==> unlocked && attempts == 0 && error == None
      ensures pinHash.Some? ==>
                match HashPin(digest, old(pinInput))
                case None => error == Some(VerifyFailed) && unlocked == old(unlocked) && attempts == old(attempts)
                case Some(h) =>
                  if h == pinHash.value then unlocked && attempts == 0 && pinInput == "" && error == None
                  else
                    && unlocked == old(unlocked) && attempts == old(attempts) + 1
                    && error == Some(if attempts >= MAX_PIN_ATTEMPTS then TooManyAttempts else IncorrectPin)
      ensures pinHash == old(pinHash) && entries == old(entries) && editingId == old(editingId)
      ensures newText == old(newText) && newPin == old(newPin) && confirmPin == old(confirmPin)
      ensures expanded == old(expanded) && editingText == old(editingText)
      ensures !(pinHash.Some? && HashPin(digest, old(pinInput)) == Some(pinHash.value)) ==> pinInput == old(pinInput)
      ensures error == Some(TooManyAttempts) <==> attempts == old(attempts) + 1 && ResetOffered()
    {
      error := None;
      if pinHash.None? {
        unlocked := true;
        attempts := 0;
        return;
      }
      var hash := HashPin(digest, pinInput);
      if hash.None? {
        error := Some(VerifyFailed);
        return;
      }
      if hash.value == pinHash.value {
        unlocked := true;
        pinInput := "";
        attempts := 0;
      } else {
        attempts := attempts + 1;
        error := Some(if attempts >= MAX_PIN_ATTEMPTS then TooManyAttempts else IncorrectPin);
      }
    }

    /** The reset button is shown once the failed attempts reach the threshold. */
    predicate ResetOffered()
      reads this
    {
      attempts >= MAX_PIN_ATTEMPTS
    }

    /** `handleResetJournal`: both journal keys go, and the journal is empty, PIN-less and
      locked with no failed attempts. */
    method Reset()
      requires Valid()
      modifies this, store
      ensures Valid()
      ensures store.items == old(store.items) - {JOURNAL_PIN_KEY, JOURNAL_DATA_KEY}
      ensures entries == [] && pinHash == None && !unlocked && attempts == 0 && error == None
      ensures editingId == None && editingText == "" && pinInput == "" && newPin == "" && confirmPin == ""
      ensures newText == old(newText) && expanded == old(expanded)
      ensures !ResetOffered()
    {
      store.RemoveItem(JOURNAL_PIN_KEY);
      store.RemoveItem(JOURNAL_DATA_KEY);
      assert store.items == old(store.items) - {JOURNAL_PIN_KEY, JOURNAL_DATA_KEY};
      entries := [];
      pinHash := None;
      unlocked := false;
      editingId := None;
      editingText := "";
      pinInput := "";
      newPin := "";
      confirmPin := "";
      attempts := 0;
      error := None;
    }

    /** The "Read more" / "Show less" button of an entry. */
    method ToggleExpanded(id: string)
      modifies this
      ensures expanded == if id in old(expanded) then old(expanded) - {id} else old(expanded) + {id}
      ensures entries == old(entries) && pinHash == old(pinHash) && unlocked == old(unlocked)
      ensures attempts == old(attempts) && editingId == old(editingId)
      ensures newText == old(newText) && error == old(error) && newPin == old(newPin)
      ensures confirmPin == old(confirmPin) && pinInput == old(pinInput) && editingText == old(editingText)
    {
      if id in expanded {
        expanded := expanded - {id};
      } else {
        expanded := expanded + {id};
      }
    }

    /** The delete button of an entry: every entry with that id goes, its expanded flag goes,
      an edit of it is abandoned, and the remaining list is written. */
    method DeleteEntry(id: string)
      requires Valid()
      modifies this, store
      ensures Valid()
      ensures entries == RemoveEntry(old(entries), id)
      ensures expanded == old(expanded) - {id}
      ensures old(editingId) == Some(id) ==> editingId == None && editingText == ""
      ensures old(editingId) != Some(id) ==> editingId == old(editingId) && editingText == old(editingText)
      ensures store.items == old(store.items)[JOURNAL_DATA_KEY := EntryList(entries)]
      ensures pinHash == old(pinHash) && unlocked == old(unlocked) && attempts == old(attempts)
      ensures newText == old(newText) && error == old(error) && newPin == old(newPin)
      ensures confirmPin == old(confirmPin) && pinInput == old(pinInput)
    {
      RemoveEntrySpec(entries, id);
      entries := RemoveEntry(entries, id);
      expanded := expanded - {id};
      if editingId == Some(id) {
        editingId := None;
        editingText := "";
      } else if editingId.Some? {
        ghost var k :| 0 <= k < |old(entries)| && old(entries)[k].id == editingId.value;
        assert old(entries)[k] in entries;
      }
      store.SetItem(JOURNAL_DATA_KEY, EntryList(entries));
    }

    /** The edit button of an entry on screen. */
    method StartEdit(entry: JournalEntry)
      requires Valid() && entry in entries
      modifies this
      ensures Valid()
      ensures editingId == Some(entry.id) && editingText == entry.text
      ensures entries == old(entries) && pinHash == old(pinHash) && unlocked == old(unlocked)
      ensures attempts == old(attempts) && error == old(error) && newText == old(newText)
      ensures newPin == old(newPin) && confirmPin == old(confirmPin) && pinInput == old(pinInput) && expanded == old(expanded)
    {
      editingId := Some(entry.id);
      editingText := entry.text;
    }

    /** Typing into the edit box. */
    method SetEditingText(text: string)
      modifies this
      ensures editingText == text && editingId == old(editingId)
      ensures entries == old(entries) && pinHash == old(pinHash) && unlocked == old(unlocked)
      ensures attempts == old(attempts) && error == old(error) && newText == old(newText)
      ensures newPin == old(newPin) && confirmPin == old(confirmPin) && pinInput == old(pinInput) && expanded == old(expanded)
    {
      editingText := text;
    }

    /** The cancel button of the edit box. */
    method CancelEdit()
      modifies this
      ensures editingId == None && editingText == ""
      ensures entries == old(entries) && pinHash == old(pinHash) && unlocked == old(unlocked)
      ensures attempts == old(attempts) && error == old(error) && newText == old(newText)
      ensures newPin == old(newPin) && confirmPin == old(confirmPin) && pinInput == old(pinInput) && expanded == old(expanded)
    {
      editingId := None;
      editingText := "";
    }

    /** The save button of the edit box: a blank text changes nothing; otherwise the entries
      with the edited id take the trimmed text, the edit box closes and the list is written. */
    method SaveEdit()
      requires Valid() && editingId.Some?
      modifies this, store
      ensures Valid()
      ensures Trim(old(editingText)) == "" ==> unchanged(this) && store.items == old(store.items)
      ensures Trim(old(editingText)) != "" ==>
                && entries == EditEntry(old(entries), old(editingId).value, Trim(old(editingText)))
                && editingId == None && editingText == ""
                && store.items == old(store.items)[JOURNAL_DATA_KEY := EntryList(entries)]
      ensures pinHash == old(pinHash) && unlocked == old(unlocked) && attempts == old(attempts)
      ensures error == old(error) && newText == old(newText) && newPin == old(newPin)
      ensures confirmPin == old(confirmPin) && pinInput == old(pinInput) && expanded == old(expanded)
    {
      var trimmed := Trim(editingText);
      if trimmed == "" {
        return;
      }
      entries := EditEntry(entries, editingId.value, trimmed);
      editingId := None;
      editingText := "";
      store.SetItem(JOURNAL_DATA_KEY, EntryList(entries));
    }
  }

  /** Once a PIN is set, unlocking needs that PIN: a journal whose stored hash is the hash of
      `pin` opens for a typed PIN exactly when the typed PIN is `pin`. */
  lemma UnlockNeedsThePin(digest: string -> Option<seq<byte>>, pin: string, typed: string, h: string)
    requires DigestLaws(digest)
    requires HashPin(digest, pin) == Some(h)
    ensures HashPin(digest, typed) == Some(h) <==> typed == pin
    ensures h != ""
  {
    HashPinSpec(digest, pin, typed);
  }

  // ---------------------------------------------------------------- length caps

  /** `text.length > 800 ? text.slice(0, 800) : text`. */
  function GuideSpeechText(text: string): string {
    if |text| > GUIDE_SPEECH_LIMIT then text[..GUIDE_SPEECH_LIMIT] else text
  }

  /** The text an entry shows: whole when expanded or short, else its first 220 characters
      and an ellipsis. */
  function DisplayText(text: string, isExpanded: bool): string {
    if isExpanded || |text| <= DISPLAY_LIMIT then text else text[..DISPLAY_LIMIT] + ELLIPSIS
  }

  /** The speech text is the longest prefix of at most 800 characters. */
  lemma GuideSpeechTextSpec(text: string)
    ensures var r := GuideSpeechText(text);
            && |r| <= GUIDE_SPEECH_LIMIT && r == text[..|r|]
            && (|text| <= GUIDE_SPEECH_LIMIT <==> r == text)
  {
  }

  /** A collapsed entry shows at most 221 characters, a prefix of its text followed by the
      ellipsis exactly when the text is cut. */
  lemma DisplayTextSpec(text: string, isExpanded: bool)
    ensures var r := DisplayText(text, isExpanded);
            && (isExpanded ==> r == text)
            && (!isExpanded ==> |r| <= DISPLAY_LIMIT + 1)
            && (!isExpanded && |text| > DISPLAY_LIMIT ==> r == text[..DISPLAY_LIMIT] + ELLIPSIS)
            && (!isExpanded && |text| <= DISPLAY_LIMIT ==> r == text)
  {
  }

  // ---------------------------------------------------------------- editor helpers

  /** The textarea's selection when the editor is mounted. */
  datatype Selection = Selection(start: nat, end: nat)

  /** The text after an editor action, and where the caret is put back (None: not moved). */
  datatype Edit = Edit(text: string, caret: Option<nat>)

  /** `s.slice(from, to)` for non-negative bounds, clamped to the string. */
  function Slice(s: string, from: nat, to: nat): (r: string)
    ensures from <= to <= |s| ==> r == s[from..to]
  {
    var a := if from < |s| then from else |s|;
    var b := if to < |s| then to else |s|;
    if a < b then s[a..b] else ""
  }

  /** `insertAtCursor`: without a mounted textarea the snippet is appended; otherwise it
      replaces the selection and the caret goes after it. */
  function InsertAtCursor(text: string, sel: Option<Selection>, snippet: string): Edit {
    if sel.None? then Edit(text + snippet, None)
    else
      var start, end := sel.value.start, sel.value.end;
      Edit(Slice(text, 0, start) + snippet + Slice(text, end, |text|), Some(start + |snippet|))
  }

  /** Inserting replaces exactly the selection and leaves the caret after the snippet; a
      collapsed selection loses nothing, since removing the snippet gives the text back. */
  lemma InsertAtCursorSpec(text: string, sel: Option<Selection>, snippet: string)
    ensures sel.None? ==> InsertAtCursor(text, sel, snippet) == Edit(text + snippet, None)
    ensures sel.Some? && sel.value.start <= sel.value.end <= |text| ==>
              var s, e := sel.value.start, sel.value.end;
              var r := InsertAtCursor(text, sel, snippet);
              && r.text == text[..s] + snippet + text[e..]
              && r.caret == Some(s + |snippet|)
              && r.text[s..s + |snippet|] == snippet
              && (s == e ==> r.text[..s] + r.text[s + |snippet|..] == text)
  {
    if sel.Some? && sel.value.start <= sel.value.end <= |text| {
      var s, e := sel.value.start, sel.value.end;
      var r := InsertAtCursor(text, sel, snippet).text;
      assert r == text[..s] + snippet + text[e..];
      assert r[s..s + |snippet|] == snippet;
      if s == e {
        assert r[..s] == text[..s];
        assert r[s + |snippet|..] == text[s..];
      }
    }
  }

  /** `applyBold`: nothing without a textarea or with an empty selection; otherwise the
      selection is wrapped in `**` and the caret goes after the closing marker. */
  function ApplyBold(text: string, sel: Option<Selection>): Edit {
    if sel.None? || sel.value.start == sel.value.end then Edit(text, None)
    else
      var start, end := sel.value.start, sel.value.end;
      var selected := Slice(text, start, end);
      Edit(Slice(text, 0, start) + "**" + selected + "**" + Slice(text, end, |text|), Some(start + |selected| + 4))
  }

  /** Bold wraps exactly the selection, and taking the two markers out gives the text back. */
  lemma ApplyBoldSpec(text: string, sel: Option<Selection>)
    ensures sel.None? || sel.value.start == sel.value.end ==> ApplyBold(text, sel) == Edit(text, None)
    ensures sel.Some? && sel.value.start < sel.value.end <= |text| ==>
              var s, e := sel.value.start, sel.value.end;
              var r := ApplyBold(text, sel);
              && r.text == text[..s] + "**" + text[s..e] + "**" + text[e..]
              && r.caret == Some(e + 4)
              && r.text[..s] + r.text[s + 2..e + 2] + r.text[e + 4..] == text
  {
    if sel.Some? && sel.value.start < sel.value.end <= |text| {
      var s, e := sel.value.start, sel.value.end;
      var r := ApplyBold(text, sel).text;
      assert r == text[..s] + "**" + text[s..e] + "**" + text[e..];
      assert r[..s] == text[..s];
      assert r[s + 2..e + 2] == text[s..e];
      assert r[e + 4..] == text[e..];
      assert text[..s] + text[s..e] + text[e..] == text;
    }
  }

  /** Where the source places the start of the caret's line: one past the last newline at or
      before `pos - 1`. `lastIndexOf` clamps a negative start to 0, so at `pos == 0` a newline
      at index 0 is still found. */
  function LineStartAsWritten(text: string, pos: nat): (k: nat)
    ensures k <= |text|
  {
    (LastIndexOfChar(text, '\n', pos - 1) + 1) as nat
  }

  /** The start of the line the caret is on: 0 at the very start, else one past the last
      newline before the caret. */
  function LineStart(text: string, pos: nat): (k: nat)
    ensures k <= |text|
  {
    if pos == 0 then 0 else LineStartAsWritten(text, pos)
  }

  /** The two agree everywhere except at the start of a text that begins with a newline. */
  lemma LineStartAgrees(text: string, pos: nat)
    ensures LineStart(text, pos) == LineStartAsWritten(text, pos) <==> pos > 0 || text == [] || text[0] != '\n'
  {
  }

  /** With the caret at 0 in "\nabc", the source puts the line start at 1, after the caret,
      so a heading or bullet goes onto the second line. */
  lemma LineStartAsWrittenPastCaret()
    ensures LineStartAsWritten("\nabc", 0) == 1
    ensures LineStart("\nabc", 0) == 0
  {
    assert "\nabc"[0] == '\n';
  }

  /** The corrected line start is the start of the caret's line: at or before the caret, no
      newline between it and the caret, and at the text's start or just after a newline. */
  lemma LineStartSpec(text: string, pos: nat)
    requires pos <= |text|
    ensures var k := LineStart(text, pos);
            && k <= pos
            && (forall i :: k <= i < pos ==> text[i] != '\n')
            && (k == 0 || text[k - 1] == '\n')
  {
  }

  /** The line start is at or before the caret. */
  lemma LineStartBeforeCaret(text: string, pos: nat)
    requires pos <= |text|
    ensures LineStart(text, pos) <= pos
  {
    LineStartSpec(text, pos);
  }

  /** The line start is at the text's start or just after a newline. */
  lemma LineStartAfterNewline(text: string, pos: nat)
    requires pos <= |text|
    ensures var k := LineStart(text, pos);
            k == 0 || text[k - 1] == '\n'
  {
    LineStartSpec(text, pos);
  }

  /** Those three facts determine the line start. */
  lemma LineStartUnique(text: string, pos: nat, k: nat)
    requires pos <= |text| && k <= pos
    requires forall i :: k <= i < pos ==> text[i] != '\n'
    requires k == 0 || text[k - 1] == '\n'
    ensures LineStart(text, pos) == k
  {
    LineStartSpec(text, pos);
    var l := LineStart(text, pos);
    if k > 0 {
      assert text[k - 1] == '\n';
    }
    if l > 0 {
      assert text[l - 1] == '\n';
    }
  }

  /** `applyHeading(level)` as written: `# ` or `## ` goes at the source's line start
      (`LineStartAsWritten`), and the caret moves right by as much. */
  function ApplyHeading(text: string, sel: Option<Selection>, level: nat): Edit
    requires level == 1 || level == 2
  {
    if sel.None? then Edit(text, None)
    else HeadingAtLine(text, LineStartAsWritten(text, sel.value.start), sel.value.start, HeadingPrefix(level))
  }

  /** The heading edit the source evidently intends: the prefix goes at the start of the
      caret's line (`LineStart`). */
  function IntendedApplyHeading(text: string, sel: Option<Selection>, level: nat): Edit
    requires level == 1 || level == 2
  {
    if sel.None? then Edit(text, None)
    else HeadingAtLine(text, LineStart(text, sel.value.start), sel.value.start, HeadingPrefix(level))
  }

  /** `# ` for level 1, `## ` for level 2. */
  function HeadingPrefix(level: nat): string {
    if level == 1 then "# " else "## "
  }

  /** The heading edit for a line starting at `lineStart`, with the caret at `pos`. */
  function HeadingAtLine(text: string, lineStart: nat, pos: nat, prefix: string): Edit
    requires lineStart <= |text|
  {
    Edit(text[..lineStart] + prefix + text[lineStart..], Some(pos + |prefix|))
  }

  /** The prefix of `applyBullet`: empty when the line already starts with "- ". */
  function BulletPrefix(line: string): string {
    if |line| >= 2 && line[..2] == "- " then "" else "- "
  }

  /** `applyBullet` as written: "- " goes at the source's line start unless it is already
      there. */
  function ApplyBullet(text: string, sel: Option<Selection>): Edit {
    if sel.None? then Edit(text, None)
    else BulletAtLine(text, LineStartAsWritten(text, sel.value.start), sel.value.start)
  }

  /** The bullet edit the source evidently intends, at the start of the caret's line. */
  function IntendedApplyBullet(text: string, sel: Option<Selection>): Edit {
    if sel.None? then Edit(text, None)
    else BulletAtLine(text, LineStart(text, sel.value.start), sel.value.start)
  }

  /** The bullet edit for a line starting at `lineStart`, with the caret at `pos`. */
  function BulletAtLine(text: string, lineStart: nat, pos: nat): Edit
    requires lineStart <= |text|
  {
    var prefix := BulletPrefix(text[lineStart..]);
    Edit(text[..lineStart] + prefix + text[lineStart..], Some(pos + |prefix|))
  }

  /** The source's line start is 0 or just after a newline. */
  lemma LineStartAsWrittenAfterNewline(text: string, pos: nat)
    ensures var k := LineStartAsWritten(text, pos);
            k == 0 || text[k - 1] == '\n'
  {
  }

  /** The written heading and bullet are the intended ones except when the caret is at 0 in a
      text that begins with a newline; there they put the prefix after that newline instead. */
  lemma EditorAgrees(text: string, sel: Option<Selection>, level: nat)
    requires level == 1 || level == 2
    ensures var same := sel.None? || sel.value.start > 0 || text == [] || text[0] != '\n';
            && (ApplyHeading(text, sel, level) == IntendedApplyHeading(text, sel, level) <==> same)
            && (ApplyBullet(text, sel) == IntendedApplyBullet(text, sel) <==> same)
  {
    if sel.Some? && sel.value.start == 0 && text != [] && text[0] == '\n' {
      var h, ih := ApplyHeading(text, sel, level).text, IntendedApplyHeading(text, sel, level).text;
      assert h[0] == '\n' && ih[0] == '#';
      var b, ib := ApplyBullet(text, sel).text, IntendedApplyBullet(text, sel).text;
      assert BulletPrefix(text[0..]) == "- ";
      assert b[0] == '\n' && ib[0] == '-';
    }
  }

  /** On "\nabc" with the caret at 0 the written heading lands on the second line; the intended
      one heads the first line. */
  lemma ApplyHeadingPastCaret()
    ensures ApplyHeading("\nabc", Some(Selection(0, 0)), 1).text == "\n# abc"
    ensures IntendedApplyHeading("\nabc", Some(Selection(0, 0)), 1).text == "# \nabc"
  {
    LineStartAsWrittenPastCaret();
  }

  /** The written heading puts its prefix at the source's line start, which follows a newline
      or is 0, keeps the rest of the text, and moves the caret by the prefix. */
  lemma ApplyHeadingSpec(text: string, sel: Option<Selection>, level: nat)
    requires level == 1 || level == 2
    ensures sel.None? ==> ApplyHeading(text, sel, level) == Edit(text, None)
    ensures sel.Some? ==>
              var k := LineStartAsWritten(text, sel.value.start);
              var prefix := HeadingPrefix(level);
              var r := ApplyHeading(text, sel, level);
              && r.text[..k] == text[..k] && r.text[k..k + |prefix|] == prefix && r.text[k + |prefix|..] == text[k..]
              && (k == 0 || r.text[k - 1] == '\n')
              && r.caret == Some(sel.value.start + |prefix|)
  {
    if sel.Some? {
      var k := LineStartAsWritten(text, sel.value.start);
      LineStartAsWrittenAfterNewline(text, sel.value.start);
      HeadingAt(text, k, sel.value.start, HeadingPrefix(level));
    }
  }

  /** The intended heading prefix lands at the start of the caret's line and nowhere else. */
  lemma IntendedApplyHeadingSpec(text: string, sel: Option<Selection>, level: nat)
    requires level == 1 || level == 2
    ensures sel.None? ==> IntendedApplyHeading(text, sel, level) == Edit(text, None)
    ensures sel.Some? && sel.value.start <= |text| ==>
              var k := LineStart(text, sel.value.start);
              var prefix := HeadingPrefix(level);
              var r := IntendedApplyHeading(text, sel, level);
              && k <= sel.value.start && (forall i :: k <= i < sel.value.start ==> text[i] != '\n')
              && r.text[..k] == text[..k] && r.text[k..k + |prefix|] == prefix && r.text[k + |prefix|..] == text[k..]
              && (k == 0 || r.text[k - 1] == '\n')
              && r.caret == Some(sel.value.start + |prefix|)
  {
    if sel.Some? && sel.value.start <= |text| {
      var k := LineStart(text, sel.value.start);
      LineStartSpec(text, sel.value.start);
      HeadingAt(text, k, sel.value.start, HeadingPrefix(level));
    }
  }

  /** Text put at position `k` sits between what was before and after `k`. */
  lemma HeadingAt(text: string, k: nat, pos: nat, prefix: string)
    requires k <= |text|
    requires k == 0 || text[k - 1] == '\n'
    ensures var r := HeadingAtLine(text, k, pos, prefix);
            && r.text[..k] == text[..k] && r.text[k..k + |prefix|] == prefix && r.text[k + |prefix|..] == text[k..]
            && (k == 0 || r.text[k - 1] == '\n')
            && r.caret == Some(pos + |prefix|)
  {
    var t := text[..k] + prefix + text[k..];
    assert t[..k] == text[..k];
    assert t[k..k + |prefix|] == prefix;
    assert t[k + |prefix|..] == text[k..];
    if k > 0 {
      assert t[k - 1] == text[k - 1];
    }
  }

  /** Text without a newline put at the start of the caret's line keeps that line start for
      the caret moved past it. */
  lemma PrefixKeepsLineStart(text: string, pos: nat, prefix: string)
    requires pos <= |text|
    requires forall i :: 0 <= i < |prefix| ==> prefix[i] != '\n'
    ensures var k := LineStart(text, pos);
            LineStart(text[..k] + prefix + text[k..], pos + |prefix|) == k
  {
    var k := LineStart(text, pos);
    LineStartSpec(text, pos);
    var t := text[..k] + prefix + text[k..];
    var p := pos + |prefix|;
    forall i | k <= i < p ensures t[i] != '\n' {
      if i < k + |prefix| {
        assert t[i] == prefix[i - k];
      } else {
        assert t[i] == text[i - |prefix|];
      }
    }
    if k > 0 {
      assert t[k - 1] == text[k - 1];
    }
    LineStartUnique(t, p, k);
  }

  /** The same for the source's line start: a prefix without a newline put there leaves it
      where it was for the caret moved past the prefix. */
  lemma PrefixKeepsLineStartAsWritten(text: string, pos: nat, prefix: string)
    requires pos <= |text|
    requires forall i :: 0 <= i < |prefix| ==> prefix[i] != '\n'
    ensures var k := LineStartAsWritten(text, pos);
            LineStartAsWritten(text[..k] + prefix + text[k..], pos + |prefix|) == k
  {
    var k := LineStartAsWritten(text, pos);
    var t := text[..k] + prefix + text[k..];
    var p := pos + |prefix|;
    if pos > 0 {
      PrefixKeepsLineStart(text, pos, prefix);
    } else if text == [] || text[0] != '\n' {
      assert k == LineStart(text, pos);
      if |prefix| == 0 {
        assert t == text;
      } else {
        PrefixKeepsLineStart(text, pos, prefix);
      }
    } else {
      assert k == 1;
      assert t[0] == '\n';
      if |prefix| == 0 {
        assert t == text;
      } else {
        forall i | 1 <= i < p ensures t[i] != '\n' {
          assert t[i] == prefix[i - 1];
        }
        LineStartUnique(t, p, 1);
      }
    }
  }

  /** After the written bullet the text from the source's line start begins with "- ", what
      lies before it is kept, the caret moves by the prefix, and a second bullet at the moved
      caret changes nothing more. */
  lemma ApplyBulletSpec(text: string, pos: nat, end: nat)
    requires pos <= |text|
    ensures var k := LineStartAsWritten(text, pos);
            var r := ApplyBullet(text, Some(Selection(pos, end)));
            && r.text == text[..k] + BulletPrefix(text[k..]) + text[k..]
            && r.text[k..][..2] == "- "
            && r.caret == Some(pos + |BulletPrefix(text[k..])|)
            && ApplyBullet(r.text, Some(Selection(r.caret.value, end))).text == r.text
  {
    var k := LineStartAsWritten(text, pos);
    var r := BulletAtLine(text, k, pos);
    BulletAt(text, k, pos, end);
    PrefixKeepsLineStartAsWritten(text, pos, BulletPrefix(text[k..]));
    assert LineStartAsWritten(r.text, r.caret.value) == k;
  }

  /** After the intended bullet the caret's line starts with "- ", and a second bullet at the
      moved caret changes nothing more. */
  lemma IntendedApplyBulletSpec(text: string, pos: nat, end: nat)
    requires pos <= |text|
    ensures var k := LineStart(text, pos);
            var r := IntendedApplyBullet(text, Some(Selection(pos, end)));
            && r.caret.Some? && k <= r.caret.value <= |r.text|
            && r.text[k..][..2] == "- "
            && r.text[..k] == text[..k]
            && IntendedApplyBullet(r.text, Some(Selection(r.caret.value, end))).text == r.text
  {
    var k := LineStart(text, pos);
    LineStartBeforeCaret(text, pos);
    var r := BulletAtLine(text, k, pos);
    BulletAt(text, k, pos, end);
    PrefixKeepsLineStart(text, pos, BulletPrefix(text[k..]));
    assert LineStart(r.text, r.caret.value) == k;
  }

  /** A bullet put at position `k` makes the text from `k` start with "- ", keeps what lies
      before `k`, and a second bullet at `k` adds nothing. */
  lemma BulletAt(text: string, k: nat, pos: nat, end: nat)
    requires k <= |text|
    ensures var r := BulletAtLine(text, k, pos);
            && r.caret == Some(pos + |BulletPrefix(text[k..])|)
            && |r.text[k..]| >= 2 && r.text[k..][..2] == "- "
            && r.text[..k] == text[..k]
            && r.text == text[..k] + BulletPrefix(text[k..]) + text[k..]
            && BulletAtLine(r.text, k, r.caret.value).text == r.text
  {
    var line := text[k..];
    var prefix := BulletPrefix(line);
    var t := text[..k] + prefix + line;
    assert t[k..] == prefix + line;
    assert t[..k] == text[..k];
    if prefix == "- " {
      assert (prefix + line)[..2] == "- ";
    }
    assert BulletPrefix(t[k..]) == "";
    assert t[..k] + "" + t[k..] == t;
  }
}
