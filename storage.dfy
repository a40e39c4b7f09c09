/**
  * The browser's `localStorage`: one process-wide map from keys to serialised records.
  * Serialisation is abstract; a stored value is either one of the record kinds the
  * application writes or something that does not parse.
  */
module Storage {
  import opened Types

  datatype Blob =
    | UserRecord(user: UserProfile)
    | SessionList(sessions: seq<ChatSession>)
    | Text(text: string)
    | EntryList(entries: seq<JournalEntry>)
    | Unparsable

  class KeyValueStore {
    var items: map<string, Blob>

    constructor (initial: map<string, Blob>)
      ensures items == initial
    {
      items := initial;
    }

    /** `localStorage.setItem`. */
    method SetItem(key: string, value: Blob)
      modifies this
      ensures items == old(items)[key := value]
    {
      items := items[key := value];
    }

    /** `localStorage.removeItem`. */
    method RemoveItem(key: string)
      modifies this
      ensures items == old(items) - {key}
    {
      items := items - {key};
    }
  }
}
