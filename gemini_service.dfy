/**
  * services/geminiService.ts: the local shaping around the calls to the Gemini API. The API
  * itself is an oracle: its outcome (a raw response, or the error that the service's
  * `catch` swallows) is a parameter. Modelled here are the request the service builds
  * (model, image payload and MIME type, prompt, history window, location), the reply it
  * returns (fallback texts, grounding links), the analysis transcript and the
  * text-to-speech result.
  */
module GeminiService {
  import opened Wrappers
  import opened Strings
  import opened Types
  import Seqs

  const TEXT_MODEL: string := "gemini-2.5-flash"
  const IMAGE_MODEL: string := "gemini-3-pro-preview"
  const BASE64_MARKER: string := "base64,"
  const DATA_MARKER: string := "data:"
  const DEFAULT_MIME_TYPE: string := "image/jpeg"
  const IMAGE_PROMPT: string := "What do you think about this image?"
  const EMPTY_REPLY_FALLBACK: string := "I dey hear you. Tell me more."
  const NETWORK_FALLBACK: string := "Omo, network dey shake slightly. Can you say that again?"
  const HISTORY_WINDOW: nat := 10

  /** The language name put into the system instruction. */
  function LanguageName(l: Language): string {
    match l
    case En => "English"
    case Yo => "Yoruba"
    case Ha => "Hausa"
    case Ig => "Igbo"
  }

  // ---------------------------------------------------------------- data URIs

  /** `image.includes("base64,") ? image.split("base64,")[1] : image`: the segment between
      the first and the second marker when there is one. */
  function Payload(image: string): string {
    if Contains(image, BASE64_MARKER) then Split(image, BASE64_MARKER)[1] else image
  }

  /** `image.includes("data:") ? image.split(";")[0].split(":")[1] : "image/jpeg"`; the
      result is undefined (None) when the part before the first ';' has no ':'. */
  function MimeType(image: string): Option<string> {
    if Contains(image, DATA_MARKER) then
      var parts := Split(Split(image, ";")[0], ":");
      if |parts| >= 2 then Some(parts[1]) else None
    else Some(DEFAULT_MIME_TYPE)
  }

  /** Without a marker the whole string is the payload; with one, the payload is the text
      that follows the first marker up to the next marker (or the end), and it holds no
      marker itself. */
  lemma PayloadSpec(image: string)
    ensures !Contains(image, BASE64_MARKER) ==> Payload(image) == image
    ensures Contains(image, BASE64_MARKER) ==>
              var rest := image[IndexOf(image, BASE64_MARKER).value + |BASE64_MARKER|..];
              && Payload(image) == rest[..|Payload(image)|]
              && !Contains(Payload(image), BASE64_MARKER)
              && (Contains(rest, BASE64_MARKER) ==> |Payload(image)| == IndexOf(rest, BASE64_MARKER).value)
              && (!Contains(rest, BASE64_MARKER) ==> Payload(image) == rest)
  {
    if Contains(image, BASE64_MARKER) {
      var i := IndexOf(image, BASE64_MARKER).value;
      var rest := image[i + |BASE64_MARKER|..];
      assert Split(image, BASE64_MARKER) == [image[..i]] + Split(rest, BASE64_MARKER);
      SplitJoin(rest, BASE64_MARKER);
    }
  }

  function DataUri(mime: string, payload: string): string {
    DATA_MARKER + mime + ";" + BASE64_MARKER + payload
  }

  lemma PayloadOfDataUri(mime: string, payload: string)
    requires ',' !in mime && ',' !in payload
    ensures Payload(DataUri(mime, payload)) == payload
  {
    var uri := DataUri(mime, payload);
    var a := DATA_MARKER + mime + ";";
    assert uri == a + BASE64_MARKER + payload;
    assert ',' !in a;
    forall i | 0 <= i < |a| + 6 && i < |uri| ensures uri[i] != BASE64_MARKER[6] {
      if i < |a| {
        assert uri[i] == a[i];
      } else {
        assert uri[i] == BASE64_MARKER[i - |a|];
      }
    }
    NoEarlyMatch(uri, BASE64_MARKER, |a|, 6);
    SplitFirst(a, payload, BASE64_MARKER);
    SplitNone(payload, BASE64_MARKER, ',');
    assert OccursAt(uri, BASE64_MARKER, |a|);
  }

  lemma MimeTypeOfDataUri(mime: string, payload: string)
    requires ':' !in mime && ';' !in mime
    ensures MimeType(DataUri(mime, payload)) == Some(mime)
  {
    var uri := DataUri(mime, payload);
    IndexOfPrefix(uri, DATA_MARKER);
    var a2 := DATA_MARKER + mime;
    var b2 := BASE64_MARKER + payload;
    assert uri == a2 + ";" + b2;
    assert ';' !in a2;
    NoEarlyMatch(uri, ";", |a2|, 0);
    SplitFirst(a2, b2, ";");
    assert a2 == "data" + ":" + mime;
    NoEarlyMatch(a2, ":", 4, 0);
    SplitFirst("data", mime, ":");
    SplitNone(mime, ":", ':');
  }

  /** Reading back a base64 data URI gives its payload and its MIME type, provided the MIME
      type has no ':', ';' or ',' and the payload no ',' (true of every MIME type token and
      of the base64 alphabet). */
  lemma DataUriRoundTrip(mime: string, payload: string)
    requires ':' !in mime && ';' !in mime && ',' !in mime
    requires ',' !in payload
    ensures Payload(DataUri(mime, payload)) == payload
    ensures MimeType(DataUri(mime, payload)) == Some(mime)
  {
    PayloadOfDataUri(mime, payload);
    MimeTypeOfDataUri(mime, payload);
  }

  // ---------------------------------------------------------------- the request

  datatype Turn = Turn(role: Role, text: string)

  /** Coordinates are passed through untouched; their arithmetic is not modelled. */
  datatype Location = Location(latitude: real, longitude: real)

  /** What is sent: a chat turn with history, Google Search and Maps tools and an optional
      location, or a single image request with its caption. */
  datatype Request =
    | ChatRequest(model: string, languageName: string, history: seq<Turn>, message: string, location: Option<Location>)
    | ImageRequest(model: string, languageName: string, mimeType: Option<string>, data: string, prompt: string)

  function ToTurn(m: Message): Turn {
    Turn(m.role, m.text)
  }

  /** `history.slice(-10).map(msg => ({ role, parts: [{ text }] }))`. */
  function HistoryWindow(history: seq<Message>): seq<Turn> {
    var w := if |history| > HISTORY_WINDOW then history[|history| - HISTORY_WINDOW..] else history;
    seq(|w|, i requires 0 <= i < |w| => ToTurn(w[i]))
  }

  /** The window holds the last ten messages (all of them when there are fewer), in order,
      each as its role and text. */
  lemma HistoryWindowSpec(history: seq<Message>)
    ensures var r := HistoryWindow(history);
            && |r| == (if |history| < HISTORY_WINDOW then |history| else HISTORY_WINDOW)
            && forall i :: 0 <= i < |r| ==> r[i] == Turn(history[|history| - |r| + i].role, history[|history| - |r| + i].text)
  {
    var r := HistoryWindow(history);
    var w := if |history| > HISTORY_WINDOW then history[|history| - HISTORY_WINDOW..] else history;
    forall i | 0 <= i < |r| ensures r[i] == Turn(history[|history| - |r| + i].role, history[|history| - |r| + i].text) {
      assert |r| == |w|;
      assert r[i] == ToTurn(w[i]);
      assert w[i] == history[|history| - |w| + i];
    }
  }

  /** One more message slides the window by one: it is appended, and the oldest turn drops
      out once the window is full. */
  lemma HistoryWindowSlides(history: seq<Message>, m: Message)
    ensures var w := HistoryWindow(history) + [ToTurn(m)];
            HistoryWindow(history + [m]) == if |history| >= HISTORY_WINDOW then w[1..] else w
  {
    HistoryWindowSpec(history);
    HistoryWindowSpec(history + [m]);
    var w := HistoryWindow(history) + [ToTurn(m)];
    var r := HistoryWindow(history + [m]);
    var expected := if |history| >= HISTORY_WINDOW then w[1..] else w;
    assert |r| == |expected|;
    forall i | 0 <= i < |r| ensures r[i] == expected[i] {
      if i == |r| - 1 {
        assert (history + [m])[|history|] == m;
      } else {
        assert (history + [m])[|history| + 1 - |r| + i] == history[|history| + 1 - |r| + i];
      }
    }
  }

  /** `if (image)`: an attached image is a non-empty string. */
  predicate HasImage(image: Option<string>) {
    image.Some? && image.value != ""
  }

  /** The request `sendMessageToGemini` builds. */
  function RequestFor(history: seq<Message>, input: string, image: Option<string>, location: Option<Location>, language: Language): Request {
    if HasImage(image) then
      ImageRequest(IMAGE_MODEL, LanguageName(language), MimeType(image.value), Payload(image.value), Or(Some(input), IMAGE_PROMPT))
    else ChatRequest(TEXT_MODEL, LanguageName(language), HistoryWindow(history), input, location)
  }

  /** With an image the request goes to the image model with no history and no location,
      and an empty caption becomes the stock image prompt; without one, the text model gets
      the input as is, the last ten turns and the location. */
  lemma RequestForSpec(history: seq<Message>, input: string, image: Option<string>, location: Option<Location>, language: Language)
    ensures var r := RequestFor(history, input, image, location, language);
            && r.languageName == LanguageName(language)
            && (HasImage(image) ==> r.ImageRequest? && r.model == IMAGE_MODEL &&
                                     r.data == Payload(image.value) && r.mimeType == MimeType(image.value) &&
                                     r.prompt == (if input == "" then IMAGE_PROMPT else input))
            && (!HasImage(image) ==> r.ChatRequest? && r.model == TEXT_MODEL && r.message == input &&
                                      r.history == HistoryWindow(history) && r.location == location)
  {
  }

  // ---------------------------------------------------------------- the reply

  datatype WebSource = WebSource(title: string, uri: string)

  /** A grounding chunk; only chunks from web search carry a `web` part. */
  datatype Chunk = Chunk(web: Option<WebSource>)

  /** The part of the API response the service reads. */
  datatype RawResponse = RawResponse(text: Option<string>, chunks: Option<seq<Chunk>>)

  datatype Reply = Reply(text: string, groundingData: Option<seq<GroundingData>>)

  /** The grounding links of the web chunks, in chunk order. */
  function WebLinks(chunks: seq<Chunk>): seq<GroundingData> {
    Seqs.FlatMap(chunks, LinkOf)
  }

  /** The link one chunk contributes: its title and uri when it is a web chunk. */
  function LinkOf(c: Chunk): seq<GroundingData> {
    if c.web.Some? then [GroundingData(c.web.value.title, c.web.value.uri, None)] else []
  }

  /** Links are collected chunk by chunk, so the links of two runs of chunks are the links
      of the first followed by those of the second. */
  lemma WebLinksConcat(a: seq<Chunk>, b: seq<Chunk>)
    ensures WebLinks(a + b) == WebLinks(a) + WebLinks(b)
  {
    Seqs.FlatMapConcat(a, b, LinkOf);
  }

  /** Every link comes from a web chunk, keeping its title and uri and with no address, and
      every web chunk yields its link; `WebLinksConcat` gives their order. */
  lemma {:induction false} WebLinksSpec(chunks: seq<Chunk>)
    ensures |WebLinks(chunks)| <= |chunks|
    ensures forall g :: g in WebLinks(chunks) ==>
              g.address.None? && Chunk(Some(WebSource(g.title, g.uri))) in chunks
    ensures (forall i :: 0 <= i < |chunks| ==> chunks[i].web.None?) ==> WebLinks(chunks) == []
    ensures (forall i :: 0 <= i < |chunks| ==> chunks[i].web.Some?) ==> |WebLinks(chunks)| == |chunks|
    ensures forall i :: 0 <= i < |chunks| && chunks[i].web.Some? ==>
              GroundingData(chunks[i].web.value.title, chunks[i].web.value.uri, None) in WebLinks(chunks)
  {
    if chunks != [] {
      WebLinksSpec(chunks[1..]);
      assert chunks == [chunks[0]] + chunks[1..];
      forall i | 1 <= i < |chunks| && chunks[i].web.Some?
        ensures GroundingData(chunks[i].web.value.title, chunks[i].web.value.uri, None) in WebLinks(chunks)
      {
        assert chunks[1..][i - 1] == chunks[i];
      }
      forall g | g in WebLinks(chunks) ensures g.address.None? && Chunk(Some(WebSource(g.title, g.uri))) in chunks {
        if g !in WebLinks(chunks[1..]) {
          assert chunks[0] == Chunk(Some(WebSource(g.title, g.uri)));
        }
      }
    }
  }

  /** The `forEach` that pushes one link per web chunk. */
  method CollectGroundingLinks(chunks: seq<Chunk>) returns (links: seq<GroundingData>)
    ensures links == WebLinks(chunks)
  {
    links := [];
    var i := 0;
    while i < |chunks|
      invariant 0 <= i <= |chunks|
      invariant links == WebLinks(chunks[..i])
    {
      WebLinksConcat(chunks[..i], [chunks[i]]);
      assert chunks[..i + 1] == chunks[..i] + [chunks[i]];
      var chunk := chunks[i];
      assert [chunk][1..] == [];
      assert WebLinks([chunk]) == LinkOf(chunk) + WebLinks([]);
      if chunk.web.Some? {
        links := links + [GroundingData(chunk.web.value.title, chunk.web.value.uri, None)];
      }
      i := i + 1;
    }
    assert chunks[..i] == chunks;
  }

  /** The reply the service returns for an API outcome. */
  function ReplyFor(outcome: Result<RawResponse, string>): Reply {
    match outcome
    case Ok(raw) => Reply(Or(raw.text, EMPTY_REPLY_FALLBACK), Some(WebLinks(raw.chunks.GetOr([]))))
    case Err(_) => Reply(NETWORK_FALLBACK, None)
  }

  /** The reply text is never empty: an empty answer becomes "I dey hear you. Tell me
      more." and a failure the network apology, which carries no grounding data; an answer
      always carries its (possibly empty) list of web links. */
  lemma ReplyForSpec(outcome: Result<RawResponse, string>)
    ensures ReplyFor(outcome).text != ""
    ensures outcome.Err? ==> ReplyFor(outcome) == Reply(NETWORK_FALLBACK, None)
    ensures outcome.Ok? ==>
              && ReplyFor(outcome).groundingData == Some(WebLinks(outcome.value.chunks.GetOr([])))
              && (outcome.value.text.Some? && outcome.value.text.value != "" ==> ReplyFor(outcome).text == outcome.value.text.value)
              && (outcome.value.text.None? || outcome.value.text.value == "" ==> ReplyFor(outcome).text == EMPTY_REPLY_FALLBACK)
  {
  }

  /** `sendMessageToGemini`: builds the request step by step, then shapes the reply from the
      API's outcome. */
  method SendMessageToGemini(history: seq<Message>, input: string, image: Option<string>, location: Option<Location>,
                             language: Language, outcome: Result<RawResponse, string>)
    returns (request: Request, reply: Reply)
    ensures request == RequestFor(history, input, image, location, language)
    ensures reply == ReplyFor(outcome)
  {
    var modelId := TEXT_MODEL;
    var langName := LanguageName(language);
    if HasImage(image) {
      modelId := IMAGE_MODEL;
      var cleanBase64 := if Contains(image.value, BASE64_MARKER) then Split(image.value, BASE64_MARKER)[1] else image.value;
      var mimeType := MimeType(image.value);
      var prompt := if input != "" then input else IMAGE_PROMPT;
      request := ImageRequest(modelId, langName, mimeType, cleanBase64, prompt);
    } else {
      var recentHistory := HistoryWindow(history);
      request := ChatRequest(modelId, langName, recentHistory, input, location);
    }
    match outcome {
      case Err(_) =>
        reply := Reply(NETWORK_FALLBACK, None);
      case Ok(raw) =>
        var text := if raw.text.Some? && raw.text.value != "" then raw.text.value else EMPTY_REPLY_FALLBACK;
        var groundingData := [];
        if raw.chunks.Some? {
          groundingData := CollectGroundingLinks(raw.chunks.value);
        }
        reply := Reply(text, Some(groundingData));
    }
  }

  // ---------------------------------------------------------------- analysis transcript

  /** `m.role.toUpperCase()`. */
  function RoleLabel(r: Role): (tag: string)
    ensures tag == ToUpper(RoleName(r))
    ensures '\n' !in tag
  {
    match r
    case User => "USER"
    case Model => "MODEL"
    case System => "SYSTEM"
  }

  /** Messages with an attached image are left out of the transcript. */
  function TextOnly(history: seq<Message>): seq<Message> {
    Seqs.Filter(history, WithoutImage())
  }

  /** The filter's test: the message carries no image. */
  function WithoutImage(): Message -> bool {
    (m: Message) => !HasImage(m.image)
  }

  /** The transcript keeps exactly the messages without an image. */
  lemma TextOnlySpec(history: seq<Message>)
    ensures forall m :: m in TextOnly(history) <==> m in history && !HasImage(m.image)
  {
    Seqs.FilterMembers(history, WithoutImage());
  }

  function Line(m: Message): string {
    RoleLabel(m.role) + ": " + m.text
  }

  /** The transcript `analyzeSession` sends. */
  function Transcript(history: seq<Message>): string {
    var kept := TextOnly(history);
    Join(seq(|kept|, i requires 0 <= i < |kept| => Line(kept[i])), "\n")
  }

  /** When no text has a line break, the transcript's lines are exactly the messages without
      an image, in order, each as "ROLE: text". */
  lemma TranscriptLines(history: seq<Message>)
    requires forall i :: 0 <= i < |history| ==> '\n' !in history[i].text
    requires TextOnly(history) != []
    ensures var kept := TextOnly(history);
            Split(Transcript(history), "\n") == seq(|kept|, i requires 0 <= i < |kept| => Line(kept[i]))
    ensures forall m :: m in TextOnly(history) <==> m in history && !HasImage(m.image)
  {
    TextOnlySpec(history);
    var kept := TextOnly(history);
    var lines := seq(|kept|, i requires 0 <= i < |kept| => Line(kept[i]));
    forall k | 0 <= k < |lines| ensures '\n' !in lines[k] {
      assert kept[k] in history;
      assert '\n' !in RoleLabel(kept[k].role);
    }
    JoinSplit(lines, '\n');
  }

  // ---------------------------------------------------------------- speech

  /** `generateSpeech`: the audio data of the first part, or null when it is missing or
      empty or the call fails. */
  function SpeechResult(outcome: Result<Option<string>, string>): Option<string> {
    if outcome.Ok? && outcome.value.Some? && outcome.value.value != "" then Some(outcome.value.value) else None
  }

  /** The result is never an empty string: either non-empty audio data exactly as received,
      or null. */
  lemma SpeechResultSpec(outcome: Result<Option<string>, string>)
    ensures SpeechResult(outcome).Some? ==> SpeechResult(outcome).value != "" && outcome == Ok(SpeechResult(outcome))
    ensures SpeechResult(outcome).None? <==> outcome.Err? || outcome.value.None? || outcome.value.value == ""
  {
  }
}
