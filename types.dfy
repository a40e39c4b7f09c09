/**
  * The records of types.ts, and the journal entry declared in components/Relaxation.tsx,
  * as Dafny datatypes. Optional TypeScript fields (`field?: T`) become `Option<T>`; the
  * string unions become enumerations, with the wire spelling kept by a code function.
  */
module Types {
  import opened Wrappers

  /** The screens of the application shell. */
  datatype AppView = OnboardingScreen | ChatScreen | RelaxationScreen | SettingsScreen | HistoryScreen | ComingSoonScreen

  datatype Language = En | Yo | Ha | Ig

  function LanguageCode(l: Language): string {
    match l
    case En => "en"
    case Yo => "yo"
    case Ha => "ha"
    case Ig => "ig"
  }

  function ParseLanguage(code: string): Option<Language> {
    if code == "en" then Some(En)
    else if code == "yo" then Some(Yo)
    else if code == "ha" then Some(Ha)
    else if code == "ig" then Some(Ig)
    else None
  }

  /** A language is exactly one of the four codes: parsing accepts a code iff it is the
      spelling of that language. */
  lemma LanguageCodes(code: string, l: Language)
    ensures ParseLanguage(code) == Some(l) <==> code == LanguageCode(l)
    ensures ParseLanguage(code).Some? <==> code in {"en", "yo", "ha", "ig"}
  {
  }

  datatype Role = User | Model | System

  function RoleName(r: Role): string {
    match r
    case User => "user"
    case Model => "model"
    case System => "system"
  }

  function ParseRole(name: string): Option<Role> {
    if name == "user" then Some(User)
    else if name == "model" then Some(Model)
    else if name == "system" then Some(System)
    else None
  }

  /** A role is exactly one of `user`, `model`, `system`. */
  lemma RoleNames(name: string, r: Role)
    ensures ParseRole(name) == Some(r) <==> name == RoleName(r)
    ensures ParseRole(name).Some? <==> name in {"user", "model", "system"}
  {
  }

  datatype Feedback = Up | Down

  datatype GroundingData = GroundingData(title: string, uri: string, address: Option<string>)

  /** A chat message: id, role, text and timestamp always present, the rest optional. */
  datatype Message = Message(
    id: string,
    role: Role,
    text: string,
    timestamp: int,
    isEmergency: Option<bool>,
    groundingData: Option<seq<GroundingData>>,
    image: Option<string>,
    feedback: Option<Feedback>)

  /** A message with none of the optional fields set. */
  function PlainMessage(id: string, role: Role, text: string, timestamp: int): Message {
    Message(id, role, text, timestamp, None, None, None, None)
  }

  /** The only preference a profile carries. */
  datatype Preferences = Preferences(saveHistory: bool)

  datatype UserProfile = UserProfile(
    id: string,
    name: string,
    email: Option<string>,
    language: Language,
    preferences: Preferences)

  /** A saved conversation: only the title is optional. */
  datatype ChatSession = ChatSession(
    id: string,
    messages: seq<Message>,
    lastUpdated: int,
    preview: string,
    title: Option<string>)

  datatype JournalEntry = JournalEntry(id: string, createdAt: string, text: string)
}
