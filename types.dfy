/** The records, events and schemas of lib/atm/types.ts (and the database rows of db/schema.ts
    that they are inferred from). Store-assigned values (serial ids, default timestamps) are
    plain fields: the store itself is not modelled. */
module Types {
  import opened Wrappers

  /** A stored instant. `Date.valueOf()` gives its epoch-millisecond number. */
  datatype Timestamp = Timestamp(epochMillis: int) {
    function ValueOf(): int { epochMillis }
  }

  /** An OpenAI text annotation (file citation or file path). Its inner structure is never
      inspected by this code, so it is carried as an opaque payload. */
  datatype Annotation = Annotation(payload: string)

  /** A row of the `parties` table. */
  datatype Party = Party(
    id: int,
    name: Option<string>,
    slug: string,
    url: Option<string>,
    defaultPartyAssistantId: Option<int>,
    logoImageUrl: Option<string>,
    manifestoUrl: Option<string>)

  /** A row of the `party_assistants` table. */
  datatype PartyAssistant = PartyAssistant(id: int, openAiAssistantId: string, partyId: int)

  /** A row of the `questions` table. */
  datatype Question = Question(
    id: int,
    slug: string,
    createdAt: Timestamp,
    content: string,
    public: bool,
    votes: int,
    userId: string,
    completed: bool)

  /** A row of the `answers` table. */
  datatype Answer = Answer(
    id: int,
    createdAt: Timestamp,
    questionId: int,
    partyAssistantId: int,
    content: string,
    annotations: Option<seq<Annotation>>,
    cost: Option<int>,
    completed: bool,
    votes: int,
    index: int)

  /** `Answer & { party: Party }` */
  datatype PartyAnswer = PartyAnswer(answer: Answer, party: Party)

  /** The internal event protocol `CreateQuestionAndAnswerEvent = AnswerEvent | QuestionEvent`. */
  datatype Event =
    | AnswerStarted(answer: PartyAnswer)
    | AnswerDelta(answerId: int, delta: string, annotations: Option<seq<Annotation>>)
    | AnswerCompleted(answer: PartyAnswer)
    | QuestionCreated(question: Question)
    | QuestionCompleted(question: Question, answers: seq<PartyAnswer>)
  {
    /** The `type` discriminant. */
    function Type(): string {
      match this
      case AnswerStarted(_) => "answer.started"
      case AnswerDelta(_, _, _) => "answer.delta"
      case AnswerCompleted(_) => "answer.completed"
      case QuestionCreated(_) => "question.created"
      case QuestionCompleted(_, _) => "question.completed"
    }

    /** Membership of the `AnswerEvent` half of the union. */
    predicate IsAnswerEvent() {
      AnswerStarted? || AnswerDelta? || AnswerCompleted?
    }
  }

  /** `AnswerEvent`: the events a party's answer iterator yields. */
  type AnswerEvent = e: Event | e.IsAnswerEvent() witness AnswerDelta(0, "", None)

  const AnswerEventTypes: set<string> := {"answer.started", "answer.delta", "answer.completed"}
  const QuestionEventTypes: set<string> := {"question.created", "question.completed"}

  /** `SerializedParty = Pick<Party, "slug" | "name" | "url" | "logoImageUrl" | "manifestoUrl">` */
  datatype SerializedParty = SerializedParty(
    slug: string,
    name: Option<string>,
    logoImageUrl: Option<string>,
    url: Option<string>,
    manifestoUrl: Option<string>)

  /** `SerializedAnswer`: the picked answer columns, a numeric `createdAt` and a serialized party. */
  datatype SerializedAnswer = SerializedAnswer(
    id: int,
    content: string,
    annotations: Option<seq<Annotation>>,
    completed: bool,
    index: int,
    createdAt: int,
    party: SerializedParty)

  /** `SerializedQuestion`: content and slug, a numeric `createdAt` and serialized answers. */
  datatype SerializedQuestion = SerializedQuestion(
    content: string,
    slug: string,
    createdAt: int,
    answers: seq<SerializedAnswer>)

  /** The wire protocol `SerializedCreateQuestionAndAnswerEvent`. */
  datatype SerializedEvent =
    | SerializedAnswerStarted(answer: SerializedAnswer)
    | SerializedAnswerDelta(answerId: int, delta: string, annotations: Option<seq<Annotation>>)
    | SerializedAnswerCompleted(answer: SerializedAnswer)
    | SerializedQuestionCreated(question: SerializedQuestion)
    | SerializedQuestionCompleted(question: SerializedQuestion)
  {
    function Type(): string {
      match this
      case SerializedAnswerStarted(_) => "answer.started"
      case SerializedAnswerDelta(_, _, _) => "answer.delta"
      case SerializedAnswerCompleted(_) => "answer.completed"
      case SerializedQuestionCreated(_) => "question.created"
      case SerializedQuestionCompleted(_) => "question.completed"
    }
  }

  /** The discriminant identifies the variant: five distinct tags, three for answer events and
      two for question events. */
  lemma EventTypeTags(e: Event, f: Event)
    ensures e.Type() in AnswerEventTypes + QuestionEventTypes
    ensures e.IsAnswerEvent() <==> e.Type() in AnswerEventTypes
    ensures !e.IsAnswerEvent() <==> e.Type() in QuestionEventTypes
    ensures e.Type() == f.Type() <==>
      (e.AnswerStarted? && f.AnswerStarted?) || (e.AnswerDelta? && f.AnswerDelta?) ||
      (e.AnswerCompleted? && f.AnswerCompleted?) || (e.QuestionCreated? && f.QuestionCreated?) ||
      (e.QuestionCompleted? && f.QuestionCompleted?)
  {
  }

  /** JSON values, as found in a Supabase user's free-form `user_metadata`. */
  datatype Json =
    | JNull
    | JBool(b: bool)
    | JNumber(n: int)
    | JString(s: string)
    | JArray(items: seq<Json>)
    | JObject(fields: map<string, Json>)

  /** `SupabaseUserMetadata`: the two name fields, each a string or null. */
  datatype SupabaseUserMetadata = SupabaseUserMetadata(firstName: Option<string>, lastName: Option<string>)

  /** A validation failure of the metadata schema, naming the offending key. */
  datatype SchemaError = InvalidType(key: string)

  /** `z.string().nullable().default(null)` applied to the value of `key`: absent and null give
      null, a string is kept, anything else is rejected. */
  function ParseNullableString(metadata: map<string, Json>, key: string): (r: Result<Option<string>, SchemaError>)
    ensures r.Success? <==> key !in metadata || metadata[key].JNull? || metadata[key].JString?
    ensures r.Success? && key in metadata && metadata[key].JString? ==> r.value == Some(metadata[key].s)
    ensures r.Success? && r.value.Some? ==> key in metadata && metadata[key] == JString(r.value.value)
    ensures r.Failure? ==> r.error == InvalidType(key)
  {
    if key !in metadata then Success(None)
    else match metadata[key]
      case JNull => Success(None)
      case JString(s) => Success(Some(s))
      case _ => Failure(InvalidType(key))
  }

  /** `SupabaseUserMetadata.parse`: an object schema that keeps `firstName` and `lastName`,
      strips every other key, and fails when a field has the wrong type. zod collects an
      issue for every such field; the model reports one of them, `firstName`'s if it is wrong. */
  function ParseUserMetadata(metadata: map<string, Json>): (r: Result<SupabaseUserMetadata, SchemaError>)
    ensures r.Success? <==>
      ParseNullableString(metadata, "firstName").Success? && ParseNullableString(metadata, "lastName").Success?
    ensures r.Success? ==>
      r.value.firstName == ParseNullableString(metadata, "firstName").value &&
      r.value.lastName == ParseNullableString(metadata, "lastName").value
  {
    match ParseNullableString(metadata, "firstName")
    case Failure(e) => Failure(e)
    case Success(firstName) =>
      match ParseNullableString(metadata, "lastName")
      case Failure(e) => Failure(e)
      case Success(lastName) => Success(SupabaseUserMetadata(firstName, lastName))
  }

  /** Keys other than the two names do not affect the parse. */
  lemma ParseIgnoresOtherKeys(metadata: map<string, Json>, key: string, v: Json)
    requires key != "firstName" && key != "lastName"
    ensures ParseUserMetadata(metadata[key := v]) == ParseUserMetadata(metadata)
  {
  }

  /** `User = SupabaseUserMetadata & { id: string; email?: string }` */
  datatype User = User(id: string, email: Option<string>, firstName: Option<string>, lastName: Option<string>)

  datatype Session = Session(id: string, user: User)
}
