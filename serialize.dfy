/** lib/atm/serialize.ts: the total mapping from internal records and events to their wire
    form. */
module Serialize {
  import opened Wrappers
  import opened Types

  /** `serializeParty`: the public party fields only. */
  function SerializeParty(party: Party): (r: SerializedParty)
    ensures r.slug == party.slug && r.name == party.name && r.url == party.url
    ensures r.logoImageUrl == party.logoImageUrl && r.manifestoUrl == party.manifestoUrl
  {
    SerializedParty(party.slug, party.name, party.logoImageUrl, party.url, party.manifestoUrl)
  }

  /** `answer.annotations || []` */
  function AnnotationsOrEmpty(annotations: Option<seq<Annotation>>): seq<Annotation> {
    annotations.GetOr([])
  }

  /** `serializeAnswer` */
  function SerializeAnswer(a: PartyAnswer): (r: SerializedAnswer)
    ensures r.annotations.Some?
    ensures a.answer.annotations.None? ==> r.annotations == Some([])
    ensures a.answer.annotations.Some? ==> r.annotations == a.answer.annotations
    ensures r.createdAt == a.answer.createdAt.ValueOf()
    ensures r.id == a.answer.id && r.content == a.answer.content
    ensures r.completed == a.answer.completed && r.index == a.answer.index
    ensures r.party == SerializeParty(a.party)
  {
    SerializedAnswer(
      a.answer.id,
      a.answer.content,
      Some(AnnotationsOrEmpty(a.answer.annotations)),
      a.answer.completed,
      a.answer.index,
      a.answer.createdAt.ValueOf(),
      SerializeParty(a.party))
  }

  /** `question.answers.map(serializeAnswer)` */
  function SerializeAnswers(answers: seq<PartyAnswer>): (r: seq<SerializedAnswer>)
    ensures |r| == |answers|
    ensures forall i :: 0 <= i < |answers| ==> r[i] == SerializeAnswer(answers[i])
  {
    seq(|answers|, i requires 0 <= i < |answers| => SerializeAnswer(answers[i]))
  }

  /** `serializeQuestion` applied to `Question & { answers }`. */
  function SerializeQuestion(question: Question, answers: seq<PartyAnswer>): (r: SerializedQuestion)
    ensures r.content == question.content && r.slug == question.slug
    ensures r.createdAt == question.createdAt.ValueOf()
    ensures |r.answers| == |answers|
    ensures forall i :: 0 <= i < |answers| ==> r.answers[i] == SerializeAnswer(answers[i])
  {
    SerializedQuestion(question.content, question.slug, question.createdAt.ValueOf(), SerializeAnswers(answers))
  }

  /** `serializeCreateQuestionAndAnswerEvent` */
  function SerializeEvent(e: Event): (r: SerializedEvent)
    ensures r.Type() == e.Type()
    ensures e.QuestionCreated? ==> r.question == SerializeQuestion(e.question, [])
    ensures e.QuestionCreated? ==> r.question.answers == [] && r.question.slug == e.question.slug
    ensures e.AnswerStarted? || e.AnswerCompleted? ==> r.answer == SerializeAnswer(e.answer)
    ensures e.QuestionCompleted? ==> r.question == SerializeQuestion(e.question, e.answers)
    ensures e.AnswerDelta? ==>
      r.answerId == e.answerId && r.delta == e.delta && r.annotations == e.annotations
  {
    match e
    case AnswerStarted(a) => SerializedAnswerStarted(SerializeAnswer(a))
    case AnswerDelta(id, delta, annotations) => SerializedAnswerDelta(id, delta, annotations)
    case AnswerCompleted(a) => SerializedAnswerCompleted(SerializeAnswer(a))
    case QuestionCreated(q) => SerializedQuestionCreated(SerializeQuestion(q, []))
    case QuestionCompleted(q, answers) => SerializedQuestionCompleted(SerializeQuestion(q, answers))
  }

  /** Two parties look the same on the wire exactly when they agree on the five public fields:
      `id` and `defaultPartyAssistantId` never reach the client. */
  lemma SerializePartyKeepsExactly(p: Party, q: Party)
    ensures SerializeParty(p) == SerializeParty(q) <==>
      p.slug == q.slug && p.name == q.name && p.logoImageUrl == q.logoImageUrl &&
      p.url == q.url && p.manifestoUrl == q.manifestoUrl
  {
  }

  /** Two answers look the same on the wire exactly when they agree on id, content, completion,
      index, creation instant, public party fields, and annotations up to `null` being read as
      the empty list. The question id, assistant id, cost and votes are dropped. */
  lemma SerializeAnswerKeepsExactly(a: PartyAnswer, b: PartyAnswer)
    ensures SerializeAnswer(a) == SerializeAnswer(b) <==>
      a.answer.id == b.answer.id && a.answer.content == b.answer.content &&
      AnnotationsOrEmpty(a.answer.annotations) == AnnotationsOrEmpty(b.answer.annotations) &&
      a.answer.completed == b.answer.completed && a.answer.index == b.answer.index &&
      a.answer.createdAt == b.answer.createdAt &&
      SerializeParty(a.party) == SerializeParty(b.party)
  {
  }

  /** Neither `question.completed` nor `question.created` carries a top-level answers list on
      the wire: the answers of the internal `question.completed` move inside the question. */
  lemma SerializeQuestionEventsEmbedAnswers(e: Event)
    requires e.QuestionCompleted? || e.QuestionCreated?
    ensures SerializeEvent(e).SerializedQuestionCompleted? || SerializeEvent(e).SerializedQuestionCreated?
    ensures SerializeEvent(e).question.answers == SerializeAnswers(if e.QuestionCompleted? then e.answers else [])
  {
  }
}
