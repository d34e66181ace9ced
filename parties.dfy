/** lib/atm/parties.ts: asking every party one question. The database is modelled by what
    its reads return and by the values it assigns on insert; the OpenAI run stream of each
    party by the sequence of events it delivers; `ix`'s `merge` by an arbitrary interleaving
    of the per-party event sequences (see MergedStream). */
module Parties {
  import opened Wrappers
  import opened Types
  import opened MergedStream

  datatype AskError =
    | NoParties
    | PartyNotFound(slug: string)
    | NoDefaultPartyAssistant
    | InvalidContent
    | NoFinalMessage
    | StreamFailed(message: string)

  /** `Party & { defaultPartyAssistant: PartyAssistant | null }` as `getPartyBySlug` reads it. */
  datatype PartyRecord = PartyRecord(party: Party, defaultPartyAssistant: Option<PartyAssistant>)

  /** The parties table, looked up by slug. */
  type PartyRegistry = map<string, PartyRecord>

  /** What the store assigns to an inserted row: its serial id and its `defaultNow()` time. */
  datatype Assigned = Assigned(id: int, createdAt: Timestamp)

  /** The text of a message part, and its annotations. */
  datatype TextContent = TextContent(value: string, annotations: Option<seq<Annotation>>)

  /** One part of a message's content: text, or another kind (image file, image URL, ...). */
  datatype ContentPart = TextPart(text: TextContent) | OtherPart(kind: string)

  /** An event of a party's Assistants run stream: only `thread.message.delta` carries data
      this code reads. */
  datatype StreamEvent = MessageDelta(content: seq<ContentPart>) | OtherStreamEvent(name: string)

  datatype Message = Message(content: seq<ContentPart>)

  /** One party's generation as its answer iterator observes it: the stream's events, then
      either a fault thrown by the stream or the run's final messages. */
  datatype Generation = Generation(events: seq<StreamEvent>, fault: Option<string>, finalMessages: seq<Message>)

  /** What an async generator produces: the events it yielded, then a normal end (`None`) or
      the error it threw. */
  datatype Trace = Trace(events: seq<Event>, error: Option<AskError>)

  // ----- getPartyBySlug -----

  /** `getPartyBySlug`: a slug the table does not hold is a `NotFoundError`. */
  function GetPartyBySlug(registry: PartyRegistry, slug: string): (r: Result<PartyRecord, AskError>)
    ensures r.Success? <==> slug in registry
    ensures r.Success? ==> r.value == registry[slug]
    ensures r.Failure? ==> r.error == PartyNotFound(slug)
  {
    if slug in registry then Success(registry[slug]) else Failure(PartyNotFound(slug))
  }

  // ----- One party's answer -----

  /** The check applied to a delta's and to the final message's content: the first part must
      be text with a non-empty value. */
  function FirstText(parts: seq<ContentPart>): (r: Result<TextContent, AskError>)
    ensures r.Success? <==> |parts| > 0 && parts[0].TextPart? && parts[0].text.value != ""
    ensures r.Success? ==> r.value == parts[0].text
    ensures r.Failure? ==> r.error == InvalidContent
  {
    if |parts| > 0 && parts[0].TextPart? && parts[0].text.value != "" then Success(parts[0].text)
    else Failure(InvalidContent)
  }

  /** `messages[0].content?.[0]` checked as above; with no message at all, reading
      `messages[0].content` throws. */
  function FinalText(messages: seq<Message>): (r: Result<TextContent, AskError>)
    ensures |messages| == 0 ==> r == Failure(NoFinalMessage)
    ensures |messages| > 0 ==> r == FirstText(messages[0].content)
  {
    if |messages| == 0 then Failure(NoFinalMessage) else FirstText(messages[0].content)
  }

  /** The answer row inserted for a party: empty, not completed, at the party's position. */
  function NewAnswerRow(question: Question, assistant: PartyAssistant, index: nat, slot: Assigned): (r: Answer)
    ensures r.id == slot.id && r.questionId == question.id && r.partyAssistantId == assistant.id
    ensures r.content == "" && !r.completed && r.index == index
  {
    Answer(slot.id, slot.createdAt, question.id, assistant.id, "", None, None, false, 0, index)
  }

  /** The answer row after the final update: the final text and annotations, completed. */
  function CompletedAnswerRow(row: Answer, text: TextContent): (r: Answer)
    ensures r.content == text.value && r.annotations == text.annotations && r.completed
    ensures r.(content := row.content, annotations := row.annotations, completed := row.completed) == row
  {
    row.(content := text.value, annotations := text.annotations, completed := true)
  }

  /** The `answer.delta` events of a run stream, up to the first invalid delta. */
  function DeltaEvents(answerId: int, stream: seq<StreamEvent>): (t: Trace)
    ensures |t.events| <= |stream|
    ensures t.error.None? <==>
      forall i :: 0 <= i < |stream| && stream[i].MessageDelta? ==> FirstText(stream[i].content).Success?
    decreases |stream|
  {
    if |stream| == 0 then Trace([], None)
    else match stream[0]
      case OtherStreamEvent(_) => DeltaEvents(answerId, stream[1..])
      case MessageDelta(parts) =>
        match FirstText(parts)
        case Failure(e) => Trace([], Some(e))
        case Success(text) =>
          var rest := DeltaEvents(answerId, stream[1..]);
          Trace([AnswerDelta(answerId, text.value, text.annotations)] + rest.events, rest.error)
  }

  /** `createAnswerForQuestionAndPartyIterator`, as the events it yields and how it ends. */
  function PartyTrace(question: Question, partySlug: string, index: nat, registry: PartyRegistry,
                      slot: Assigned, generation: Generation): (r: Trace)
    ensures r.error.None? <==>
      && partySlug in registry && registry[partySlug].defaultPartyAssistant.Some?
      && DeltaEvents(slot.id, generation.events).error.None? && generation.fault.None?
      && FinalText(generation.finalMessages).Success?
    ensures r.error.None? ==> |r.events| >= 2 && r.events[|r.events| - 1].AnswerCompleted?
  {
    match GetPartyBySlug(registry, partySlug)
    case Failure(e) => Trace([], Some(e))
    case Success(record) =>
      if record.defaultPartyAssistant.None? then Trace([], Some(NoDefaultPartyAssistant))
      else
        var row := NewAnswerRow(question, record.defaultPartyAssistant.value, index, slot);
        var yielded := [AnswerStarted(PartyAnswer(row, record.party))] + DeltaEvents(row.id, generation.events).events;
        if DeltaEvents(row.id, generation.events).error.Some? then
          Trace(yielded, DeltaEvents(row.id, generation.events).error)
        else if generation.fault.Some? then
          Trace(yielded, Some(StreamFailed(generation.fault.value)))
        else match FinalText(generation.finalMessages)
          case Failure(e) => Trace(yielded, Some(e))
          case Success(text) =>
            Trace(yielded + [AnswerCompleted(PartyAnswer(CompletedAnswerRow(row, text), record.party))], None)
  }

  /** The `for await` loop over a party's run stream: every `thread.message.delta` is checked
      and relayed as an `answer.delta`; other stream events are skipped; an invalid delta
      stops the loop with an error. */
  method RelayDeltas(answerId: int, stream: seq<StreamEvent>) returns (deltas: seq<Event>, error: Option<AskError>)
    ensures Trace(deltas, error) == DeltaEvents(answerId, stream)
  {
    deltas := [];
    var i := 0;
    while i < |stream|
      invariant 0 <= i <= |stream|
      invariant var rest := DeltaEvents(answerId, stream[i..]);
        DeltaEvents(answerId, stream) == Trace(deltas + rest.events, rest.error)
    {
      assert stream[i..][1..] == stream[i + 1..];
      if stream[i].MessageDelta? {
        var text := FirstText(stream[i].content);
        if text.Failure? {
          return deltas, Some(text.error);
        }
        deltas := deltas + [AnswerDelta(answerId, text.value.value, text.value.annotations)];
      }
      i := i + 1;
    }
    assert deltas + [] == deltas;
    error := None;
  }

  /** `createAnswerForQuestionAndPartyIterator`: resolve the party, insert its answer row,
      announce it, relay the run stream's deltas, then store and announce the final text. */
  method AnswerForParty(question: Question, partySlug: string, index: nat, registry: PartyRegistry,
                        slot: Assigned, generation: Generation) returns (t: Trace)
    ensures t == PartyTrace(question, partySlug, index, registry, slot, generation)
  {
    var found := GetPartyBySlug(registry, partySlug);
    if found.Failure? {
      return Trace([], Some(found.error));
    }
    var record := found.value;
    if record.defaultPartyAssistant.None? {
      return Trace([], Some(NoDefaultPartyAssistant));
    }
    var row := NewAnswerRow(question, record.defaultPartyAssistant.value, index, slot);
    var deltas, error := RelayDeltas(row.id, generation.events);
    var events := [AnswerStarted(PartyAnswer(row, record.party))] + deltas;
    if error.Some? {
      return Trace(events, error);
    }
    if generation.fault.Some? {
      return Trace(events, Some(StreamFailed(generation.fault.value)));
    }
    var final := FinalText(generation.finalMessages);
    if final.Failure? {
      return Trace(events, Some(final.error));
    }
    t := Trace(events + [AnswerCompleted(PartyAnswer(CompletedAnswerRow(row, final.value), record.party))], None);
  }

  // ----- Facts about one party's answer -----

  function IsStarted(e: Event): bool { e.AnswerStarted? }
  function IsDelta(e: Event): bool { e.AnswerDelta? }
  function IsCompleted(e: Event): bool { e.AnswerCompleted? }
  function IsQuestionEvent(e: Event): bool { e.QuestionCreated? || e.QuestionCompleted? }
  function IsMessageDelta(e: StreamEvent): bool { e.MessageDelta? }

  /** The relayed deltas all belong to the answer, and when the stream is valid there is one
      per `thread.message.delta` event and none for any other stream event. */
  lemma {:induction false} DeltaEventsShape(answerId: int, stream: seq<StreamEvent>)
    ensures var t := DeltaEvents(answerId, stream);
      && (forall i :: 0 <= i < |t.events| ==> t.events[i].AnswerDelta? && t.events[i].answerId == answerId)
      && (t.error.None? ==> |t.events| == Count(stream, IsMessageDelta))
      && (t.error.Some? ==> t.error.value == InvalidContent)
    decreases |stream|
  {
    if |stream| > 0 {
      DeltaEventsShape(answerId, stream[1..]);
      assert stream == [stream[0]] + stream[1..];
      CountAppend([stream[0]], stream[1..], IsMessageDelta);
      assert Count([stream[0]], IsMessageDelta) == if stream[0].MessageDelta? then 1 else 0;
    }
  }

  /** A party's answer that runs to the end yields one `answer.started`, then one
      `answer.delta` per `thread.message.delta` stream event, then one `answer.completed`;
      every started or completed answer sits at the party's index and names the party, and
      every delta names the answer's id. */
  lemma PartyTraceShape(question: Question, partySlug: string, index: nat, registry: PartyRegistry,
                        slot: Assigned, generation: Generation)
    ensures var t := PartyTrace(question, partySlug, index, registry, slot, generation);
      && (forall e :: e in t.events ==> e.IsAnswerEvent())
      && (forall e :: e in t.events && !e.AnswerDelta? ==>
            partySlug in registry && e.answer.party == registry[partySlug].party &&
            e.answer.answer.index == index && e.answer.answer.id == slot.id)
      && (forall e :: e in t.events && e.AnswerDelta? ==> e.answerId == slot.id)
      && (forall e :: e in t.events && e.AnswerCompleted? ==> t.error.None?)
      && (t.error.None? ==>
            && |t.events| == Count(generation.events, IsMessageDelta) + 2
            && t.events[0].AnswerStarted?
            && t.events[|t.events| - 1].AnswerCompleted?
            && (forall i :: 0 < i < |t.events| - 1 ==> t.events[i].AnswerDelta?))
  {
    DeltaEventsShape(slot.id, generation.events);
  }

  /** The errors of a party's answer: an unknown slug and a party without a default assistant
      fail before anything is yielded; an invalid final message means the answer is never
      announced as completed. */
  lemma PartyTraceErrors(question: Question, partySlug: string, index: nat, registry: PartyRegistry,
                         slot: Assigned, generation: Generation)
    ensures var t := PartyTrace(question, partySlug, index, registry, slot, generation);
      && (partySlug !in registry ==> t == Trace([], Some(PartyNotFound(partySlug))))
      && (partySlug in registry && registry[partySlug].defaultPartyAssistant.None? ==>
            t == Trace([], Some(NoDefaultPartyAssistant)))
      && (FinalText(generation.finalMessages).Failure? ==>
            t.error.Some? && Count(t.events, IsCompleted) == 0)
      && (partySlug in registry && registry[partySlug].defaultPartyAssistant.Some? ==>
            |t.events| >= 1 && t.events[0].AnswerStarted?)
  {
    var t := PartyTrace(question, partySlug, index, registry, slot, generation);
    PartyTraceShape(question, partySlug, index, registry, slot, generation);
    if FinalText(generation.finalMessages).Failure? {
      forall i | 0 <= i < |t.events| ensures !IsCompleted(t.events[i]) {
        assert t.events[i] in t.events;
      }
      CountZero(t.events, IsCompleted);
    }
  }

  /** A started answer, then deltas, then its completion: one `answer.started`, one
      `answer.completed` and no question event. */
  lemma AnswerShapeCounts(events: seq<Event>)
    requires |events| >= 2 && events[0].AnswerStarted? && events[|events| - 1].AnswerCompleted?
    requires forall i :: 0 < i < |events| - 1 ==> events[i].AnswerDelta?
    ensures Count(events, IsStarted) == 1 && Count(events, IsCompleted) == 1 && Count(events, IsQuestionEvent) == 0
  {
    CountEnds(events, IsStarted);
    CountEnds(events, IsCompleted);
    CountEnds(events, IsQuestionEvent);
  }

  /** A party's answer that runs to the end holds exactly one `answer.started`, exactly one
      `answer.completed` and no question event. */
  lemma PartyTraceCounts(question: Question, partySlug: string, index: nat, registry: PartyRegistry,
                         slot: Assigned, generation: Generation)
    requires PartyTrace(question, partySlug, index, registry, slot, generation).error.None?
    ensures var events := PartyTrace(question, partySlug, index, registry, slot, generation).events;
      Count(events, IsStarted) == 1 && Count(events, IsCompleted) == 1 && Count(events, IsQuestionEvent) == 0
  {
    PartyTraceShape(question, partySlug, index, registry, slot, generation);
    AnswerShapeCounts(PartyTrace(question, partySlug, index, registry, slot, generation).events);
  }

  // ----- The question and its merged answers -----

  /** The question row `createQuestion` inserts for a user: not public, no votes, not
      completed, under a fresh slug. */
  function NewQuestionRow(userId: string, content: string, slot: Assigned, slug: string): (q: Question)
    ensures q.userId == userId && q.content == content && q.slug == slug && q.id == slot.id
    ensures !q.completed && !q.public && q.votes == 0
  {
    Question(slot.id, slug, slot.createdAt, content, false, 0, userId, false)
  }

  /** The answers of the `answer.completed` events of a merged stream, in arrival order. */
  function CompletedAnswers(merged: seq<Event>): (r: seq<PartyAnswer>)
    ensures |r| == Count(merged, IsCompleted)
    decreases |merged|
  {
    if |merged| == 0 then []
    else
      var n := |merged| - 1;
      CompletedAnswers(merged[..n]) + (if merged[n].AnswerCompleted? then [merged[n].answer] else [])
  }

  /** Collecting is done in arrival order: the answers of a later stretch of the stream come
      after those of an earlier one. */
  lemma {:induction false} CompletedAnswersAppend(a: seq<Event>, b: seq<Event>)
    ensures CompletedAnswers(a + b) == CompletedAnswers(a) + CompletedAnswers(b)
    decreases |b|
  {
    if |b| == 0 {
      assert a + b == a;
    } else {
      var n := |b| - 1;
      assert (a + b)[..|a + b| - 1] == a + b[..n];
      CompletedAnswersAppend(a, b[..n]);
    }
  }

  /** An answer is collected exactly when an `answer.completed` event carried it. */
  lemma {:induction false} CompletedAnswersMembership(merged: seq<Event>, x: PartyAnswer)
    ensures x in CompletedAnswers(merged) <==> AnswerCompleted(x) in merged
    decreases |merged|
  {
    if |merged| > 0 {
      var n := |merged| - 1;
      CompletedAnswersMembership(merged[..n], x);
      assert merged == merged[..n] + [merged[n]];
    }
  }

  /** `createAndAnswerQuestionForPartiesIterator`, as the events it yields and how it ends,
      given the merged answer events and whether the merge threw after them. */
  function AskTrace(userId: string, content: string, partySlugs: seq<string>, slot: Assigned,
                    questionSlug: string, merged: seq<AnswerEvent>, mergeFault: Option<AskError>): (r: Trace)
    ensures r.error.None? <==> |partySlugs| > 0 && mergeFault.None?
    ensures r.error.None? ==>
      |r.events| >= 2 && r.events[|r.events| - 1].QuestionCompleted? &&
      r.events[|r.events| - 1].answers == CompletedAnswers(merged)
    ensures r.error.Some? ==> forall i :: 0 <= i < |r.events| ==> !r.events[i].QuestionCompleted?
  {
    if |partySlugs| == 0 then Trace([], Some(NoParties))
    else
      var question := NewQuestionRow(userId, content, slot, questionSlug);
      var yielded := [QuestionCreated(question)] + merged;
      if mergeFault.Some? then Trace(yielded, mergeFault)
      else Trace(yielded + [QuestionCompleted(question.(completed := true), CompletedAnswers(merged))], None)
  }

  /** `createAndAnswerQuestionForPartiesIterator`: refuse an empty party list, create the
      question and announce it, relay every merged answer event while collecting the completed
      answers, then mark the question completed and announce it with those answers. */
  method CreateAndAnswerQuestion(userId: string, content: string, partySlugs: seq<string>, slot: Assigned,
                                 questionSlug: string, merged: seq<AnswerEvent>, mergeFault: Option<AskError>)
    returns (t: Trace)
    ensures t == AskTrace(userId, content, partySlugs, slot, questionSlug, merged, mergeFault)
  {
    if |partySlugs| == 0 {
      return Trace([], Some(NoParties));
    }
    var question := NewQuestionRow(userId, content, slot, questionSlug);
    var events: seq<Event> := [QuestionCreated(question)];
    var answers: seq<PartyAnswer> := [];
    var i := 0;
    while i < |merged|
      invariant 0 <= i <= |merged|
      invariant events == [QuestionCreated(question)] + merged[..i]
      invariant answers == CompletedAnswers(merged[..i])
    {
      assert merged[..i + 1][..i] == merged[..i];
      events := events + [merged[i]];
      if merged[i].AnswerCompleted? {
        answers := answers + [merged[i].answer];
      }
      i := i + 1;
    }
    assert merged[..i] == merged;
    if mergeFault.Some? {
      return Trace(events, mergeFault);
    }
    t := Trace(events + [QuestionCompleted(question.(completed := true), answers)], None);
  }

  /** The shape of an ask: nothing at all without parties; otherwise `question.created` first,
      then the merged answer events unchanged and in merged order, then, only when the merge
      ran out without throwing, `question.completed` last with the collected answers. */
  lemma AskTraceShape(userId: string, content: string, partySlugs: seq<string>, slot: Assigned,
                      questionSlug: string, merged: seq<AnswerEvent>, mergeFault: Option<AskError>)
    ensures var t := AskTrace(userId, content, partySlugs, slot, questionSlug, merged, mergeFault);
      var question := NewQuestionRow(userId, content, slot, questionSlug);
      && (|partySlugs| == 0 ==> t.events == [] && t.error == Some(NoParties))
      && (|partySlugs| > 0 ==>
            && t.error == mergeFault
            && |t.events| == |merged| + (if mergeFault.None? then 2 else 1)
            && t.events[0] == QuestionCreated(question)
            && t.events[1..|merged| + 1] == merged
            && (forall i :: 0 < i <= |merged| ==> !IsQuestionEvent(t.events[i]))
            && (mergeFault.None? ==>
                  t.events[|t.events| - 1] == QuestionCompleted(question.(completed := true), CompletedAnswers(merged))))
  {
    if |partySlugs| > 0 {
      var t := AskTrace(userId, content, partySlugs, slot, questionSlug, merged, mergeFault);
      assert forall i :: 0 < i <= |merged| ==> t.events[i] == merged[i - 1];
    }
  }

  // ----- An ask in which every party answers -----

  /** The event sequences of the parties' answers, party `p` answering at index `p`. */
  function PartyTraces(question: Question, partySlugs: seq<string>, registry: PartyRegistry,
                       slots: seq<Assigned>, generations: seq<Generation>): (r: seq<seq<Event>>)
    requires |slots| == |generations| == |partySlugs|
    ensures |r| == |partySlugs|
  {
    seq(|partySlugs|, p requires 0 <= p < |partySlugs| =>
      PartyTrace(question, partySlugs[p], p, registry, slots[p], generations[p]).events)
  }

  /** Merging K complete answers, each one `answer.started` and one `answer.completed` and no
      question event, yields K of each answer event and no question event. */
  lemma MergedAnswerCounts(merged: seq<Event>, origin: seq<nat>, traces: seq<seq<Event>>)
    requires IsMergeOf(merged, origin, traces)
    requires forall p :: 0 <= p < |traces| ==>
      Count(traces[p], IsStarted) == 1 && Count(traces[p], IsCompleted) == 1 && Count(traces[p], IsQuestionEvent) == 0
    ensures Count(merged, IsStarted) == |traces| && Count(merged, IsCompleted) == |traces|
    ensures Count(merged, IsQuestionEvent) == 0
  {
    SumEach(Tallies(traces, IsStarted), 1);
    SumEach(Tallies(traces, IsCompleted), 1);
    SumEach(Tallies(traces, IsQuestionEvent), 0);
    MergePreservesCounts(merged, origin, traces, IsStarted);
    MergePreservesCounts(merged, origin, traces, IsCompleted);
    MergePreservesCounts(merged, origin, traces, IsQuestionEvent);
  }

  /** When every one of the K parties answers to the end and the merge interleaves their
      answers without throwing, the ask yields exactly one `question.created` (first), K
      `answer.started`, K `answer.completed` and one `question.completed` (last); the latter
      carries K answers whose indices are exactly the parties' positions 0..K-1. */
  lemma AskWhenEveryPartyAnswers(userId: string, content: string, partySlugs: seq<string>, slot: Assigned,
                                 questionSlug: string, registry: PartyRegistry, slots: seq<Assigned>,
                                 generations: seq<Generation>, merged: seq<AnswerEvent>, origin: seq<nat>)
    requires |partySlugs| > 0 && |slots| == |generations| == |partySlugs|
    requires EveryPartyAnswers(NewQuestionRow(userId, content, slot, questionSlug), partySlugs, registry, slots, generations)
    requires IsMergeOf<Event>(merged, origin, PartyTraces(NewQuestionRow(userId, content, slot, questionSlug), partySlugs, registry, slots, generations))
    ensures var t := AskTrace(userId, content, partySlugs, slot, questionSlug, merged, None);
      var k := |partySlugs|;
      && t.error.None?
      && t.events[0].QuestionCreated? && t.events[|t.events| - 1].QuestionCompleted?
      && Count(t.events, IsQuestionEvent) == 2
      && Count(t.events, IsStarted) == k
      && Count(t.events, IsCompleted) == k
      && |t.events[|t.events| - 1].answers| == k
      && AnswerIndices(t.events[|t.events| - 1].answers) == Positions(k)
  {
    var question := NewQuestionRow(userId, content, slot, questionSlug);
    var k := |partySlugs|;
    var traces := PartyTraces(question, partySlugs, registry, slots, generations);
    var t := AskTrace(userId, content, partySlugs, slot, questionSlug, merged, None);
    AskTraceShape(userId, content, partySlugs, slot, questionSlug, merged, None);
    forall p | 0 <= p < k
      ensures Count(traces[p], IsStarted) == 1 && Count(traces[p], IsCompleted) == 1
      ensures Count(traces[p], IsQuestionEvent) == 0
    {
      PartyTraceCounts(question, partySlugs[p], p, registry, slots[p], generations[p]);
    }
    MergedAnswerCounts(merged, origin, traces);
    var created := [QuestionCreated(question)];
    var last := [t.events[|t.events| - 1]];
    assert t.events == created + merged + last;
    CountAppend(created + merged, last, IsStarted);
    CountAppend(created, merged, IsStarted);
    CountAppend(created + merged, last, IsCompleted);
    CountAppend(created, merged, IsCompleted);
    CountAppend(created + merged, last, IsQuestionEvent);
    CountAppend(created, merged, IsQuestionEvent);
    CompletedAnswersIndices(question, partySlugs, registry, slots, generations, merged, origin);
  }

  /** The party iterators as traces, party `p` at index `p`. */
  function PartyRuns(question: Question, partySlugs: seq<string>, registry: PartyRegistry,
                     slots: seq<Assigned>, generations: seq<Generation>): (r: seq<Trace>)
    requires |slots| == |generations| == |partySlugs|
    ensures |r| == |partySlugs|
    ensures forall p :: 0 <= p < |partySlugs| ==>
      r[p].events == PartyTraces(question, partySlugs, registry, slots, generations)[p]
  {
    seq(|partySlugs|, p requires 0 <= p < |partySlugs| =>
      PartyTrace(question, partySlugs[p], p, registry, slots[p], generations[p]))
  }

  /** A run of ix's `merge` over the party iterators, described by what it relayed and how it
      ended. Each party's relayed events are a prefix of what it yields. When the merge ends
      normally it has relayed every party completely and no party threw. When it throws, it
      rethrows the error of a party whose events it had relayed in full. Which interleaving and
      which failing party come first is up to the scheduler. */
  ghost predicate IsMergeRun(merged: seq<Event>, origin: seq<nat>, mergeFault: Option<AskError>, runs: seq<Trace>) {
    && |origin| == |merged|
    && (forall i :: 0 <= i < |origin| ==> origin[i] < |runs|)
    && (forall p :: 0 <= p < |runs| ==> Project(merged, origin, p) <= runs[p].events)
    && (mergeFault.None? ==>
          forall p :: 0 <= p < |runs| ==> Project(merged, origin, p) == runs[p].events && runs[p].error.None?)
    && (mergeFault.Some? ==>
          exists p :: 0 <= p < |runs| && runs[p].error == mergeFault && Project(merged, origin, p) == runs[p].events)
  }

  /** A failing party aborts the whole ask: the merge rethrows, the ask ends with that error and
      `question.completed` is never yielded. */
  lemma FailingPartyAbortsAsk(userId: string, content: string, partySlugs: seq<string>, slot: Assigned,
                              questionSlug: string, registry: PartyRegistry, slots: seq<Assigned>,
                              generations: seq<Generation>, merged: seq<AnswerEvent>, origin: seq<nat>,
                              mergeFault: Option<AskError>, p: nat)
    requires |slots| == |generations| == |partySlugs| && p < |partySlugs|
    requires IsMergeRun(merged, origin, mergeFault,
                        PartyRuns(NewQuestionRow(userId, content, slot, questionSlug), partySlugs, registry, slots, generations))
    requires PartyTrace(NewQuestionRow(userId, content, slot, questionSlug), partySlugs[p], p, registry, slots[p], generations[p]).error.Some?
    ensures var t := AskTrace(userId, content, partySlugs, slot, questionSlug, merged, mergeFault);
      && t.error.Some? && t.error == mergeFault
      && (exists q :: 0 <= q < |partySlugs| &&
            PartyTrace(NewQuestionRow(userId, content, slot, questionSlug), partySlugs[q], q, registry, slots[q], generations[q]).error == t.error)
      && forall i :: 0 <= i < |t.events| ==> !t.events[i].QuestionCompleted?
  {
    var question := NewQuestionRow(userId, content, slot, questionSlug);
    var runs := PartyRuns(question, partySlugs, registry, slots, generations);
    assert runs[p].error.Some?;
    var t := AskTrace(userId, content, partySlugs, slot, questionSlug, merged, mergeFault);
    assert mergeFault.Some?;
    var q :| 0 <= q < |runs| && runs[q].error == mergeFault && Project<Event>(merged, origin, q) == runs[q].events;
    assert t.events == [QuestionCreated(question)] + merged;
    forall i | 0 <= i < |t.events| ensures !t.events[i].QuestionCompleted? {
      if i > 0 {
        assert t.events[i] == merged[i - 1];
      }
    }
  }

  /** An ask that completes had every party answer: a merge run that ends without a fault is a
      faithful merge of the parties' whole traces, none of which failed. */
  lemma CompletedAskHadEveryPartyAnswer(userId: string, content: string, partySlugs: seq<string>, slot: Assigned,
                                        questionSlug: string, registry: PartyRegistry, slots: seq<Assigned>,
                                        generations: seq<Generation>, merged: seq<AnswerEvent>, origin: seq<nat>,
                                        mergeFault: Option<AskError>)
    requires |slots| == |generations| == |partySlugs|
    requires IsMergeRun(merged, origin, mergeFault,
                        PartyRuns(NewQuestionRow(userId, content, slot, questionSlug), partySlugs, registry, slots, generations))
    requires AskTrace(userId, content, partySlugs, slot, questionSlug, merged, mergeFault).error.None?
    ensures |partySlugs| > 0 && mergeFault.None?
    ensures EveryPartyAnswers(NewQuestionRow(userId, content, slot, questionSlug), partySlugs, registry, slots, generations)
    ensures IsMergeOf<Event>(merged, origin, PartyTraces(NewQuestionRow(userId, content, slot, questionSlug), partySlugs, registry, slots, generations))
  {
    var question := NewQuestionRow(userId, content, slot, questionSlug);
    var runs := PartyRuns(question, partySlugs, registry, slots, generations);
    var traces := PartyTraces(question, partySlugs, registry, slots, generations);
    forall p | 0 <= p < |partySlugs|
      ensures PartyTrace(question, partySlugs[p], p, registry, slots[p], generations[p]).error.None?
      ensures Project<Event>(merged, origin, p) == traces[p]
    {
      assert runs[p] == PartyTrace(question, partySlugs[p], p, registry, slots[p], generations[p]);
    }
  }


  /** The indices of a list of answers. */
  function AnswerIndices(answers: seq<PartyAnswer>): set<int> {
    set a | a in answers :: a.answer.index
  }

  /** The positions 0..k-1 of a list of k parties. */
  function Positions(k: nat): (r: set<int>)
    ensures forall p :: p in r <==> 0 <= p < k
  {
    if k == 0 then {} else Positions(k - 1) + {k - 1}
  }

  /** Every party's answer runs to the end. */
  ghost predicate EveryPartyAnswers(question: Question, partySlugs: seq<string>, registry: PartyRegistry,
                                    slots: seq<Assigned>, generations: seq<Generation>)
    requires |slots| == |generations| == |partySlugs|
  {
    forall p :: 0 <= p < |partySlugs| ==>
      PartyTrace(question, partySlugs[p], p, registry, slots[p], generations[p]).error.None?
  }

  /** An answer collected from the merge sits at the position of the party that gave it. */
  lemma CollectedAnswerIndex(question: Question, partySlugs: seq<string>, registry: PartyRegistry,
                             slots: seq<Assigned>, generations: seq<Generation>, merged: seq<Event>,
                             origin: seq<nat>, a: PartyAnswer)
    requires |slots| == |generations| == |partySlugs|
    requires IsMergeOf<Event>(merged, origin, PartyTraces(question, partySlugs, registry, slots, generations))
    requires a in CompletedAnswers(merged)
    ensures 0 <= a.answer.index < |partySlugs|
  {
    var traces := PartyTraces(question, partySlugs, registry, slots, generations);
    CompletedAnswersMembership(merged, a);
    var i :| 0 <= i < |merged| && merged[i] == AnswerCompleted(a);
    MergedElementFromOrigin<Event>(merged, origin, i);
    var p := origin[i];
    assert 0 <= p < |traces|;
    assert Project<Event>(merged, origin, p) == traces[p];
    PartyTraceShape(question, partySlugs[p], p, registry, slots[p], generations[p]);
    assert AnswerCompleted(a) in PartyTrace(question, partySlugs[p], p, registry, slots[p], generations[p]).events;
  }

  /** The answer of each party that answers to the end is collected from the merge. */
  lemma PartyAnswerCollected(question: Question, partySlugs: seq<string>, registry: PartyRegistry,
                             slots: seq<Assigned>, generations: seq<Generation>, merged: seq<Event>,
                             origin: seq<nat>, p: nat)
    requires |slots| == |generations| == |partySlugs| && p < |partySlugs|
    requires PartyTrace(question, partySlugs[p], p, registry, slots[p], generations[p]).error.None?
    requires IsMergeOf<Event>(merged, origin, PartyTraces(question, partySlugs, registry, slots, generations))
    ensures p in AnswerIndices(CompletedAnswers(merged))
  {
    var traces := PartyTraces(question, partySlugs, registry, slots, generations);
    var tp := PartyTrace(question, partySlugs[p], p, registry, slots[p], generations[p]);
    PartyTraceShape(question, partySlugs[p], p, registry, slots[p], generations[p]);
    var e := tp.events[|tp.events| - 1];
    assert e in traces[p];
    ProducerElementInMerge<Event>(merged, origin, traces, p, e);
    CompletedAnswersMembership(merged, e.answer);
  }

  /** The indices of the answers collected from a merge of every party's complete answer are
      exactly the parties' positions. */
  lemma CompletedAnswersIndices(question: Question, partySlugs: seq<string>, registry: PartyRegistry,
                                slots: seq<Assigned>, generations: seq<Generation>, merged: seq<Event>,
                                origin: seq<nat>)
    requires |slots| == |generations| == |partySlugs|
    requires EveryPartyAnswers(question, partySlugs, registry, slots, generations)
    requires IsMergeOf<Event>(merged, origin, PartyTraces(question, partySlugs, registry, slots, generations))
    ensures AnswerIndices(CompletedAnswers(merged)) == Positions(|partySlugs|)
  {
    var collected := CompletedAnswers(merged);
    forall i | i in AnswerIndices(collected) ensures i in Positions(|partySlugs|) {
      var a :| a in collected && a.answer.index == i;
      CollectedAnswerIndex(question, partySlugs, registry, slots, generations, merged, origin, a);
    }
    forall p | p in Positions(|partySlugs|) ensures p in AnswerIndices(collected) {
      PartyAnswerCollected(question, partySlugs, registry, slots, generations, merged, origin, p);
    }
  }

  // ----- queryQuestions -----

  /** `QuestionsQuery`: every field optional; `completed` may also be null (both `None`). */
  datatype QuestionsQuery = QuestionsQuery(
    userId: Option<string>,
    ids: Option<seq<int>>,
    slugs: Option<seq<string>>,
    completed: Option<bool>)

  /** One condition of the `where` clause. */
  datatype Condition = UserIs(userId: string) | IdIn(ids: seq<int>) | SlugIn(slugs: seq<string>) | CompletedIs(completed: bool)

  /** The `conditions` list, pushed in this order: a user id only when truthy (non-empty), the
      id and slug lists whenever given, the completion flag only when it is a boolean. */
  function Conditions(query: QuestionsQuery): (r: seq<Condition>)
    ensures forall c :: c in r ==>
      && (c.UserIs? ==> query.userId == Some(c.userId) && c.userId != "")
      && (c.IdIn? ==> query.ids == Some(c.ids))
      && (c.SlugIn? ==> query.slugs == Some(c.slugs))
      && (c.CompletedIs? ==> query.completed == Some(c.completed))
    ensures (exists c :: c in r && c.UserIs?) <==> query.userId.Some? && query.userId.value != ""
    ensures IdIn(query.ids.GetOr([])) in r <==> query.ids.Some?
    ensures SlugIn(query.slugs.GetOr([])) in r <==> query.slugs.Some?
    ensures forall b :: CompletedIs(b) in r <==> query.completed == Some(b)
  {
    var byUser := if query.userId.Some? && query.userId.value != "" then [UserIs(query.userId.value)] else [];
    var byIds := if query.ids.Some? then [IdIn(query.ids.value)] else [];
    var bySlugs := if query.slugs.Some? then [SlugIn(query.slugs.value)] else [];
    var byCompletion := if query.completed.Some? then [CompletedIs(query.completed.value)] else [];
    assert forall c :: c in byUser + byIds + bySlugs + byCompletion <==>
      c in byUser || c in byIds || c in bySlugs || c in byCompletion;
    assert byUser != [] ==> byUser[0] in byUser + byIds + bySlugs + byCompletion;
    byUser + byIds + bySlugs + byCompletion
  }

  predicate Holds(c: Condition, q: Question) {
    match c
    case UserIs(userId) => q.userId == userId
    case IdIn(ids) => q.id in ids
    case SlugIn(slugs) => q.slug in slugs
    case CompletedIs(b) => q.completed == b
  }

  /** `and(...conditions)`; with no condition there is no filter. */
  predicate Matches(conditions: seq<Condition>, q: Question) {
    forall c :: c in conditions ==> Holds(c, q)
  }

  /** The filter in terms of the query alone: a question passes exactly when it has the
      requested (non-empty) user id, an id among the requested ids, a slug among the requested
      slugs and the requested completion flag, each only when requested. */
  lemma MatchesQuery(query: QuestionsQuery, q: Question)
    ensures Matches(Conditions(query), q) <==>
      && (query.userId.Some? && query.userId.value != "" ==> q.userId == query.userId.value)
      && (query.ids.Some? ==> q.id in query.ids.value)
      && (query.slugs.Some? ==> q.slug in query.slugs.value)
      && (query.completed.Some? ==> q.completed == query.completed.value)
  {
    var r := Conditions(query);
    if query.userId.Some? && query.userId.value != "" {
      var c :| c in r && c.UserIs?;
      assert c == UserIs(query.userId.value);
    }
    if query.ids.Some? {
      assert IdIn(query.ids.value) in r;
    }
    if query.slugs.Some? {
      assert SlugIn(query.slugs.value) in r;
    }
    if query.completed.Some? {
      assert CompletedIs(query.completed.value) in r;
    }
  }

  /** A row of the questions table joined with its answers, each answer joined with its party
      assistant and that assistant's party. */
  datatype StoredAnswer = StoredAnswer(answer: Answer, partyAssistant: PartyAssistant, party: Party)
  datatype StoredQuestion = StoredQuestion(question: Question, answers: seq<StoredAnswer>)

  /** `Question & { answers: (Answer & { party: Party })[] }` */
  datatype QuestionWithAnswers = QuestionWithAnswers(question: Question, answers: seq<PartyAnswer>)

  /** The reshaping of one joined answer: `partyAssistant` is replaced by its party. */
  function ReshapeAnswers(answers: seq<StoredAnswer>): (r: seq<PartyAnswer>)
    ensures |r| == |answers|
    ensures forall i :: 0 <= i < |answers| ==> r[i] == PartyAnswer(answers[i].answer, answers[i].party)
  {
    seq(|answers|, i requires 0 <= i < |answers| => PartyAnswer(answers[i].answer, answers[i].party))
  }

  /** `queryQuestions` over the rows the store holds, in the store's order: the rows matching
      the query's conditions that have at least one answer, reshaped. */
  function QueryQuestions(query: QuestionsQuery, table: seq<StoredQuestion>): (r: seq<QuestionWithAnswers>)
    ensures |r| <= |table|
    decreases |table|
  {
    if |table| == 0 then []
    else
      var row := table[0];
      var rest := QueryQuestions(query, table[1..]);
      if Matches(Conditions(query), row.question) && |row.answers| > 0 then
        [QuestionWithAnswers(row.question, ReshapeAnswers(row.answers))] + rest
      else rest
  }

  /** What `queryQuestions` returns: a question is listed exactly when a stored row with that
      question matches the query and has answers, and it is listed with that row's answers
      reshaped; a question without answers is never listed, and a given completion flag is
      always respected. */
  lemma {:induction false} QueryQuestionsMembership(query: QuestionsQuery, table: seq<StoredQuestion>, x: QuestionWithAnswers)
    ensures x in QueryQuestions(query, table) <==>
      exists row :: row in table && Matches(Conditions(query), row.question) && |row.answers| > 0 &&
        x == QuestionWithAnswers(row.question, ReshapeAnswers(row.answers))
    ensures x in QueryQuestions(query, table) ==> |x.answers| > 0
    ensures x in QueryQuestions(query, table) && query.completed.Some? ==> x.question.completed == query.completed.value
    decreases |table|
  {
    if |table| > 0 {
      QueryQuestionsMembership(query, table[1..], x);
      assert forall row :: row in table <==> row == table[0] || row in table[1..] by {
        assert table == [table[0]] + table[1..];
      }
      if x in QueryQuestions(query, table) && query.completed.Some? {
        var row :| row in table && Matches(Conditions(query), row.question) && |row.answers| > 0 &&
          x == QuestionWithAnswers(row.question, ReshapeAnswers(row.answers));
        assert CompletedIs(query.completed.value) in Conditions(query);
      }
    }
  }

  /** The store's order is kept: querying two stretches of the table lists the first
      stretch's questions first. */
  lemma {:induction false} QueryQuestionsAppend(query: QuestionsQuery, a: seq<StoredQuestion>, b: seq<StoredQuestion>)
    ensures QueryQuestions(query, a + b) == QueryQuestions(query, a) + QueryQuestions(query, b)
    decreases |a|
  {
    if |a| == 0 {
      assert a + b == b;
    } else {
      assert (a + b)[0] == a[0];
      assert (a + b)[1..] == a[1..] + b;
      QueryQuestionsAppend(query, a[1..], b);
    }
  }

  /** The listed questions with their completion flags blanked out. */
  function WithoutCompletion(listed: seq<QuestionWithAnswers>): (r: seq<QuestionWithAnswers>)
    ensures |r| == |listed|
  {
    seq(|listed|, i requires 0 <= i < |listed| => listed[i].(question := listed[i].question.(completed := false)))
  }

  /** The stored questions with their completion flags replaced by `flags`. */
  function WithFlags(table: seq<StoredQuestion>, flags: seq<bool>): (r: seq<StoredQuestion>)
    requires |flags| == |table|
    ensures |r| == |table|
  {
    seq(|table|, i requires 0 <= i < |table| => table[i].(question := table[i].question.(completed := flags[i])))
  }

  /** Without a boolean `completed`, the completion flag filters nothing: rewriting the flags
      of the stored questions changes only the flags of the listed ones. */
  lemma {:induction false} QueryIgnoresCompletionWhenNull(query: QuestionsQuery, table: seq<StoredQuestion>, flags: seq<bool>)
    requires query.completed.None? && |flags| == |table|
    ensures WithoutCompletion(QueryQuestions(query, WithFlags(table, flags))) == WithoutCompletion(QueryQuestions(query, table))
    decreases |table|
  {
    if |table| > 0 {
      var flipped := WithFlags(table, flags);
      assert flipped[1..] == WithFlags(table[1..], flags[1..]);
      QueryIgnoresCompletionWhenNull(query, table[1..], flags[1..]);
      var q, q' := table[0].question, flipped[0].question;
      ConditionsIgnoreCompletion(query, q, flags[0]);
      var head := if Matches(Conditions(query), q) && |table[0].answers| > 0 then [QuestionWithAnswers(q, ReshapeAnswers(table[0].answers))] else [];
      var head' := if Matches(Conditions(query), q') && |flipped[0].answers| > 0 then [QuestionWithAnswers(q', ReshapeAnswers(flipped[0].answers))] else [];
      WithoutCompletionAppend(head, QueryQuestions(query, table[1..]));
      WithoutCompletionAppend(head', QueryQuestions(query, flipped[1..]));
    }
  }

  /** Without a boolean `completed`, no condition looks at a question's completion flag. */
  lemma ConditionsIgnoreCompletion(query: QuestionsQuery, q: Question, flag: bool)
    requires query.completed.None?
    ensures Matches(Conditions(query), q) == Matches(Conditions(query), q.(completed := flag))
  {
    forall c | c in Conditions(query) ensures Holds(c, q) == Holds(c, q.(completed := flag)) {
      assert !c.CompletedIs?;
    }
  }

  lemma WithoutCompletionAppend(a: seq<QuestionWithAnswers>, b: seq<QuestionWithAnswers>)
    ensures WithoutCompletion(a + b) == WithoutCompletion(a) + WithoutCompletion(b)
  {
    assert forall i :: 0 <= i < |a| ==> (a + b)[i] == a[i];
    assert forall i :: |a| <= i < |a| + |b| ==> (a + b)[i] == b[i - |a|];
  }

  // ----- getQuestionById and getQuestionBySlug -----

  datatype LookupError = QuestionIdNotFound(id: int) | QuestionSlugNotFound(slug: string)

  /** A stored question that the query lists: it matches every condition and has answers. */
  predicate Listed(query: QuestionsQuery, row: StoredQuestion) {
    Matches(Conditions(query), row.question) && |row.answers| > 0
  }

  /** The first question listed comes from the first stored row the query lists. */
  lemma {:induction false} QueryQuestionsFirst(query: QuestionsQuery, table: seq<StoredQuestion>)
    ensures |QueryQuestions(query, table)| > 0 <==> exists i :: 0 <= i < |table| && Listed(query, table[i])
    ensures |QueryQuestions(query, table)| > 0 ==>
      exists i :: 0 <= i < |table| && Listed(query, table[i]) &&
        QueryQuestions(query, table)[0] == QuestionWithAnswers(table[i].question, ReshapeAnswers(table[i].answers)) &&
        forall j :: 0 <= j < i ==> !Listed(query, table[j])
    decreases |table|
  {
    if |table| > 0 && !Listed(query, table[0]) {
      QueryQuestionsFirst(query, table[1..]);
      if exists i :: 0 <= i < |table| && Listed(query, table[i]) {
        var i :| 0 <= i < |table| && Listed(query, table[i]);
        assert table[1..][i - 1] == table[i];
      }
      if |QueryQuestions(query, table)| > 0 {
        var i :| 0 <= i < |table[1..]| && Listed(query, table[1..][i]) &&
          QueryQuestions(query, table[1..])[0] == QuestionWithAnswers(table[1..][i].question, ReshapeAnswers(table[1..][i].answers)) &&
          forall j :: 0 <= j < i ==> !Listed(query, table[1..][j]);
        assert table[i + 1] == table[1..][i];
        forall j | 0 <= j < i + 1 ensures !Listed(query, table[j]) {
          if j > 0 {
            assert table[j] == table[1..][j - 1];
          }
        }
      }
    }
  }

  /** `getQuestionById`: the first question `queryQuestions({ ids: [id] })` lists, that is, the
      first stored question with the id that has answers. */
  function GetQuestionById(id: int, table: seq<StoredQuestion>): (r: Result<QuestionWithAnswers, LookupError>)
    ensures r.Failure? ==> r.error == QuestionIdNotFound(id)
    ensures r.Success? ==>
      exists i :: 0 <= i < |table| && table[i].question.id == id && |table[i].answers| > 0 &&
        r.value == QuestionWithAnswers(table[i].question, ReshapeAnswers(table[i].answers)) &&
        forall j :: 0 <= j < i ==> !(table[j].question.id == id && |table[j].answers| > 0)
  {
    var query := QuestionsQuery(None, Some([id]), None, None);
    var listed := QueryQuestions(query, table);
    QueryQuestionsFirst(query, table);
    assert forall row :: Listed(query, row) <==> row.question.id == id && |row.answers| > 0 by {
      forall row ensures Listed(query, row) <==> row.question.id == id && |row.answers| > 0 {
        MatchesQuery(query, row.question);
      }
    }
    if |listed| == 0 then Failure(QuestionIdNotFound(id)) else Success(listed[0])
  }

  /** `getQuestionBySlug`: the first question `queryQuestions({ slugs: [slug] })` lists, that
      is, the first stored question with the slug that has answers. */
  function GetQuestionBySlug(slug: string, table: seq<StoredQuestion>): (r: Result<QuestionWithAnswers, LookupError>)
    ensures r.Failure? ==> r.error == QuestionSlugNotFound(slug)
    ensures r.Success? ==>
      exists i :: 0 <= i < |table| && table[i].question.slug == slug && |table[i].answers| > 0 &&
        r.value == QuestionWithAnswers(table[i].question, ReshapeAnswers(table[i].answers)) &&
        forall j :: 0 <= j < i ==> !(table[j].question.slug == slug && |table[j].answers| > 0)
  {
    var query := QuestionsQuery(None, None, Some([slug]), None);
    var listed := QueryQuestions(query, table);
    QueryQuestionsFirst(query, table);
    assert forall row :: Listed(query, row) <==> row.question.slug == slug && |row.answers| > 0 by {
      forall row ensures Listed(query, row) <==> row.question.slug == slug && |row.answers| > 0 {
        MatchesQuery(query, row.question);
      }
    }
    if |listed| == 0 then Failure(QuestionSlugNotFound(slug)) else Success(listed[0])
  }

  /** A question is found by id exactly when some stored question with that id has answers,
      and what is found is such a question with its answers reshaped. */
  lemma GetQuestionByIdSpec(id: int, table: seq<StoredQuestion>)
    ensures var r := GetQuestionById(id, table);
      && (r.Failure? <==> forall row :: row in table && row.question.id == id ==> |row.answers| == 0)
      && (r.Failure? ==> r.error == QuestionIdNotFound(id))
      && (r.Success? ==> exists row :: row in table && row.question.id == id && |row.answers| > 0 &&
                          r.value == QuestionWithAnswers(row.question, ReshapeAnswers(row.answers)))
  {
    var query := QuestionsQuery(None, Some([id]), None, None);
    var listed := QueryQuestions(query, table);
    assert Conditions(query) == [IdIn([id])];
    forall row | row in table ensures Matches(Conditions(query), row.question) <==> row.question.id == id {
      assert Holds(IdIn([id]), row.question) <==> row.question.id == id;
    }
    if |listed| > 0 {
      QueryQuestionsMembership(query, table, listed[0]);
    } else {
      forall row | row in table && row.question.id == id ensures |row.answers| == 0 {
        QueryQuestionsMembership(query, table, QuestionWithAnswers(row.question, ReshapeAnswers(row.answers)));
      }
    }
  }

  /** A question is found by slug exactly when some stored question with that slug has
      answers, and what is found is such a question with its answers reshaped. */
  lemma GetQuestionBySlugSpec(slug: string, table: seq<StoredQuestion>)
    ensures var r := GetQuestionBySlug(slug, table);
      && (r.Failure? <==> forall row :: row in table && row.question.slug == slug ==> |row.answers| == 0)
      && (r.Failure? ==> r.error == QuestionSlugNotFound(slug))
      && (r.Success? ==> exists row :: row in table && row.question.slug == slug && |row.answers| > 0 &&
                          r.value == QuestionWithAnswers(row.question, ReshapeAnswers(row.answers)))
  {
    var query := QuestionsQuery(None, None, Some([slug]), None);
    var listed := QueryQuestions(query, table);
    assert Conditions(query) == [SlugIn([slug])];
    forall row | row in table ensures Matches(Conditions(query), row.question) <==> row.question.slug == slug {
      assert Holds(SlugIn([slug]), row.question) <==> row.question.slug == slug;
    }
    if |listed| > 0 {
      QueryQuestionsMembership(query, table, listed[0]);
    } else {
      forall row | row in table && row.question.slug == slug ensures |row.answers| == 0 {
        QueryQuestionsMembership(query, table, QuestionWithAnswers(row.question, ReshapeAnswers(row.answers)));
      }
    }
  }
}
