/** A whole ask seen from both ends: the events `createAndAnswerQuestionForPartiesIterator`
    (lib/atm/parties.ts) yields, each serialized by `serializeCreateQuestionAndAnswerEvent`
    (lib/atm/serialize.ts) and delivered in order, as `ask` (app/questions.tsx) reads them. */
module Conversation {
  import opened Wrappers
  import opened Types
  import opened MergedStream
  import opened Serialize
  import opened Parties
  import opened Questions

  /** The server's events as the client receives them, each with the client's clock reading. */
  function Wire(events: seq<Event>, times: seq<int>): (r: seq<Received>)
    requires |times| == |events|
    ensures |r| == |events|
    ensures forall i :: 0 <= i < |events| ==> r[i].event.Type() == events[i].Type() && r[i].now == times[i]
  {
    seq(|events|, i requires 0 <= i < |events| => Received(SerializeEvent(events[i]), times[i]))
  }

  /** Delivering a prefix of the events is a prefix of the delivery. */
  lemma WirePrefix(events: seq<Event>, times: seq<int>, n: nat)
    requires |times| == |events| && n <= |events|
    ensures Wire(events, times)[..n] == Wire(events[..n], times[..n])
  {
  }

  /** The client sees exactly as many answer.started as the server yielded. */
  lemma {:induction false} WireStartedCount(events: seq<Event>, times: seq<int>)
    requires |times| == |events|
    ensures Count(Wire(events, times), IsStartedReceived) == Count(events, IsStarted)
    decreases |events|
  {
    if |events| > 0 {
      var n := |events| - 1;
      WirePrefix(events, times, n);
      WireStartedCount(events[..n], times[..n]);
      assert Wire(events, times)[n].event.Type() == events[n].Type();
    }
  }

  /** When only the first event is a question.created, the client ends on its slug. */
  lemma {:induction false} WireFinalSlug(slug: string, events: seq<Event>, times: seq<int>)
    requires |times| == |events| && |events| > 0 && events[0].QuestionCreated?
    requires forall i :: 0 < i < |events| ==> !events[i].QuestionCreated?
    ensures FinalSlug(slug, Wire(events, times)) == events[0].question.slug
    decreases |events|
  {
    var n := |events| - 1;
    var w := Wire(events, times);
    if n > 0 {
      WirePrefix(events, times, n);
      WireFinalSlug(slug, events[..n], times[..n]);
      assert !w[n].event.SerializedQuestionCreated? by {
        assert w[n].event.Type() == events[n].Type();
      }
    } else {
      assert w[0].event == SerializeEvent(events[0]);
    }
  }

  /** What the client needs of a complete ask on the server: it opens with the only
      `question.created`, which carries the stored slug, and holds one `answer.started` per
      party. */
  lemma CompleteAskTrace(userId: string, content: string, partySlugs: seq<string>, slot: Assigned,
                         questionSlug: string, registry: PartyRegistry, slots: seq<Assigned>,
                         generations: seq<Generation>, merged: seq<AnswerEvent>, origin: seq<nat>)
    requires |partySlugs| > 0 && |slots| == |generations| == |partySlugs|
    requires EveryPartyAnswers(NewQuestionRow(userId, content, slot, questionSlug), partySlugs, registry, slots, generations)
    requires IsMergeOf<Event>(merged, origin, PartyTraces(NewQuestionRow(userId, content, slot, questionSlug), partySlugs, registry, slots, generations))
    ensures var t := AskTrace(userId, content, partySlugs, slot, questionSlug, merged, None);
      && |t.events| == |merged| + 2
      && t.events[0].QuestionCreated? && t.events[0].question.slug == questionSlug
      && (forall i :: 0 < i < |t.events| ==> !t.events[i].QuestionCreated?)
      && Count(t.events, IsStarted) == |partySlugs|
  {
    var t := AskTrace(userId, content, partySlugs, slot, questionSlug, merged, None);
    AskTraceShape(userId, content, partySlugs, slot, questionSlug, merged, None);
    AskWhenEveryPartyAnswers(userId, content, partySlugs, slot, questionSlug, registry, slots, generations, merged, origin);
    forall i | 0 < i < |t.events| ensures !t.events[i].QuestionCreated? {
      if i <= |merged| {
        assert !IsQuestionEvent(t.events[i]);
      }
    }
  }

  /** When every party answers and nothing fails, the question the user asked ends, on the
      client, under the slug the server stored it with, with its text, no longer loading,
      without an error, and with one answer per party. */
  lemma AskedQuestionAfterEveryPartyAnswers(
    questions: seq<LocalQuestion>, clientSlug: string, now: int, times: seq<int>,
    userId: string, content: string, partySlugs: seq<string>, slot: Assigned, questionSlug: string,
    registry: PartyRegistry, slots: seq<Assigned>, generations: seq<Generation>,
    merged: seq<AnswerEvent>, origin: seq<nat>)
    requires |partySlugs| > 0 && |slots| == |generations| == |partySlugs|
    requires EveryPartyAnswers(NewQuestionRow(userId, content, slot, questionSlug), partySlugs, registry, slots, generations)
    requires IsMergeOf<Event>(merged, origin, PartyTraces(NewQuestionRow(userId, content, slot, questionSlug), partySlugs, registry, slots, generations))
    requires |times| == |merged| + 2
    ensures var t := AskTrace(userId, content, partySlugs, slot, questionSlug, merged, None);
      |times| == |t.events| &&
      var r := AskOutcome(questions, content, clientSlug, now, Wire(t.events, times), None);
      && |r| == |questions| + 1
      && r[|questions|].slug == questionSlug
      && r[|questions|].content == content
      && !r[|questions|].isLoading
      && r[|questions|].error.None?
      && |r[|questions|].answers| == |partySlugs|
  {
    var t := AskTrace(userId, content, partySlugs, slot, questionSlug, merged, None);
    CompleteAskTrace(userId, content, partySlugs, slot, questionSlug, registry, slots, generations, merged, origin);
    var received := Wire(t.events, times);
    WireStartedCount(t.events, times);
    WireFinalSlug(clientSlug, t.events, times);
    AskOutcomeSpec(questions, content, clientSlug, now, received, None);
  }
}
