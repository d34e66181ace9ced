/** app/questions.tsx: the client's list of questions. `useAsk` keeps the questions asked
    from this page (`localQuestions`), applies the server's wire events to them one at a time,
    and shows them merged with the questions the server lists. */
module Questions {
  import opened Wrappers
  import opened Types
  import opened MergedStream

  /** `LocalAnswer` (app/types.ts): a serialized answer with non-null annotations and a
      loading flag. */
  datatype LocalAnswer = LocalAnswer(
    id: int,
    content: string,
    annotations: seq<Annotation>,
    completed: bool,
    index: int,
    createdAt: int,
    party: SerializedParty,
    isLoading: bool)

  /** `LocalQuestion` (app/types.ts): a serialized question with local answers, a loading
      flag and an error message. */
  datatype LocalQuestion = LocalQuestion(
    content: string,
    slug: string,
    createdAt: int,
    answers: seq<LocalAnswer>,
    isLoading: bool,
    error: Option<string>)

  /** `SerializedQuestion | LocalQuestion`, the type of a shown question. */
  datatype ShownQuestion = Remote(remote: SerializedQuestion) | Local(local: LocalQuestion) {
    function Slug(): string {
      if Remote? then remote.slug else local.slug
    }
    function CreatedAt(): int {
      if Remote? then remote.createdAt else local.createdAt
    }
  }

  // ----- Merging local and remote questions -----

  /** `localQuestions.find(q => q.slug === slug)`: the first local question with the slug. */
  function FindLocal(locals: seq<LocalQuestion>, slug: string): (r: Option<LocalQuestion>)
    ensures r.Some? ==> r.value in locals && r.value.slug == slug
    ensures r.Some? ==> exists i :: 0 <= i < |locals| && locals[i] == r.value &&
                                    forall j :: 0 <= j < i ==> locals[j].slug != slug
    ensures r.None? ==> forall l :: l in locals ==> l.slug != slug
  {
    if |locals| == 0 then None
    else if locals[0].slug == slug then Some(locals[0])
    else
      var rest := FindLocal(locals[1..], slug);
      assert rest.Some? ==> exists i :: 1 <= i < |locals| && locals[i] == rest.value &&
                                       forall j :: 0 <= j < i ==> locals[j].slug != slug by {
        if rest.Some? {
          var i :| 0 <= i < |locals[1..]| && locals[1..][i] == rest.value &&
                   forall j :: 0 <= j < i ==> locals[1..][j].slug != slug;
          assert locals[i + 1] == rest.value;
          assert forall j :: 0 <= j < i + 1 ==> locals[j].slug != slug by {
            forall j | 0 <= j < i + 1 ensures locals[j].slug != slug {
              if j > 0 {
                assert locals[j] == locals[1..][j - 1];
              }
            }
          }
        }
      }
      rest
  }

  /** `mergedQuestions`: each remote question, or the local question with its slug while that
      one is still loading. */
  function MergeRemote(remote: seq<SerializedQuestion>, locals: seq<LocalQuestion>): (r: seq<ShownQuestion>)
    ensures |r| == |remote|
    ensures forall i :: 0 <= i < |remote| ==> r[i].Slug() == remote[i].slug
    ensures forall i :: 0 <= i < |remote| ==>
      r[i] == (var l := FindLocal(locals, remote[i].slug);
               if l.Some? && l.value.isLoading then Local(l.value) else Remote(remote[i]))
  {
    seq(|remote|, i requires 0 <= i < |remote| =>
      var l := FindLocal(locals, remote[i].slug);
      if l.Some? && l.value.isLoading then Local(l.value) else Remote(remote[i]))
  }

  /** Whether some shown question has the slug. */
  predicate HasSlug(shown: seq<ShownQuestion>, slug: string) {
    exists j :: 0 <= j < |shown| && shown[j].Slug() == slug
  }

  /** The local questions no merged question has the slug of, in order. */
  function Unmerged(locals: seq<LocalQuestion>, merged: seq<ShownQuestion>): (r: seq<LocalQuestion>)
    ensures forall l :: l in r <==> l in locals && !HasSlug(merged, l.slug)
    ensures |r| <= |locals|
  {
    if |locals| == 0 then []
    else
      var rest := Unmerged(locals[1..], merged);
      assert forall l :: l in locals <==> l == locals[0] || l in locals[1..];
      if HasSlug(merged, locals[0].slug) then rest else [locals[0]] + rest
  }

  /** Filtering keeps order and multiplicity: it works on a concatenation part by part. */
  lemma {:induction false} UnmergedAppend(a: seq<LocalQuestion>, b: seq<LocalQuestion>, merged: seq<ShownQuestion>)
    ensures Unmerged(a + b, merged) == Unmerged(a, merged) + Unmerged(b, merged)
    decreases |a|
  {
    if |a| == 0 {
      assert a + b == b;
    } else {
      assert (a + b)[1..] == a[1..] + b by { }
      UnmergedAppend(a[1..], b, merged);
    }
  }

  /** A single local question is kept exactly when no merged question has its slug. */
  lemma UnmergedSingle(l: LocalQuestion, merged: seq<ShownQuestion>)
    ensures Unmerged([l], merged) == if HasSlug(merged, l.slug) then [] else [l]
  {
    assert [l][1..] == [];
  }

  /** With nothing merged, every local question is kept, in order. */
  lemma {:induction false} UnmergedNothing(locals: seq<LocalQuestion>)
    ensures Unmerged(locals, []) == locals
    decreases |locals|
  {
    if |locals| > 0 {
      UnmergedNothing(locals[1..]);
      assert !HasSlug([], locals[0].slug);
    }
  }

  function AsShown(locals: seq<LocalQuestion>): (r: seq<ShownQuestion>)
    ensures |r| == |locals| && forall i :: 0 <= i < |locals| ==> r[i] == Local(locals[i])
  {
    seq(|locals|, i requires 0 <= i < |locals| => Local(locals[i]))
  }

  /** `questions`: the merged remote questions followed by the unmerged local ones. The server
      list is absent until it has been fetched. */
  function MergeQuestions(locals: seq<LocalQuestion>, remote: Option<seq<SerializedQuestion>>): (r: seq<ShownQuestion>)
    ensures |remote.GetOr([])| <= |r| <= |remote.GetOr([])| + |locals|
    ensures remote.None? ==> r == AsShown(locals)
  {
    var merged := MergeRemote(remote.GetOr([]), locals);
    UnmergedNothing(locals);
    merged + AsShown(Unmerged(locals, merged))
  }

  /** Slugs appear at most once in a list. */
  predicate UniqueSlugs(shown: seq<ShownQuestion>) {
    forall i, j :: 0 <= i < j < |shown| ==> shown[i].Slug() != shown[j].Slug()
  }

  /** A local question is shown after the merged ones exactly when no remote question has
      its slug. */
  lemma UnmergedShownIff(locals: seq<LocalQuestion>, remote: seq<SerializedQuestion>, l: LocalQuestion)
    requires l in locals
    ensures Local(l) in AsShown(Unmerged(locals, MergeRemote(remote, locals))) <==>
      forall q :: q in remote ==> q.slug != l.slug
  {
    var merged := MergeRemote(remote, locals);
    if HasSlug(merged, l.slug) {
      var j :| 0 <= j < |merged| && merged[j].Slug() == l.slug;
      assert remote[j] in remote;
      assert Local(l) !in AsShown(Unmerged(locals, merged));
    } else {
      forall q | q in remote ensures q.slug != l.slug {
        var j :| 0 <= j < |remote| && remote[j] == q;
        assert merged[j].Slug() == q.slug;
      }
      assert l in Unmerged(locals, merged);
      var k :| 0 <= k < |Unmerged(locals, merged)| && Unmerged(locals, merged)[k] == l;
      assert AsShown(Unmerged(locals, merged))[k] == Local(l);
    }
  }

  /** What the merge keeps: every remote question's slug stays, in place; that position shows
      the local question exactly when a loading local question has the slug; a local question
      is added at the end exactly when no remote question has its slug; and when neither list
      repeats a slug, no slug is shown twice. */
  lemma MergeQuestionsSpec(locals: seq<LocalQuestion>, remote: seq<SerializedQuestion>)
    ensures var r := MergeQuestions(locals, Some(remote));
      && |r| >= |remote|
      && (forall i :: 0 <= i < |remote| ==> r[i].Slug() == remote[i].slug)
      && (forall i :: 0 <= i < |remote| ==>
            (r[i].Local? <==> exists l :: l in locals && l.slug == remote[i].slug && l.isLoading &&
                                         FindLocal(locals, remote[i].slug) == Some(l)))
      && (forall i :: 0 <= i < |remote| && r[i].Remote? ==> r[i].remote == remote[i])
      && (forall l :: l in locals ==>
            (Local(l) in r[|remote|..] <==> forall q :: q in remote ==> q.slug != l.slug))
  {
    var merged := MergeRemote(remote, locals);
    var r := MergeQuestions(locals, Some(remote));
    assert r[|remote|..] == AsShown(Unmerged(locals, merged));
    forall l | l in locals
      ensures Local(l) in r[|remote|..] <==> forall q :: q in remote ==> q.slug != l.slug
    {
      UnmergedShownIff(locals, remote, l);
    }
  }

  /** Local slugs are unique in a list of local questions. */
  predicate UniqueLocalSlugs(locals: seq<LocalQuestion>) {
    forall i, j :: 0 <= i < j < |locals| ==> locals[i].slug != locals[j].slug
  }

  lemma {:induction false} UnmergedUnique(locals: seq<LocalQuestion>, merged: seq<ShownQuestion>)
    requires UniqueLocalSlugs(locals)
    ensures UniqueLocalSlugs(Unmerged(locals, merged))
    decreases |locals|
  {
    if |locals| > 0 {
      assert UniqueLocalSlugs(locals[1..]) by {
        forall i, j | 0 <= i < j < |locals[1..]| ensures locals[1..][i].slug != locals[1..][j].slug {
          assert locals[1..][i] == locals[i + 1] && locals[1..][j] == locals[j + 1];
        }
      }
      UnmergedUnique(locals[1..], merged);
      var rest := Unmerged(locals[1..], merged);
      forall l | l in rest ensures l.slug != locals[0].slug {
        var k :| 1 <= k < |locals| && locals[k] == l;
      }
    }
  }

  /** When the server and the page each list a slug at most once, the merge shows every slug
      at most once. */
  lemma MergeQuestionsUnique(locals: seq<LocalQuestion>, remote: seq<SerializedQuestion>)
    requires UniqueLocalSlugs(locals)
    requires forall i, j :: 0 <= i < j < |remote| ==> remote[i].slug != remote[j].slug
    ensures UniqueSlugs(MergeQuestions(locals, Some(remote)))
  {
    var merged := MergeRemote(remote, locals);
    var added := Unmerged(locals, merged);
    UnmergedUnique(locals, merged);
    var r := MergeQuestions(locals, Some(remote));
    forall i, j | 0 <= i < j < |r| ensures r[i].Slug() != r[j].Slug() {
      if j >= |merged| {
        var lj := added[j - |merged|];
        assert r[j] == Local(lj);
        assert lj in added;
        if i < |merged| {
          assert !HasSlug(merged, lj.slug);
        } else {
          assert r[i] == Local(added[i - |merged|]);
        }
      }
    }
  }

  // ----- Sorting by creation time, newest first, and keeping five -----

  function Key(q: ShownQuestion): int { q.CreatedAt() }

  predicate Ascending(s: seq<ShownQuestion>) {
    forall i, j :: 0 <= i < j < |s| ==> Key(s[i]) <= Key(s[j])
  }

  predicate Descending(s: seq<ShownQuestion>) {
    forall i, j :: 0 <= i < j < |s| ==> Key(s[i]) >= Key(s[j])
  }

  /** Inserts after every element with a key no greater, which keeps equal keys in arrival
      order. */
  function InsertByKey(x: ShownQuestion, s: seq<ShownQuestion>): (r: seq<ShownQuestion>)
    ensures multiset(r) == multiset(s) + multiset{x}
    ensures |r| == |s| + 1
  {
    if |s| == 0 then [x]
    else if Key(x) < Key(s[0]) then [x] + s
    else
      assert s == [s[0]] + s[1..];
      [s[0]] + InsertByKey(x, s[1..])
  }

  /** Inserting into an ascending sequence keeps it ascending. */
  lemma {:induction false} InsertByKeyAscending(x: ShownQuestion, s: seq<ShownQuestion>)
    requires Ascending(s)
    ensures Ascending(InsertByKey(x, s))
    decreases |s|
  {
    if |s| > 0 && Key(x) >= Key(s[0]) {
      var rest := InsertByKey(x, s[1..]);
      InsertByKeyAscending(x, s[1..]);
      assert Key(s[0]) <= Key(rest[0]);
      var r := [s[0]] + rest;
      forall i, j | 0 <= i < j < |r| ensures Key(r[i]) <= Key(r[j]) {
        if i > 0 {
          assert r[i] == rest[i - 1] && r[j] == rest[j - 1];
        } else if j > 1 {
          assert r[j] == rest[j - 1];
        }
      }
    }
  }

  /** lodash's `sortBy(questions, q => q.createdAt)`: a stable ascending sort. */
  function SortByCreatedAt(s: seq<ShownQuestion>): (r: seq<ShownQuestion>)
    ensures Ascending(r)
    ensures multiset(r) == multiset(s)
    ensures |r| == |s|
  {
    if |s| == 0 then []
    else
      var n := |s| - 1;
      assert s == s[..n] + [s[n]];
      var sorted := SortByCreatedAt(s[..n]);
      InsertByKeyAscending(s[n], sorted);
      InsertByKey(s[n], sorted)
  }

  /** `.reverse()` */
  function Reverse(s: seq<ShownQuestion>): (r: seq<ShownQuestion>)
    ensures |r| == |s|
    ensures forall i :: 0 <= i < |s| ==> r[i] == s[|s| - 1 - i]
    ensures multiset(r) == multiset(s)
  {
    if |s| == 0 then []
    else
      var n := |s| - 1;
      assert s == s[..n] + [s[n]];
      [s[n]] + Reverse(s[..n])
  }

  /** How many questions are shown. */
  const ShownLimit := 5

  /** `sortBy(questions, q => q.createdAt).reverse().slice(0, 5)` */
  function NewestFirst(questions: seq<ShownQuestion>): (r: seq<ShownQuestion>)
    ensures |r| == if |questions| < ShownLimit then |questions| else ShownLimit
  {
    var sorted := Reverse(SortByCreatedAt(questions));
    sorted[..if |sorted| < ShownLimit then |sorted| else ShownLimit]
  }

  /** Reversing an ascending list gives a descending one. */
  lemma ReverseDescending(s: seq<ShownQuestion>)
    requires Ascending(s)
    ensures Descending(Reverse(s))
  {
    var d := Reverse(s);
    forall i, j | 0 <= i < j < |d| ensures Key(d[i]) >= Key(d[j]) {
      assert d[i] == s[|s| - 1 - i] && d[j] == s[|s| - 1 - j];
    }
  }

  /** A prefix of a descending list is descending, is drawn from the list, and holds the
      newest of its elements. */
  lemma PrefixIsNewest(d: seq<ShownQuestion>, m: nat)
    requires Descending(d) && m <= |d|
    ensures Descending(d[..m])
    ensures multiset(d[..m]) <= multiset(d)
    ensures forall x, y :: x in multiset(d) - multiset(d[..m]) && y in d[..m] ==> Key(x) <= Key(y)
  {
    var left := multiset(d) - multiset(d[..m]);
    assert multiset(d) == multiset(d[..m]) + multiset(d[m..]) by {
      assert d == d[..m] + d[m..];
    }
    assert left == multiset(d[m..]);
    forall i, j | 0 <= i < j < m ensures Key(d[..m][i]) >= Key(d[..m][j]) {
      assert d[..m][i] == d[i] && d[..m][j] == d[j];
    }
    forall x, y | x in left && y in d[..m] ensures Key(x) <= Key(y) {
      assert x in d[m..];
      var j :| 0 <= j < |d[m..]| && d[m..][j] == x;
      var i :| 0 <= i < m && d[..m][i] == y;
      assert d[i] == y && d[m + j] == x;
    }
  }

  /** The questions shown: at most five, newest first, taken from the merged list, and none
      left out is newer than one shown. */
  lemma NewestFirstSpec(questions: seq<ShownQuestion>)
    ensures var r := NewestFirst(questions);
      && |r| == (if |questions| < ShownLimit then |questions| else ShownLimit)
      && Descending(r)
      && multiset(r) <= multiset(questions)
      && (forall x, y :: x in multiset(questions) - multiset(r) && y in r ==> Key(x) <= Key(y))
  {
    var d := Reverse(SortByCreatedAt(questions));
    ReverseDescending(SortByCreatedAt(questions));
    var m := if |d| < ShownLimit then |d| else ShownLimit;
    PrefixIsNewest(d, m);
    assert multiset(d) == multiset(questions);
    assert NewestFirst(questions) == d[..m];
  }

  /** `useAsk().questions`: the five newest of the merged questions, newest first. */
  function ShownQuestions(locals: seq<LocalQuestion>, remote: Option<seq<SerializedQuestion>>): (r: seq<ShownQuestion>)
    ensures var merged := MergeQuestions(locals, remote);
      && |r| == (if |merged| < ShownLimit then |merged| else ShownLimit)
      && Descending(r)
      && multiset(r) <= multiset(merged)
      && (forall x, y :: x in multiset(merged) - multiset(r) && y in r ==> Key(x) <= Key(y))
  {
    NewestFirstSpec(MergeQuestions(locals, remote));
    NewestFirst(MergeQuestions(locals, remote))
  }

  /** Every question shown is one of the merged questions. */
  lemma ShownAreMerged(locals: seq<LocalQuestion>, remote: Option<seq<SerializedQuestion>>)
    ensures forall q :: q in ShownQuestions(locals, remote) ==> q in MergeQuestions(locals, remote)
  {
    forall q | q in ShownQuestions(locals, remote) ensures q in MergeQuestions(locals, remote) {
      assert q in multiset(ShownQuestions(locals, remote));
    }
  }

  /** Before the server's list arrives, only questions asked on the page are shown. */
  lemma ShownBeforeFetch(locals: seq<LocalQuestion>)
    ensures forall q :: q in ShownQuestions(locals, None) ==> q.Local? && q.local in locals
  {
    ShownAreMerged(locals, None);
    forall q | q in ShownQuestions(locals, None) ensures q.Local? && q.local in locals {
      var i :| 0 <= i < |AsShown(locals)| && AsShown(locals)[i] == q;
    }
  }

  // ----- Updating local questions -----

  /** The changes `ask` makes to an answer (the functions passed to `updateAnswer`). */
  datatype AnswerUpdate =
    | AppendContent(content: string, annotations: seq<Annotation>)  // appendAnswer
    | MarkCompleted                                                 // answer.completed

  /** The changes `ask` makes to a question (the partial objects and functions passed to
      `updateQuestion`). */
  datatype QuestionUpdate =
    | Rename(newSlug: string)                        // { slug, isLoading: true }
    | StopLoading                                    // { isLoading: false }
    | RecordError(message: string)                   // { error, isLoading: false }
    | AddAnswer(answer: LocalAnswer)                 // createAnswer
    | UpdateAnswer(answerId: int, change: AnswerUpdate)  // updateAnswer

  function ApplyToAnswer(change: AnswerUpdate, a: LocalAnswer): LocalAnswer {
    match change
    case AppendContent(content, annotations) =>
      a.(content := a.content + content, annotations := a.annotations + annotations)
    case MarkCompleted => a.(isLoading := false, completed := true)
  }

  /** `answers.map(a => a.id === answerId ? change(a) : a)` */
  function UpdateAnswers(answers: seq<LocalAnswer>, answerId: int, change: AnswerUpdate): (r: seq<LocalAnswer>)
    ensures |r| == |answers|
    ensures forall i :: 0 <= i < |answers| ==>
      r[i] == if answers[i].id == answerId then ApplyToAnswer(change, answers[i]) else answers[i]
  {
    seq(|answers|, i requires 0 <= i < |answers| =>
      if answers[i].id == answerId then ApplyToAnswer(change, answers[i]) else answers[i])
  }

  function ApplyToQuestion(u: QuestionUpdate, q: LocalQuestion): LocalQuestion {
    match u
    case Rename(newSlug) => q.(slug := newSlug, isLoading := true)
    case StopLoading => q.(isLoading := false)
    case RecordError(message) => q.(error := Some(message), isLoading := false)
    case AddAnswer(answer) => q.(answers := q.answers + [answer])
    case UpdateAnswer(answerId, change) => q.(answers := UpdateAnswers(q.answers, answerId, change))
  }

  /** `updateQuestion(slug, u)`: the questions with the slug are updated; no other entry
      changes and the list keeps its length and order. */
  function UpdateQuestions(questions: seq<LocalQuestion>, slug: string, u: QuestionUpdate): (r: seq<LocalQuestion>)
    ensures |r| == |questions|
    ensures forall i :: 0 <= i < |questions| && questions[i].slug != slug ==> r[i] == questions[i]
    ensures forall i :: 0 <= i < |questions| && questions[i].slug == slug ==> r[i] == ApplyToQuestion(u, questions[i])
  {
    seq(|questions|, i requires 0 <= i < |questions| =>
      if questions[i].slug == slug then ApplyToQuestion(u, questions[i]) else questions[i])
  }

  /** The answer `createAnswer` adds: empty, without annotations, loading, not completed. */
  function NewLocalAnswer(answer: SerializedAnswer, now: int): (a: LocalAnswer)
    ensures a.id == answer.id && a.party == answer.party && a.index == answer.index
    ensures a.content == "" && a.annotations == [] && a.isLoading && !a.completed && a.createdAt == now
  {
    LocalAnswer(answer.id, "", [], false, answer.index, now, answer.party, true)
  }

  /** One wire event as the client reads it, with the clock reading taken while handling it. */
  datatype Received = Received(event: SerializedEvent, now: int)

  /** The state of one `ask`: the local questions and the slug its events are applied to. */
  datatype AskState = AskState(questions: seq<LocalQuestion>, slug: string)

  /** The `switch` over one wire event. */
  function ApplyEvent(state: AskState, received: Received): (r: AskState)
    ensures |r.questions| == |state.questions|
    ensures r.slug == if received.event.SerializedQuestionCreated? then received.event.question.slug else state.slug
    ensures forall i :: 0 <= i < |state.questions| && state.questions[i].slug != state.slug ==>
      r.questions[i] == state.questions[i]
    ensures forall i :: 0 <= i < |state.questions| ==>
      r.questions[i].content == state.questions[i].content && r.questions[i].createdAt == state.questions[i].createdAt
  {
    var slug := state.slug;
    match received.event
    case SerializedQuestionCreated(q) =>
      AskState(UpdateQuestions(state.questions, slug, Rename(q.slug)), q.slug)
    case SerializedQuestionCompleted(_) =>
      AskState(UpdateQuestions(state.questions, slug, StopLoading), slug)
    case SerializedAnswerStarted(a) =>
      AskState(UpdateQuestions(state.questions, slug, AddAnswer(NewLocalAnswer(a, received.now))), slug)
    case SerializedAnswerDelta(answerId, delta, annotations) =>
      AskState(UpdateQuestions(state.questions, slug,
        UpdateAnswer(answerId, AppendContent(delta, annotations.GetOr([])))), slug)
    case SerializedAnswerCompleted(a) =>
      AskState(UpdateQuestions(state.questions, slug, UpdateAnswer(a.id, MarkCompleted)), slug)
  }

  /** The events applied in order. */
  function ApplyEvents(state: AskState, received: seq<Received>): (r: AskState)
    ensures |r.questions| == |state.questions|
    ensures forall i :: 0 <= i < |state.questions| ==>
      r.questions[i].content == state.questions[i].content && r.questions[i].createdAt == state.questions[i].createdAt
    decreases |received|
  {
    if |received| == 0 then state
    else ApplyEvent(ApplyEvents(state, received[..|received| - 1]), received[|received| - 1])
  }

  /** The question `ask` adds before sending it. */
  function NewLocalQuestion(content: string, slug: string, now: int): LocalQuestion {
    LocalQuestion(content, slug, now, [], true, None)
  }

  /** The whole of `ask`: add the question, apply the events, then stop loading, recording the
      error's message when reading the response threw. */
  function AskOutcome(questions: seq<LocalQuestion>, content: string, slug: string, now: int,
                      received: seq<Received>, fault: Option<string>): (r: seq<LocalQuestion>)
    ensures |r| == |questions| + 1
    ensures r[|questions|].content == content && r[|questions|].createdAt == now
  {
    var last := ApplyEvents(AskState(questions + [NewLocalQuestion(content, slug, now)], slug), received);
    UpdateQuestions(last.questions, last.slug, if fault.Some? then RecordError(fault.value) else StopLoading)
  }

  // ----- What one event does -----

  /** answer.started adds exactly one answer, at the end: empty, without annotations,
      loading and not completed. Nothing else about the question changes. */
  lemma AnswerStartedAddsOne(state: AskState, a: SerializedAnswer, now: int)
    ensures var next := ApplyEvent(state, Received(SerializedAnswerStarted(a), now));
      && next.slug == state.slug
      && forall i :: 0 <= i < |state.questions| && state.questions[i].slug == state.slug ==>
           var q, q' := state.questions[i], next.questions[i];
           && |q'.answers| == |q.answers| + 1
           && q'.answers[..|q.answers|] == q.answers
           && q'.answers[|q.answers|].id == a.id
           && q'.answers[|q.answers|].party == a.party
           && q'.answers[|q.answers|].index == a.index
           && q'.answers[|q.answers|].content == ""
           && q'.answers[|q.answers|].annotations == []
           && q'.answers[|q.answers|].isLoading
           && !q'.answers[|q.answers|].completed
           && q' == q.(answers := q'.answers)
  {
    var next := ApplyEvent(state, Received(SerializedAnswerStarted(a), now));
    forall i | 0 <= i < |state.questions| && state.questions[i].slug == state.slug
      ensures next.questions[i].answers[..|state.questions[i].answers|] == state.questions[i].answers
    {
      assert next.questions[i].answers == state.questions[i].answers + [NewLocalAnswer(a, now)];
    }
  }

  /** answer.delta appends the text, and the annotations or nothing when they are absent, to
      every answer with the id of the current question; all other answers are unchanged. */
  lemma AnswerDeltaAppends(state: AskState, answerId: int, delta: string,
                           annotations: Option<seq<Annotation>>, now: int)
    ensures var next := ApplyEvent(state, Received(SerializedAnswerDelta(answerId, delta, annotations), now));
      && next.slug == state.slug
      && forall i :: 0 <= i < |state.questions| && state.questions[i].slug == state.slug ==>
           var q, q' := state.questions[i], next.questions[i];
           && |q'.answers| == |q.answers|
           && q' == q.(answers := q'.answers)
           && forall j :: 0 <= j < |q.answers| ==>
                if q.answers[j].id == answerId then
                  && q'.answers[j].content == q.answers[j].content + delta
                  && q'.answers[j].annotations == q.answers[j].annotations +
                       (if annotations.Some? then annotations.value else [])
                  && q'.answers[j] == q.answers[j].(content := q'.answers[j].content,
                                                    annotations := q'.answers[j].annotations)
                else q'.answers[j] == q.answers[j]
  {
  }

  /** answer.completed marks the answers with the id completed and no longer loading; their
      text and annotations stay as the deltas left them. */
  lemma AnswerCompletedMarks(state: AskState, a: SerializedAnswer, now: int)
    ensures var next := ApplyEvent(state, Received(SerializedAnswerCompleted(a), now));
      && next.slug == state.slug
      && forall i :: 0 <= i < |state.questions| && state.questions[i].slug == state.slug ==>
           var q, q' := state.questions[i], next.questions[i];
           && |q'.answers| == |q.answers|
           && q' == q.(answers := q'.answers)
           && forall j :: 0 <= j < |q.answers| ==>
                if q.answers[j].id == a.id then
                  && q'.answers[j].completed && !q'.answers[j].isLoading
                  && q'.answers[j].content == q.answers[j].content
                  && q'.answers[j].annotations == q.answers[j].annotations
                else q'.answers[j] == q.answers[j]
  {
  }

  /** question.created gives the current question the slug the server chose, keeps it loading,
      and makes that slug the one later events apply to. */
  lemma QuestionCreatedRenames(state: AskState, question: SerializedQuestion, now: int)
    ensures var next := ApplyEvent(state, Received(SerializedQuestionCreated(question), now));
      && next.slug == question.slug
      && forall i :: 0 <= i < |state.questions| && state.questions[i].slug == state.slug ==>
           && next.questions[i].slug == question.slug
           && next.questions[i].isLoading
           && next.questions[i].answers == state.questions[i].answers
           && next.questions[i].content == state.questions[i].content
  {
  }

  /** question.completed stops the current question loading and changes nothing else. */
  lemma QuestionCompletedStopsLoading(state: AskState, question: SerializedQuestion, now: int)
    ensures var next := ApplyEvent(state, Received(SerializedQuestionCompleted(question), now));
      && next.slug == state.slug
      && forall i :: 0 <= i < |state.questions| && state.questions[i].slug == state.slug ==>
           next.questions[i] == state.questions[i].(isLoading := false)
  {
  }

  // ----- What a whole ask does -----

  /** The slug the events end on: the last question.created's, or the one `ask` started with. */
  function FinalSlug(slug: string, received: seq<Received>): string
    decreases |received|
  {
    if |received| == 0 then slug
    else match received[|received| - 1].event
      case SerializedQuestionCreated(q) => q.slug
      case _ => FinalSlug(slug, received[..|received| - 1])
  }

  /** Every slug the events are applied to: the first one and each question.created's. */
  function VisitedSlugs(slug: string, received: seq<Received>): (r: set<string>)
    ensures slug in r
    decreases |received|
  {
    if |received| == 0 then {slug}
    else
      var before := VisitedSlugs(slug, received[..|received| - 1]);
      match received[|received| - 1].event
      case SerializedQuestionCreated(q) => before + {q.slug}
      case _ => before
  }

  /** Whether a received event is an answer.started. */
  predicate IsStartedReceived(received: Received) {
    received.event.SerializedAnswerStarted?
  }

  /** Applying events keeps the list's length, ends on the slug the last `question.created`
      named, and leaves every question whose slug is never visited as it was. */
  lemma {:induction false} ApplyEventsFrame(state: AskState, received: seq<Received>)
    ensures var last := ApplyEvents(state, received);
      && last.slug == FinalSlug(state.slug, received)
      && last.slug in VisitedSlugs(state.slug, received)
      && |last.questions| == |state.questions|
      && (forall i :: 0 <= i < |state.questions| && state.questions[i].slug !in VisitedSlugs(state.slug, received) ==>
            last.questions[i] == state.questions[i])
    decreases |received|
  {
    if |received| > 0 {
      var prefix := received[..|received| - 1];
      ApplyEventsFrame(state, prefix);
      var mid := ApplyEvents(state, prefix);
      assert VisitedSlugs(state.slug, prefix) <= VisitedSlugs(state.slug, received);
      var last := ApplyEvent(mid, received[|received| - 1]);
      assert last == ApplyEvents(state, received);
    }
  }

  /** The question under the current slug is carried along by the event loop: it follows the
      slug, keeps its text, time and error, and gains one answer per `answer.started`. */
  lemma {:induction false} ApplyEventsCarriesAsked(state: AskState, received: seq<Received>, i: nat)
    requires i < |state.questions| && state.questions[i].slug == state.slug
    ensures var last := ApplyEvents(state, received);
      && last.questions[i].slug == last.slug
      && last.questions[i].content == state.questions[i].content
      && last.questions[i].createdAt == state.questions[i].createdAt
      && last.questions[i].error == state.questions[i].error
      && |last.questions[i].answers| == |state.questions[i].answers| + Count(received, IsStartedReceived)
    decreases |received|
  {
    if |received| > 0 {
      var prefix := received[..|received| - 1];
      ApplyEventsCarriesAsked(state, prefix, i);
      var mid := ApplyEvents(state, prefix);
      var last := ApplyEvent(mid, received[|received| - 1]);
      assert last == ApplyEvents(state, received);
    }
  }

  /** What `ask` leaves: the list grows by exactly the asked question, at the end; it holds the
      asked text and time and the slug the events left it with; it has one answer per
      answer.started received; it is no longer loading; it carries an error message exactly
      when reading the response failed, and then that one; and every earlier question whose
      slug the events never visited is unchanged. */
  lemma AskOutcomeSpec(questions: seq<LocalQuestion>, content: string, slug: string, now: int,
                       received: seq<Received>, fault: Option<string>)
    ensures var r := AskOutcome(questions, content, slug, now, received, fault);
      && |r| == |questions| + 1
      && r[|questions|].content == content
      && r[|questions|].createdAt == now
      && r[|questions|].slug == FinalSlug(slug, received)
      && |r[|questions|].answers| == Count(received, IsStartedReceived)
      && !r[|questions|].isLoading
      && r[|questions|].error == fault
      && (forall i :: 0 <= i < |questions| && questions[i].slug !in VisitedSlugs(slug, received) ==>
            r[i] == questions[i])
  {
    var start := AskState(questions + [NewLocalQuestion(content, slug, now)], slug);
    ApplyEventsFrame(start, received);
    var last := ApplyEvents(start, received);
    assert start.questions[|questions|].slug == slug;
    ApplyEventsCarriesAsked(start, received, |questions|);
    forall i | 0 <= i < |questions| ensures start.questions[i] == questions[i] {}
  }

  /** The page's `localQuestions` state. */
  class LocalQuestions {
    var questions: seq<LocalQuestion>

    constructor ()
      ensures questions == []
    {
      questions := [];
    }

    /** `updateQuestion(slug, u)` through `setLocalQuestions`. */
    method UpdateQuestion(slug: string, u: QuestionUpdate)
      modifies this
      ensures questions == UpdateQuestions(old(questions), slug, u)
    {
      questions := UpdateQuestions(questions, slug, u);
    }

    /** The questions `useAsk` returns, given the server's list. */
    function Shown(remote: Option<seq<SerializedQuestion>>): (r: seq<ShownQuestion>)
      reads this
      ensures |r| <= ShownLimit && Descending(r)
      ensures multiset(r) <= multiset(MergeQuestions(questions, remote))
    {
      ShownQuestions(questions, remote)
    }

    /** `ask(content)`: `slug` is the fresh nanoid, `now` the clock; `received` are the wire
        events read from the response, and `fault` the message of the error that ended the
        reading, if one did (a failed request, a non-ok status, a missing body or a parse
        error). */
    method Ask(content: string, slug: string, now: int, received: seq<Received>, fault: Option<string>)
      modifies this
      ensures questions == AskOutcome(old(questions), content, slug, now, received, fault)
    {
      questions := questions + [NewLocalQuestion(content, slug, now)];
      ghost var start := AskState(questions, slug);
      var current := slug;
      var i := 0;
      while i < |received|
        invariant 0 <= i <= |received|
        invariant AskState(questions, current) == ApplyEvents(start, received[..i])
      {
        assert received[..i + 1][..i] == received[..i];
        var event := received[i].event;
        match event {
          case SerializedQuestionCreated(q) =>
            UpdateQuestion(current, Rename(q.slug));
            current := q.slug;
          case SerializedQuestionCompleted(_) =>
            UpdateQuestion(current, StopLoading);
          case SerializedAnswerStarted(a) =>
            UpdateQuestion(current, AddAnswer(NewLocalAnswer(a, received[i].now)));
          case SerializedAnswerDelta(answerId, delta, annotations) =>
            UpdateQuestion(current, UpdateAnswer(answerId, AppendContent(delta, annotations.GetOr([]))));
          case SerializedAnswerCompleted(a) =>
            UpdateQuestion(current, UpdateAnswer(a.id, MarkCompleted));
        }
        i := i + 1;
      }
      assert received[..i] == received;
      if fault.Some? {
        UpdateQuestion(current, RecordError(fault.value));
      } else {
        UpdateQuestion(current, StopLoading);
      }
    }
  }
}
