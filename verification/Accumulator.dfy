/** The poisonable accumulator (`AnalysisAccumulator`): documents in, one at a time or streamed, and a result out. */
module Accumulator {
  import opened Wrappers
  import opened AnalysisErrors
  import opened Text
  import opened Order
  import opened Windows
  import opened Phrases
  import opened Documents
  import opened StreamingDocument
  import opened Relationships
  import opened AnalysisState

  /** The state and the poison. */
  datatype Accumulated = Accumulated(state: State, failed: bool)

  /** One push: all of the document, or nothing but the poison. */
  function PushOutcome(u: Unicode, policy: AnalysisPolicy, before: Accumulated, document: AnalysisDocument)
    : (Accumulated, Result<(), AnalysisError>)
  {
    if before.failed then (before, Err(Unusable))
    else
      match Push(u, policy, before.state, document)
      case Ok(next) => (Accumulated(next, false), Ok(()))
      case Err(error) => (Accumulated(before.state, true), Err(error))
  }

  /** Why an interrupted stream fails: the accumulator's own reasons come first. */
  function Interruption(u: Unicode, policy: AnalysisPolicy, before: Accumulated, id: string, texts: seq<string>)
      : AnalysisError
  {
    if before.failed then Unusable
    else
      match Refusal(u, before.state.sessions, id)
      case Some(error) => error
      case None => InterruptedWith(u, policy, texts)
  }

  class AnalysisAccumulator {
    const u: Unicode
    const policy: AnalysisPolicy
    var sessions: Sessions
    var titles: Titles
    var vocabulary: Vocabulary
    var failed: bool
    ghost var log: seq<AnalysisDocument>  // the documents accepted so far

    ghost function Contents(): State
      reads this
    {
      State(sessions, titles, vocabulary)
    }

    ghost function Now(): Accumulated
      reads this
    {
      Accumulated(Contents(), failed)
    }

    /** The state is what pushing the accepted documents one by one gives. */
    ghost predicate Valid()
      reads this
    {
      PushAll(u, policy, log) == Ok(Contents())
    }

    constructor (u: Unicode, policy: AnalysisPolicy)
      ensures Valid() && this.u == u && this.policy == policy
      ensures log == [] && !failed
    {
      this.u := u;
      this.policy := policy;
      sessions, titles, vocabulary, failed, log := map[], map[], map[], false, [];
    }

    method PushDocument(document: AnalysisDocument) returns (r: Result<(), AnalysisError>)
      requires Valid()
      modifies this
      ensures Valid()
      ensures (Now(), r) == PushOutcome(u, policy, old(Now()), document)
      ensures log == old(log) + if r.Ok? then [document] else []
    {
      hide Push;
      if failed {
        return Err(Unusable);
      }
      r := TryPush(document);
      if r.Err? {
        failed := true;
      } else {
        PushAllStep(u, policy, log, document);
        log := log + [document];
      }
    }

    /**
     * Stream one session's chunks.  Without a read failure this is the same push as that of the joined document,
     * the result and every error kind included.
     */
    method PushSessionTextStream(session: SessionRecord, messageCount: int, userMessageCount: int, chunks: ChunkStream)
      returns (r: Result<(), AnalysisError>)
      requires Valid()
      modifies this
      ensures Valid()
      ensures log == old(log) +
                if r.Ok? then [StreamedDocument(session, messageCount, userMessageCount, chunks.texts)] else []
      ensures !chunks.interrupted ==>
                (Now(), r) == PushOutcome(u, policy, old(Now()),
                  StreamedDocument(session, messageCount, userMessageCount, chunks.texts))
      ensures chunks.interrupted ==>
                r == Err(Interruption(u, policy, old(Now()), session.id, chunks.texts))
                  && Now() == Accumulated(old(Contents()), true)
    {
      hide Push;
      if failed {
        return Err(Unusable);
      }
      r := TryPushStream(session, messageCount, userMessageCount, chunks);
      if r.Err? {
        failed := true;
      } else {
        ghost var document := StreamedDocument(session, messageCount, userMessageCount, chunks.texts);
        PushAllStep(u, policy, log, document);
        log := log + [document];
      }
    }

    method TryPush(document: AnalysisDocument) returns (r: Result<(), AnalysisError>)
      modifies this`sessions, this`titles, this`vocabulary
      ensures match Push(u, policy, old(Contents()), document)
              case Ok(next) => r == Ok(()) && Contents() == next
              case Err(error) => r == Err(error) && Contents() == old(Contents())
    {
      hide ContributionOf, Merge, Refusal;
      var refusal := Refusal(u, sessions, document.session.id);
      if refusal.Some? {
        return Err(refusal.value);
      }
      var contribution := Contribute(document);
      if contribution.Err? {
        return Err(contribution.error);
      }
      r := MergeSession(contribution.value);
    }

    /** Classify one document and count its phrases with the batch loops. */
    method Contribute(document: AnalysisDocument) returns (r: Result<Contribution, AnalysisError>)
      ensures r == ContributionOf(u, policy, document)
    {
      hide DocumentDelta, Classify, Trim;
      var delta: Option<Delta> := None;
      if policy.phrases.Some? {
        var counted := PhraseDelta(u, document.userText, policy.phrases.value);
        if counted.Err? {
          return Err(counted.error);
        }
        delta := Some(counted.value);
      }
      r := Ok(Contribution(document.session, Classify(policy, document), delta, Trim(u, document.userText) != [],
                           document.messageCount, document.userMessageCount));
    }

    method TryPushStream(session: SessionRecord, messageCount: int, userMessageCount: int, chunks: ChunkStream)
      returns (r: Result<(), AnalysisError>)
      modifies this`sessions, this`titles, this`vocabulary
      ensures chunks.interrupted ==>
                r == Err(Interruption(u, policy, Accumulated(old(Contents()), false), session.id, chunks.texts))
                  && Contents() == old(Contents())
      ensures !chunks.interrupted ==>
                match Push(u, policy, old(Contents()),
                  StreamedDocument(session, messageCount, userMessageCount, chunks.texts))
                case Ok(next) => r == Ok(()) && Contents() == next
                case Err(error) => r == Err(error) && Contents() == old(Contents())
    {
      hide ContributionOf, Merge, Refusal, BatchResult, Classify, InterruptedWith;
      var refusal := Refusal(u, sessions, session.id);
      if refusal.Some? {
        return Err(refusal.value);
      }
      var streamed := StreamDocument(u, policy, chunks);
      StreamedContribution(u, policy, session, messageCount, userMessageCount, chunks.texts);
      if streamed.Err? {
        return Err(streamed.error);
      }
      var (facts, delta) := streamed.value;
      var document := AnalysisDocument(session, facts.classificationText, facts.firstUserText, messageCount,
        userMessageCount);
      r := MergeSession(Contribution(session, Classify(policy, document), delta, facts.hasUserText, messageCount,
        userMessageCount));
    }

    /** Check the score, the vocabulary bound and every count before changing anything. */
    method MergeSession(c: Contribution) returns (r: Result<(), AnalysisError>)
      modifies this`sessions, this`titles, this`vocabulary
      ensures match Merge(u, policy, old(Contents()), c)
              case Ok(next) => r == Ok(()) && Contents() == next
              case Err(error) => r == Err(error) && Contents() == old(Contents())
    {
      hide MergeVocabulary;
      var score := CheckedScore(c.classifications);
      if score.None? {
        return Err(ScoreOverflow);
      }
      if policy.phrases.Some? && c.delta.Some? {
        var merged := MergePhrases(policy.phrases.value.maxUnique, c.delta.value);
        if merged.Err? {
          return Err(merged.error);
        }
      }
      if c.session.title.Some? {
        var title := c.session.title.value;
        titles := titles[title := (if title in titles then titles[title] else []) + [c.session.id]];
      }
      sessions := sessions[c.session.id := Analyzed(c, score.value)];
      r := Ok(());
    }

    method MergePhrases(bound: nat, delta: Delta) returns (r: Result<(), AnalysisError>)
      modifies this`vocabulary
      ensures match MergeVocabulary(u, bound, old(vocabulary), delta)
              case Ok(next) => r == Ok(()) && vocabulary == next
              case Err(error) => r == Err(error) && vocabulary == old(vocabulary)
    {
      hide EntryAfter, Overflows;
      var added := set p | p in delta && p !in vocabulary;
      assert vocabulary.Keys + delta.Keys == vocabulary.Keys + added;
      if |vocabulary| + |added| > bound {
        return Err(VocabularyFull);
      }
      var fits := CountsFit(delta);
      if !fits {
        return Err(CountOverflow);
      }
      AddCounts(delta);
      r := Ok(());
    }

    method CountsFit(delta: Delta) returns (fits: bool)
      ensures fits <==> !exists p | p in vocabulary.Keys + delta.Keys :: Overflows(vocabulary, delta, p)
    {
      var unchecked := delta.Keys;
      while unchecked != {}
        invariant unchecked <= delta.Keys
        invariant forall p | p in delta.Keys - unchecked :: !Overflows(vocabulary, delta, p)
        decreases |unchecked|
      {
        var p :| p in unchecked;
        if p in vocabulary {
          if vocabulary[p].occurrences + delta[p] > U64_MAX || vocabulary[p].documents + 1 > U64_MAX {
            assert Overflows(vocabulary, delta, p);
            return false;
          }
        }
        unchecked := unchecked - {p};
      }
      fits := true;
    }

    method AddCounts(delta: Delta)
      modifies this`vocabulary
      ensures vocabulary == map p | p in old(vocabulary).Keys + delta.Keys :: EntryAfter(u, old(vocabulary), delta, p)
    {
      hide EntryAfter, MergedBut;
      ghost var before := vocabulary;
      var unmerged := delta.Keys;
      MergedNone(u, before, delta);
      while unmerged != {}
        invariant unmerged <= delta.Keys && MergedBut(u, before, delta, unmerged, vocabulary)
        decreases |unmerged|
      {
        var p :| p in unmerged;
        MergedOne(u, before, delta, unmerged, vocabulary, p);
        vocabulary := vocabulary[p := EntryAfter(u, vocabulary, delta, p)];
        unmerged := unmerged - {p};
      }
      MergedAll(u, before, delta, vocabulary);
    }

    /** Resolve relationship hints and rank the vocabulary. */
    method Finish() returns (r: Result<AnalysisResult, AnalysisError>)
      requires Valid()
      ensures if failed then r == Err(Unusable) else FinishesWith(u, policy, Contents(), r)
    {
      hide FinishSessions;
      if failed {
        return Err(Unusable);
      }
      var finished := FinishAll();
      if finished.Err? {
        return Err(finished.error);
      }
      var ranked := Rank(vocabulary);
      r := Ok(AnalysisResult(finished.value, ranked));
    }

    method FinishAll() returns (r: Result<Sessions, AnalysisError>)
      ensures r == FinishSessions(u, policy, Contents())
    {
      hide SessionHints;
      var finished: Sessions := map[];
      var remaining := sessions.Keys;
      while remaining != {}
        invariant remaining <= sessions.Keys && finished.Keys == sessions.Keys - remaining
        invariant forall id | id in finished ::
                    var hints := SessionHints(u, policy, titles, sessions[id], id);
                    hints.Ok? && finished[id] == sessions[id].(hints := sessions[id].hints + hints.value)
        decreases |remaining|
      {
        var id :| id in remaining;
        var hints := FinishSession(sessions[id], id);
        if hints.Err? {
          ghost var st := Contents();
          assert SessionHints(u, policy, st.titles, st.sessions[id], id).Err?;
          return Err(EmptyParent);
        }
        finished := finished[id := sessions[id].(hints := sessions[id].hints + hints.value)];
        remaining := remaining - {id};
      }
      AllFinished(u, policy, Contents(), finished);
      r := Ok(finished);
    }

    method FinishSession(analyzed: AnalyzedSession, id: string)
      returns (r: Result<seq<RelationshipHint>, AnalysisError>)
      ensures r == SessionHints(u, policy, titles, analyzed, id)
    {
      hide Collect, RuleHints;
      r := Ok([]);
      if analyzed.session.title.Some? {
        r := CollectHints(RuleHints(u, titles, policy.relationships, id, analyzed.session.title.value),
          |policy.relationships|);
      }
    }
  }

  lemma AllFinished(u: Unicode, policy: AnalysisPolicy, st: State, finished: Sessions)
    requires finished.Keys == st.sessions.Keys
    requires forall id | id in finished ::
               var hints := SessionHints(u, policy, st.titles, st.sessions[id], id);
               hints.Ok? && finished[id] == st.sessions[id].(hints := st.sessions[id].hints + hints.value)
    ensures FinishSessions(u, policy, st) == Ok(finished)
  {
    hide SessionHints;
    forall id | id in st.sessions
      ensures SessionHints(u, policy, st.titles, st.sessions[id], id).Ok?
    {
      assert id in finished;
    }
    assert finished == FinishSessions(u, policy, st).value;
  }

  /** A vocabulary into which all of a delta but some phrases is merged. */
  ghost predicate MergedBut(u: Unicode, before: Vocabulary, delta: Delta, unmerged: set<string>, now: Vocabulary) {
    && now.Keys == before.Keys + (delta.Keys - unmerged)
    && forall p | p in now :: now[p] == if p in unmerged then before[p] else EntryAfter(u, before, delta, p)
  }

  lemma MergedNone(u: Unicode, before: Vocabulary, delta: Delta)
    ensures MergedBut(u, before, delta, delta.Keys, before)
  {
  }

  lemma MergedOne(u: Unicode, before: Vocabulary, delta: Delta, unmerged: set<string>, now: Vocabulary, p: string)
    requires MergedBut(u, before, delta, unmerged, now) && p in unmerged && unmerged <= delta.Keys
    ensures MergedBut(u, before, delta, unmerged - {p}, now[p := EntryAfter(u, now, delta, p)])
  {
    EntryLocal(u, now, before, delta, p);
    hide EntryAfter;
    var next := now[p := EntryAfter(u, now, delta, p)];
    assert next.Keys == before.Keys + (delta.Keys - (unmerged - {p}));
  }

  lemma MergedAll(u: Unicode, before: Vocabulary, delta: Delta, now: Vocabulary)
    requires MergedBut(u, before, delta, {}, now)
    ensures now == map p | p in before.Keys + delta.Keys :: EntryAfter(u, before, delta, p)
  {
    hide EntryAfter;
  }

  /** Push every document, then finish. */
  method Analyze(u: Unicode, policy: AnalysisPolicy, documents: seq<AnalysisDocument>)
    returns (r: Result<AnalysisResult, AnalysisError>)
    ensures match PushAll(u, policy, documents)
            case Err(error) => r == Err(error)
            case Ok(st) => FinishesWith(u, policy, st, r)
  {
    hide Push, FinishesWith;
    var accumulator := new AnalysisAccumulator(u, policy);
    for i := 0 to |documents|
      invariant accumulator.Valid() && !accumulator.failed && fresh(accumulator)
      invariant accumulator.u == u && accumulator.policy == policy && accumulator.log == documents[..i]
    {
      assert documents[..i + 1] == documents[..i] + [documents[i]];
      PushAllStep(u, policy, documents[..i], documents[i]);
      var pushed := accumulator.PushDocument(documents[i]);
      if pushed.Err? {
        FailureStays(u, policy, documents, i + 1);
        return Err(pushed.error);
      }
    }
    assert documents[..|documents|] == documents;
    r := accumulator.Finish();
  }

  lemma {:induction false} FailureStays(u: Unicode, policy: AnalysisPolicy, documents: seq<AnalysisDocument>, n: nat)
    requires n <= |documents| && PushAll(u, policy, documents[..n]).Err?
    ensures PushAll(u, policy, documents) == PushAll(u, policy, documents[..n])
    decreases |documents|
  {
    hide Push;
    if n == |documents| {
      assert documents[..n] == documents;
    } else {
      var before := documents[..|documents| - 1];
      assert before[..n] == documents[..n];
      FailureStays(u, policy, before, n);
    }
  }

  /** An entry depends only on what the vocabulary holds for its own phrase. */
  lemma EntryLocal(u: Unicode, a: Vocabulary, b: Vocabulary, delta: Delta, p: string)
    requires p in delta && (p in a <==> p in b) && (p in a ==> a[p] == b[p])
    ensures EntryAfter(u, a, delta, p) == EntryAfter(u, b, delta, p)
  {
  }

  lemma PushAllStep(u: Unicode, policy: AnalysisPolicy, documents: seq<AnalysisDocument>, document: AnalysisDocument)
    requires PushAll(u, policy, documents).Ok?
    ensures PushAll(u, policy, documents + [document]) == Push(u, policy, PushAll(u, policy, documents).value, document)
  {
    hide Push;
    assert (documents + [document])[..|documents|] == documents;
  }

  /** Sort the entries of a vocabulary. */
  method Rank(vocabulary: Vocabulary) returns (ranked: seq<PhraseFrequency>)
    ensures IsRanking(ranked, vocabulary)
  {
    RankingTotal();
    ranked := [];
    var remaining := vocabulary.Keys;
    while remaining != {}
      invariant remaining <= vocabulary.Keys
      invariant Ascending(RanksBefore, ranked)
      invariant forall f :: f in ranked <==> exists p :: p in vocabulary.Keys - remaining && vocabulary[p] == f
      decreases |remaining|
    {
      var p :| p in remaining;
      InsertAscending(RanksBefore, vocabulary[p], ranked);
      InsertElements(RanksBefore, vocabulary[p], ranked);
      ranked := Insert(RanksBefore, vocabulary[p], ranked);
      remaining := remaining - {p};
    }
  }

  /** What an accumulator holds after a list of pushes, whatever each of them returned. */
  function AfterPushes(u: Unicode, policy: AnalysisPolicy, documents: seq<AnalysisDocument>): Accumulated {
    if documents == [] then Accumulated(EMPTY, false)
    else PushOutcome(u, policy, AfterPushes(u, policy, documents[..|documents| - 1]), documents[|documents| - 1]).0
  }

  /**
   * The first failed push is final: from then on the accumulator is poisoned and holds exactly what the documents
   * before that push amount to, however many pushes follow; without a failure it holds all of them.
   */
  lemma {:induction false} FirstFailureIsFinal(u: Unicode, policy: AnalysisPolicy, documents: seq<AnalysisDocument>)
    returns (accepted: nat)
    ensures accepted <= |documents|
    ensures PushAll(u, policy, documents[..accepted]) == Ok(AfterPushes(u, policy, documents).state)
    ensures AfterPushes(u, policy, documents).failed <==> accepted < |documents|
    ensures accepted < |documents| ==> PushAll(u, policy, documents[..accepted + 1]).Err?
  {
    hide Push;
    if documents == [] {
      accepted := 0;
    } else {
      var before, last := documents[..|documents| - 1], documents[|documents| - 1];
      accepted := FirstFailureIsFinal(u, policy, before);
      assert before[..accepted] == documents[..accepted];
      if accepted < |before| {
        assert before[..accepted + 1] == documents[..accepted + 1];
      } else {
        assert before[..accepted] == before;
        assert documents == before + [last] && documents[..accepted + 1] == documents;
        PushAllStep(u, policy, before, last);
        if PushAll(u, policy, documents).Ok? {
          accepted := |documents|;
        }
      }
    }
  }
}
