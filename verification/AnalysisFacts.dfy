/** What an analysis says of each document, in terms of the document's own fields and the policy's own rules. */
module AnalysisFacts {
  import opened Wrappers
  import opened AnalysisErrors
  import opened Text
  import opened Order
  import opened Windows
  import opened Phrases
  import opened Documents
  import opened StreamingDocument
  import opened AnalysisState
  import opened AnalysisOrder
  import opened SessionGraph
  import opened GraphLaws

  // ----- classification -----

  /** The longest prefix within a bound. */
  lemma PrefixExact(value: string, limit: Option<nat>)
    ensures var prefix := CharPrefix(value, limit);
            && prefix <= value
            && (limit.None? ==> prefix == value)
            && (limit.Some? ==> |prefix| == if |value| <= limit.value then |value| else limit.value)
  {
  }

  /** A rule with another target. */
  function Aimed(rule: ClassificationRule, target: Target): ClassificationRule {
    rule.(target := target)
  }

  /**
   * A rule's verdict is its test on the field of its target: the title, the summary, or the bounded first or whole user
   * text, where an absent field does not match; a rule for any field matches exactly when it would match one of them.
   */
  lemma VerdictReadsTarget(rule: ClassificationRule, document: AnalysisDocument, limit: Option<nat>, text: string)
    ensures var summary := document.session.summary; var first := document.firstUserText;
            && ClassificationMatches(Aimed(rule, TitleTarget),
                 document.(session := document.session.(title := Some(text))), limit) == rule.matches(text)
            && !ClassificationMatches(Aimed(rule, TitleTarget),
                 document.(session := document.session.(title := None)), limit)
            && ClassificationMatches(Aimed(rule, SummaryTarget),
                 document.(session := document.session.(summary := Some(text))), limit) == rule.matches(text)
            && !ClassificationMatches(Aimed(rule, SummaryTarget),
                 document.(session := document.session.(summary := None)), limit)
            && ClassificationMatches(Aimed(rule, FirstUserTextTarget),
                 document.(firstUserText := Some(text)), limit) == rule.matches(CharPrefix(text, limit))
            && !ClassificationMatches(Aimed(rule, FirstUserTextTarget), document.(firstUserText := None), limit)
            && ClassificationMatches(Aimed(rule, UserTextTarget),
                 document.(userText := text), limit) == rule.matches(CharPrefix(text, limit))
    ensures ClassificationMatches(Aimed(rule, AnyTarget), document, limit) <==>
              exists target | target in {TitleTarget, SummaryTarget, FirstUserTextTarget, UserTextTarget} ::
                ClassificationMatches(Aimed(rule, target), document, limit)
  {
    var targets := {TitleTarget, SummaryTarget, FirstUserTextTarget, UserTextTarget};
    assert TitleTarget in targets && SummaryTarget in targets && FirstUserTextTarget in targets
      && UserTextTarget in targets;
  }

  /** What one matching rule contributes. */
  function MatchOf(rule: ClassificationRule): ClassificationMatch {
    ClassificationMatch(rule.dimension, rule.ruleLabel, rule.target, rule.weight)
  }

  /** The matches are those of the rules that match, each with its own fields, in the order of the rules. */
  lemma {:induction false} ClassifiesInOrder(before: seq<ClassificationRule>, rule: ClassificationRule,
      after: seq<ClassificationRule>, document: AnalysisDocument, limit: Option<nat>)
    ensures ClassifyWith(before + [rule] + after, document, limit) ==
              ClassifyWith(before, document, limit) +
              (if ClassificationMatches(rule, document, limit) then [MatchOf(rule)] else []) +
              ClassifyWith(after, document, limit)
    decreases |before|
  {
    hide ClassificationMatches;
    var all := before + [rule] + after;
    if before == [] {
      assert all == [rule] + after && all[1..] == after;
    } else {
      ClassifiesInOrder(before[1..], rule, after, document, limit);
      assert all[0] == before[0] && all[1..] == before[1..] + [rule] + after;
    }
  }

  // ----- scores -----

  /** The weights of matches, added up. */
  function TotalWeight(matches: seq<ClassificationMatch>): int {
    if matches == [] then 0 else matches[0].weight + TotalWeight(matches[1..])
  }

  predicate InRange(total: int) {
    -0x8000_0000_0000_0000 <= total <= 0x7FFF_FFFF_FFFF_FFFF
  }

  /** Every total of the first matches fits 64 bits. */
  ghost predicate TotalsInRange(matches: seq<ClassificationMatch>) {
    forall k | 0 <= k <= |matches| :: InRange(TotalWeight(matches[..k]))
  }

  lemma {:induction false} TotalAppend(matches: seq<ClassificationMatch>, last: ClassificationMatch)
    ensures TotalWeight(matches + [last]) == TotalWeight(matches) + last.weight
  {
    if matches == [] {
      assert [last][1..] == [];
    } else {
      TotalAppend(matches[1..], last);
      assert (matches + [last])[1..] == matches[1..] + [last];
    }
  }

  /** A score is the sum of the weights, and there is none exactly when some total on the way leaves 64 bits. */
  lemma {:induction false} ScoreExact(matches: seq<ClassificationMatch>)
    ensures CheckedScore(matches) == if TotalsInRange(matches) then Some(TotalWeight(matches)) else None
  {
    if matches == [] {
      assert matches[..0] == [];
    } else {
      var before, last := matches[..|matches| - 1], matches[|matches| - 1];
      assert matches == before + [last];
      ScoreExact(before);
      TotalAppend(before, last);
      hide TotalWeight;
      assert matches[..|matches|] == matches;
      assert forall k | 0 <= k < |matches| :: matches[..k] == before[..k];
      assert TotalsInRange(matches) <==> TotalsInRange(before) && InRange(TotalWeight(matches)) by {
        if TotalsInRange(before) && InRange(TotalWeight(matches)) {
          forall k | 0 <= k <= |matches|
            ensures InRange(TotalWeight(matches[..k]))
          {
            if k < |matches| {
              assert matches[..k] == before[..k];
            }
          }
        }
        if TotalsInRange(matches) {
          forall k | 0 <= k <= |before|
            ensures InRange(TotalWeight(before[..k]))
          {
            assert before[..k] == matches[..k];
          }
          assert InRange(TotalWeight(matches[..|matches|]));
        }
      }
    }
  }

  // ----- sessions -----

  /** What a session says of its document. */
  ghost predicate Reflects(u: Unicode, policy: AnalysisPolicy, document: AnalysisDocument, analyzed: AnalyzedSession) {
    && analyzed.session == document.session
    && analyzed.classifications == Classify(policy, document)
    && TotalsInRange(analyzed.classifications)
    && analyzed.score == TotalWeight(analyzed.classifications)
    && analyzed.messageCount == document.messageCount
    && analyzed.userMessageCount == document.userMessageCount
    && (analyzed.hasUserText <==> exists c | c in document.userText :: !u.isWhitespace(c))
  }

  /**
   * A document is good exactly when its id is not blank, its phrases are within their bound, and its weights add up
   * without leaving 64 bits.
   */
  lemma GoodExact(u: Unicode, policy: AnalysisPolicy, document: AnalysisDocument)
    ensures Good(u, policy, document) <==>
              && (exists c | c in document.session.id :: !u.isWhitespace(c))
              && (policy.phrases.Some? ==> DocumentDelta(u, policy.phrases.value, document.userText).Ok?)
              && TotalsInRange(Classify(policy, document))
    ensures Good(u, policy, document) ==> Reflects(u, policy, document, AnalyzedOf(u, policy, document))
  {
    hide Trim, Classify, CheckedScore, TotalWeight, TotalsInRange, DocumentDelta;
    TrimEmpty(u, document.session.id);
    TrimEmpty(u, document.userText);
    ScoreExact(Classify(policy, document));
  }

  /** Every session of an accepted list says of its document what the policy asks. */
  lemma AcceptedReflects(u: Unicode, policy: AnalysisPolicy, documents: seq<AnalysisDocument>,
      document: AnalysisDocument)
    requires PushAll(u, policy, documents).Ok? && document in documents
    ensures var sessions := PushAll(u, policy, documents).value.sessions;
            document.session.id in sessions && Reflects(u, policy, document, sessions[document.session.id])
  {
    hide PushAll, Good, AnalyzedOf, Reflects, TitlesMatch, PhrasesFit, DistinctIds;
    AcceptedExactly(u, policy, documents);
    GoodExact(u, policy, document);
    assert document.session.id in IdsOf(documents);
  }

  /** And so does every session of a finished analysis. */
  lemma FinishedReflects(u: Unicode, policy: AnalysisPolicy, documents: seq<AnalysisDocument>, sessions: Sessions,
      document: AnalysisDocument)
    requires Finished(u, policy, documents, sessions) && document in documents
    ensures document.session.id in sessions && Reflects(u, policy, document, sessions[document.session.id])
  {
    AcceptedReflects(u, policy, documents, document);
    hide PushAll, SessionHints, Classify, TotalWeight, TotalsInRange;
  }

  /** Why one push fails: the first of these that applies. */
  lemma PushFailsExactly(u: Unicode, policy: AnalysisPolicy, st: State, document: AnalysisDocument)
    ensures var r := Push(u, policy, st, document);
            var blank := forall c | c in document.session.id :: u.isWhitespace(c);
            var again := document.session.id in st.sessions;
            var tooMany := policy.phrases.Some? && DocumentDelta(u, policy.phrases.value, document.userText).Err?;
            var inRange := TotalsInRange(Classify(policy, document));
            && (r == Err(EmptySessionId) <==> blank)
            && (r == Err(DuplicateSession) <==> !blank && again)
            && (r == Err(TooManyPhrases) <==> !blank && !again && tooMany)
            && (r == Err(ScoreOverflow) <==> !blank && !again && !tooMany && !inRange)
            && (r.Err? && !blank && !again && !tooMany && inRange ==> r.error in {VocabularyFull, CountOverflow})
  {
    hide Trim, Classify, CheckedScore, TotalWeight, TotalsInRange, DocumentDelta, MergedVocabulary;
    TrimEmpty(u, document.session.id);
    ScoreExact(Classify(policy, document));
    if policy.phrases.Some? {
      DeltaFailure(u, policy.phrases.value, document.userText);
    }
    var delta := OptionalDelta(u, policy, document.userText);
    if delta.Ok? {
      MergeFailure(u, policy, st.vocabulary, delta.value);
    }
  }

  lemma DeltaFailure(u: Unicode, spec: PhraseSpec, content: string)
    ensures DocumentDelta(u, spec, content).Err? ==> DocumentDelta(u, spec, content).error == TooManyPhrases
  {
  }

  /** Merging fails for too many phrases, or else for a phrase already present whose counts would leave 64 bits. */
  lemma MergeFailure(u: Unicode, policy: AnalysisPolicy, vocabulary: Vocabulary, delta: Option<Delta>)
    ensures var r := MergedVocabulary(u, policy, vocabulary, delta);
            var merges := policy.phrases.Some? && delta.Some?;
            var full := merges && |vocabulary.Keys + delta.value.Keys| > policy.phrases.value.maxUnique;
            && (r == Err(VocabularyFull) <==> full)
            && (r == Err(CountOverflow) <==>
                  merges && !full && exists p | p in delta.value && p in vocabulary ::
                    vocabulary[p].occurrences + delta.value[p] > 0xFFFF_FFFF_FFFF_FFFF
                    || vocabulary[p].documents + 1 > 0xFFFF_FFFF_FFFF_FFFF)
            && (r.Err? ==> r.error in {VocabularyFull, CountOverflow})
  {
    hide EntryAfter;
    if policy.phrases.Some? && delta.Some? {
      if p :| p in vocabulary && p in delta.value && Overflows(vocabulary, delta.value, p) {
        assert p in vocabulary.Keys + delta.value.Keys;
      }
      forall p | p in delta.value && p in vocabulary
        ensures Overflows(vocabulary, delta.value, p) <==>
                  vocabulary[p].occurrences + delta.value[p] > 0xFFFF_FFFF_FFFF_FFFF
                  || vocabulary[p].documents + 1 > 0xFFFF_FFFF_FFFF_FFFF
      {
        assert p in vocabulary.Keys + delta.value.Keys;
      }
    }
  }

  // ----- ranking -----

  /** The first different character of two texts decides. */
  ghost predicate DiffersAt(a: string, b: string, k: nat) {
    k < |a| && k < |b| && a[..k] == b[..k] && a[k] < b[k]
  }

  lemma {:induction false} LexWitness(a: string, b: string)
    requires LexLess(a, b)
    ensures a < b || exists k: nat :: DiffersAt(a, b, k)
  {
    if a != [] && a[0] == b[0] {
      LexWitness(a[1..], b[1..]);
      assert a == [a[0]] + a[1..] && b == [b[0]] + b[1..];
      if k: nat :| DiffersAt(a[1..], b[1..], k) {
        assert a[..k + 1] == [a[0]] + a[1..][..k] && b[..k + 1] == [b[0]] + b[1..][..k];
        assert DiffersAt(a, b, k + 1);
      }
    } else if a != [] {
      assert DiffersAt(a, b, 0);
    }
  }

  lemma {:induction false} LexFrom(a: string, b: string, k: nat)
    requires (k == |a| < |b| && a == b[..k]) || DiffersAt(a, b, k)
    ensures LexLess(a, b)
    decreases k
  {
    if k > 0 {
      assert a[..k][0] == a[0] && b[..k][0] == b[0];
      assert a[1..][..k - 1] == a[..k][1..] && b[1..][..k - 1] == b[..k][1..];
      LexFrom(a[1..], b[1..], k - 1);
    }
  }

  /** Text order: a beginning comes first, and otherwise the first different character decides. */
  lemma LexExact(a: string, b: string)
    ensures LexLess(a, b) <==> a < b || exists k: nat :: DiffersAt(a, b, k)
  {
    if LexLess(a, b) {
      LexWitness(a, b);
    } else if a < b {
      LexFrom(a, b, |a|);
    } else if k: nat :| DiffersAt(a, b, k) {
      LexFrom(a, b, k);
    }
  }

  /** The vocabulary lists every phrase once, by falling occurrences, then documents, then words, then in text order. */
  lemma RankingExact(ranked: seq<PhraseFrequency>, vocabulary: Vocabulary)
    requires IsRanking(ranked, vocabulary)
    ensures forall p | p in vocabulary :: vocabulary[p] in ranked
    ensures forall i, j | 0 <= i < j < |ranked| ::
              var a, b := ranked[i], ranked[j];
              && a.occurrences >= b.occurrences
              && (a.occurrences == b.occurrences ==> a.documents >= b.documents)
              && (a.occurrences == b.occurrences && a.documents == b.documents ==> a.words >= b.words)
              && (a.occurrences == b.occurrences && a.documents == b.documents && a.words == b.words ==>
                    LexLess(a.phrase, b.phrase))
  {
    hide LexLess;
  }

  // ----- the graph -----

  /** The documents whose sessions share a trimmed value of a field. */
  function SharingIds(u: Unicode, documents: seq<AnalysisDocument>, key: string,
      field: AnalysisDocument -> Option<string>): set<string>
  {
    set d | d in documents && field(d).Some? && Trim(u, field(d).value) == key :: d.session.id
  }

  function Cwd(): AnalysisDocument -> Option<string> {
    (d: AnalysisDocument) => d.session.cwd
  }

  function RepoRoot(): AnalysisDocument -> Option<string> {
    (d: AnalysisDocument) => d.session.repoRoot
  }

  /** The ids of a group, for a given dimension. */
  ghost predicate Gathers(u: Unicode, documents: seq<AnalysisDocument>, group: Group) {
    && group.key != []
    && Ascending(LexLess, group.sessionIds)
    && var ids := SharingIds(u, documents, group.key,
      if group.dimension == "working_directory" then Cwd() else RepoRoot());
       |ids| > 1 && forall id :: id in group.sessionIds <==> id in ids
  }

  lemma MembersAreSharing(u: Unicode, policy: AnalysisPolicy, documents: seq<AnalysisDocument>, sessions: Sessions,
      key: string)
    requires Finished(u, policy, documents, sessions) && key != []
    ensures Members(u, sessions, "working_directory", key) == SharingIds(u, documents, key, Cwd())
    ensures Members(u, sessions, "repository", key) == SharingIds(u, documents, key, RepoRoot())
  {
    hide Trim, Finished, HintsCalledFor;
    ResolvedExactly(u, policy, documents, sessions);
    forall id
      ensures id in Members(u, sessions, "working_directory", key) <==> id in SharingIds(u, documents, key, Cwd())
      ensures id in Members(u, sessions, "repository", key) <==> id in SharingIds(u, documents, key, RepoRoot())
    {
      if id in sessions {
        var d :| d in documents && d.session.id == id;
        assert sessions[id].session == d.session;
      }
    }
  }

  /**
   * The groups are exactly the trimmed working directories and repository roots, not blank, that several
   * documents share, each with the ids of these documents in order.
   */
  lemma GroupsExact(u: Unicode, policy: AnalysisPolicy, documents: seq<AnalysisDocument>, sessions: Sessions, g: Graph)
    requires Finished(u, policy, documents, sessions) && IsGraphOf(u, sessions, g)
    ensures forall group :: group in g.groups <==>
              group.dimension in {"working_directory", "repository"} && Gathers(u, documents, group)
  {
    hide Finished, Trim, EdgeLess, Hinted, InKeyOrder, SharingIds;
    forall group
      ensures IsGroup(u, sessions, group) <==>
                group.dimension in {"working_directory", "repository"} && Gathers(u, documents, group)
    {
      if group.key == [] {
        NoBlankMembers(u, sessions, group.dimension);
      } else {
        MembersAreSharing(u, policy, documents, sessions, group.key);
      }
    }
  }

  lemma NoBlankMembers(u: Unicode, sessions: Sessions, dimension: string)
    ensures |Members(u, sessions, dimension, [])| == 0
  {
    assert Members(u, sessions, dimension, []) == {};
  }

  /** One node for each document, with the document's fields and the score and matches of its session. */
  lemma NodesExact(u: Unicode, policy: AnalysisPolicy, documents: seq<AnalysisDocument>, sessions: Sessions, g: Graph,
      d: AnalysisDocument)
    requires Finished(u, policy, documents, sessions) && IsGraphOf(u, sessions, g) && d in documents
    ensures |g.nodes| == |documents| && d.session.id in g.nodes
    ensures var node := g.nodes[d.session.id];
            && node.sessionId == d.session.id
            && node.provider == d.session.provider && node.title == d.session.title
            && node.cwd == d.session.cwd && node.repoRoot == d.session.repoRoot
            && node.classifications == Classify(policy, d)
            && node.score == TotalWeight(node.classifications)
  {
    FinishedReflects(u, policy, documents, sessions, d);
    CountSessions(u, policy, documents, sessions);
    hide Finished, EdgeLess, Hinted, InKeyOrder, IsGroup, Classify, TotalWeight, TotalsInRange;
    assert g.nodes.Keys == sessions.Keys;
  }

  lemma CountSessions(u: Unicode, policy: AnalysisPolicy, documents: seq<AnalysisDocument>, sessions: Sessions)
    requires Finished(u, policy, documents, sessions)
    ensures |sessions| == |documents|
  {
    hide Finished, HintsCalledFor;
    ResolvedExactly(u, policy, documents, sessions);
    AcceptedIdsDistinct(u, policy, documents, sessions);
    DistinctByCount(documents);
    forall id
      ensures id in sessions.Keys <==> id in IdsOf(documents)
    {
    }
    assert sessions.Keys == IdsOf(documents);
  }

  lemma AcceptedIdsDistinct(u: Unicode, policy: AnalysisPolicy, documents: seq<AnalysisDocument>, sessions: Sessions)
    requires Finished(u, policy, documents, sessions)
    ensures DistinctIds(documents)
  {
    hide PushAll, FinishSessions, Good, PhrasesFit, Describes, DistinctIds;
    AcceptedExactly(u, policy, documents);
  }

  /** Edges come by source, then target, then kind (branch, copy, version), then rule, without repetition. */
  lemma EdgesInOrder(edges: seq<Edge>)
    requires Ascending(EdgeLess, edges)
    ensures forall i, j | 0 <= i < j < |edges| ::
              var a, b := edges[i], edges[j];
              && (a.source != b.source ==> LexLess(a.source, b.source))
              && (a.source == b.source && a.target != b.target ==> LexLess(a.target, b.target))
              && (a.source == b.source && a.target == b.target && a.kind != b.kind ==>
                a.kind.Branch? || b.kind.Version?)
              && (a.source == b.source && a.target == b.target && a.kind == b.kind ==> LexLess(a.ruleId, b.ruleId))
  {
    hide LexLess;
  }

  /** Groups come by dimension and then by key, without repetition. */
  lemma GroupsInOrder(groups: seq<Group>)
    requires InKeyOrder(groups)
    ensures forall i, j | 0 <= i < j < |groups| ::
              if groups[i].dimension != groups[j].dimension then LexLess(groups[i].dimension, groups[j].dimension)
              else LexLess(groups[i].key, groups[j].key)
  {
    hide LexLess;
    forall i, j | 0 <= i < j < |groups|
      ensures GroupLess(KeyOf(groups[i]), KeyOf(groups[j]))
    {
    }
  }
}
