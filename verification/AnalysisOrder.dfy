/** Which lists of documents an analysis accepts, what it then holds, and that their order does not matter. */
module AnalysisOrder {
  import opened Wrappers
  import opened AnalysisErrors
  import opened Text
  import opened Order
  import opened Sums
  import opened Windows
  import opened Phrases
  import opened PhraseFacts
  import opened Documents
  import opened StreamingDocument
  import opened Relationships
  import opened AnalysisState
  import opened AnalysisLaws

  /** A document that fails no check of its own: named, within its phrase bound, with a score in range. */
  predicate Good(u: Unicode, policy: AnalysisPolicy, document: AnalysisDocument) {
    && Trim(u, document.session.id) != []
    && ContributionOf(u, policy, document).Ok?
    && CheckedScore(ContributionOf(u, policy, document).value.classifications).Some?
  }

  function AnalyzedOf(u: Unicode, policy: AnalysisPolicy, document: AnalysisDocument): AnalyzedSession
    requires Good(u, policy, document)
  {
    var c := ContributionOf(u, policy, document).value;
    Analyzed(c, CheckedScore(c.classifications).value)
  }

  /** The phrase counts of one document; none when the policy does not ask for them. */
  function DeltaIn(u: Unicode, policy: AnalysisPolicy, document: AnalysisDocument): Delta {
    match OptionalDelta(u, policy, document.userText)
    case Ok(Some(delta)) => delta
    case _ => map[]
  }

  function DeltasOf(u: Unicode, policy: AnalysisPolicy, documents: seq<AnalysisDocument>): Deltas {
    seq(|documents|, i requires 0 <= i < |documents| => DeltaIn(u, policy, documents[i]))
  }

  predicate DistinctIds(documents: seq<AnalysisDocument>) {
    forall i, j | 0 <= i < j < |documents| :: documents[i].session.id != documents[j].session.id
  }

  function IdsOf(documents: seq<AnalysisDocument>): set<string> {
    set document | document in documents :: document.session.id
  }

  predicate AllGood(u: Unicode, policy: AnalysisPolicy, documents: seq<AnalysisDocument>) {
    forall document | document in documents :: Good(u, policy, document)
  }

  predicate PhrasesFit(u: Unicode, policy: AnalysisPolicy, documents: seq<AnalysisDocument>) {
    policy.phrases.Some? ==> VocabularyFits(policy.phrases.value.maxUnique, DeltasOf(u, policy, documents))
  }

  /** Every document is good, no id repeats, and the totals of all documents fit. */
  predicate Acceptable(u: Unicode, policy: AnalysisPolicy, documents: seq<AnalysisDocument>) {
    AllGood(u, policy, documents) && DistinctIds(documents) && PhrasesFit(u, policy, documents)
  }

  ghost predicate SessionsMatch(u: Unicode, policy: AnalysisPolicy, documents: seq<AnalysisDocument>,
      sessions: Sessions)
    requires AllGood(u, policy, documents)
  {
    && sessions.Keys == IdsOf(documents)
    && forall document | document in documents :: sessions[document.session.id] == AnalyzedOf(u, policy, document)
  }

  predicate HasTitle(documents: seq<AnalysisDocument>, id: string, title: string) {
    exists document | document in documents :: document.session.id == id && document.session.title == Some(title)
  }

  ghost predicate TitlesMatch(documents: seq<AnalysisDocument>, titles: Titles) {
    forall title, id :: id in TitledIds(titles, title) <==> HasTitle(documents, id, title)
  }

  function VocabularyOf(u: Unicode, policy: AnalysisPolicy, documents: seq<AnalysisDocument>): Vocabulary {
    if policy.phrases.Some? then Totals(u, DeltasOf(u, policy, documents)) else map[]
  }

  /** What an accumulator holds after these documents. */
  ghost predicate Describes(u: Unicode, policy: AnalysisPolicy, documents: seq<AnalysisDocument>, st: State)
    requires AllGood(u, policy, documents)
  {
    && SessionsMatch(u, policy, documents, st.sessions)
    && TitlesMatch(documents, st.titles)
    && st.vocabulary == VocabularyOf(u, policy, documents)
  }

  lemma ContributionParts(u: Unicode, policy: AnalysisPolicy, document: AnalysisDocument)
    requires ContributionOf(u, policy, document).Ok?
    ensures var c := ContributionOf(u, policy, document).value;
            && c.session == document.session
            && c.delta == if policy.phrases.Some? then Some(DeltaIn(u, policy, document)) else None
  {
  }

  lemma DeltasStep(u: Unicode, policy: AnalysisPolicy, documents: seq<AnalysisDocument>, document: AnalysisDocument)
    ensures DeltasOf(u, policy, documents + [document]) ==
              DeltasOf(u, policy, documents) + [DeltaIn(u, policy, document)]
  {
  }

  /** The next vocabulary, when there is one. */
  lemma VocabularyStep(u: Unicode, policy: AnalysisPolicy, documents: seq<AnalysisDocument>, document: AnalysisDocument)
    requires PhrasesFit(u, policy, documents) && ContributionOf(u, policy, document).Ok?
    ensures var merged := MergedVocabulary(u, policy, VocabularyOf(u, policy, documents),
              ContributionOf(u, policy, document).value.delta);
            && (merged.Ok? <==> PhrasesFit(u, policy, documents + [document]))
            && (merged.Ok? ==> merged.value == VocabularyOf(u, policy, documents + [document]))
  {
    hide ContributionOf, VocabularyFits, Totals, MergeVocabulary, DeltaIn;
    ContributionParts(u, policy, document);
    DeltasStep(u, policy, documents, document);
    if policy.phrases.Some? {
      MergeStep(u, policy.phrases.value.maxUnique, DeltasOf(u, policy, documents), DeltaIn(u, policy, document));
    }
  }

  lemma IdsStep(documents: seq<AnalysisDocument>, document: AnalysisDocument)
    ensures IdsOf(documents + [document]) == IdsOf(documents) + {document.session.id}
    ensures DistinctIds(documents + [document]) <==> DistinctIds(documents) && document.session.id !in IdsOf(documents)
  {
    var all := documents + [document];
    assert forall d :: d in all <==> d in documents || d == document;
    if DistinctIds(all) {
      forall i, j | 0 <= i < j < |documents|
        ensures documents[i].session.id != documents[j].session.id
      {
        assert all[i].session.id != all[j].session.id;
      }
      forall d | d in documents
        ensures d.session.id != document.session.id
      {
        var i :| 0 <= i < |documents| && documents[i] == d;
        assert all[i].session.id != all[|documents|].session.id;
      }
    }
    if DistinctIds(documents) && document.session.id !in IdsOf(documents) {
      forall i, j | 0 <= i < j < |all|
        ensures all[i].session.id != all[j].session.id
      {
        assert all[i] in documents;
      }
    }
  }

  lemma TitlesStep(documents: seq<AnalysisDocument>, document: AnalysisDocument, titles: Titles)
    requires TitlesMatch(documents, titles)
    ensures TitlesMatch(documents + [document], MergeTitles(titles, document.session))
  {
    var all, next := documents + [document], MergeTitles(titles, document.session);
    forall title, id
      ensures id in TitledIds(next, title) <==> HasTitle(all, id, title)
    {
      assert forall d :: d in all <==> d in documents || d == document;
      assert id in TitledIds(titles, title) <==> HasTitle(documents, id, title);
      assert HasTitle(all, id, title) <==>
             HasTitle(documents, id, title) || (document.session.id == id && document.session.title == Some(title)) by {
        if HasTitle(documents, id, title) {
          var d :| d in documents && d.session.id == id && d.session.title == Some(title);
          assert d in all;
        }
      }
    }
  }

  lemma GoodStep(u: Unicode, policy: AnalysisPolicy, documents: seq<AnalysisDocument>, document: AnalysisDocument)
    ensures AllGood(u, policy, documents + [document]) <==> AllGood(u, policy, documents) && Good(u, policy, document)
  {
    hide Good;
    assert forall d :: d in documents + [document] <==> d in documents || d == document;
  }

  /** A push succeeds exactly when the documents stay acceptable. */
  lemma PushAccepts(u: Unicode, policy: AnalysisPolicy, documents: seq<AnalysisDocument>, st: State,
      document: AnalysisDocument)
    requires Acceptable(u, policy, documents) && Describes(u, policy, documents, st)
    ensures Push(u, policy, st, document).Ok? <==> Acceptable(u, policy, documents + [document])
  {
    hide ContributionOf, CheckedScore, MergedVocabulary, VocabularyOf, PhrasesFit, TitlesMatch, AllGood,
        DistinctIds, Trim;
    GoodStep(u, policy, documents, document);
    IdsStep(documents, document);
    if Good(u, policy, document) {
      VocabularyStep(u, policy, documents, document);
    }
  }

  /** What an accumulator holds after one more document. */
  lemma PushDescribes(u: Unicode, policy: AnalysisPolicy, documents: seq<AnalysisDocument>, st: State,
      document: AnalysisDocument)
    requires Acceptable(u, policy, documents) && Describes(u, policy, documents, st)
    requires Push(u, policy, st, document).Ok?
    ensures AllGood(u, policy, documents + [document])
    ensures Describes(u, policy, documents + [document], Push(u, policy, st, document).value)
  {
    hide ContributionOf, CheckedScore, MergedVocabulary, VocabularyOf, PhrasesFit, TitlesMatch, AllGood, DistinctIds,
        Trim, MergeTitles, SessionsMatch;
    GoodStep(u, policy, documents, document);
    VocabularyStep(u, policy, documents, document);
    ContributionParts(u, policy, document);
    TitlesStep(documents, document, st.titles);
    SessionsStep(u, policy, documents, document, st.sessions);
  }

  lemma SessionsStep(u: Unicode, policy: AnalysisPolicy, documents: seq<AnalysisDocument>, document: AnalysisDocument,
      sessions: Sessions)
    requires AllGood(u, policy, documents) && Good(u, policy, document) && SessionsMatch(u, policy, documents, sessions)
    requires document.session.id !in sessions
    ensures AllGood(u, policy, documents + [document])
    ensures SessionsMatch(u, policy, documents + [document],
              sessions[document.session.id := AnalyzedOf(u, policy, document)])
  {
    hide Good, AnalyzedOf;
    GoodStep(u, policy, documents, document);
    IdsStep(documents, document);
    forall d | d in documents
      ensures d.session.id != document.session.id
    {
      assert d.session.id in IdsOf(documents);
    }
  }

  /**
   * A list of documents is accepted exactly when every document is good, ids are distinct and the totals fit; the
   * accumulator then holds every session, every title and the conserved totals of every phrase.
   */
  lemma {:induction false} AcceptedExactly(u: Unicode, policy: AnalysisPolicy, documents: seq<AnalysisDocument>)
    ensures PushAll(u, policy, documents).Ok? <==> Acceptable(u, policy, documents)
    ensures PushAll(u, policy, documents).Ok? ==> Describes(u, policy, documents, PushAll(u, policy, documents).value)
  {
    if documents == [] {
      NothingAccepted(u, policy);
    } else {
      hide Push, Acceptable, Describes;
      var before, last := documents[..|documents| - 1], documents[|documents| - 1];
      assert documents == before + [last];
      AcceptedExactly(u, policy, before);
      if Acceptable(u, policy, before) {
        var st := PushAll(u, policy, before).value;
        PushAccepts(u, policy, before, st, last);
        if Push(u, policy, st, last).Ok? {
          PushDescribes(u, policy, before, st, last);
        }
      } else {
        AcceptableBefore(u, policy, before, last);
      }
    }
  }

  lemma NothingAccepted(u: Unicode, policy: AnalysisPolicy)
    ensures Acceptable(u, policy, []) && Describes(u, policy, [], EMPTY)
  {
    assert DeltasOf(u, policy, []) == [];
    if policy.phrases.Some? {
      NoTotals(u, policy.phrases.value.maxUnique);
    }
  }

  lemma AcceptableBefore(u: Unicode, policy: AnalysisPolicy, documents: seq<AnalysisDocument>,
      document: AnalysisDocument)
    ensures Acceptable(u, policy, documents + [document]) ==> Acceptable(u, policy, documents)
  {
    hide Good, VocabularyFits, DistinctIds;
    GoodStep(u, policy, documents, document);
    IdsStep(documents, document);
    DeltasStep(u, policy, documents, document);
    if policy.phrases.Some? && PhrasesFit(u, policy, documents + [document]) {
      FitsBefore(policy.phrases.value.maxUnique, DeltasOf(u, policy, documents), DeltaIn(u, policy, document));
    }
  }

  // ----- conservation -----

  /** The phrase of a window of a document. */
  function WindowOf(u: Unicode, spec: PhraseSpec, document: AnalysisDocument, end: nat, width: nat): Option<string> {
    PhrasesOf(u, spec, DocumentTokens(u, spec, document.userText))(end, width)
  }

  /**
   * In every reachable state a phrase's occurrences are the sum of its occurrences in the documents accepted, its
   * document count is the number of these that have it, its words are the width of every window, in any document, that
   * reads like it, and there are at most as many phrases as the policy allows.
   */
  lemma Conservation(u: Unicode, policy: AnalysisPolicy, documents: seq<AnalysisDocument>, phrase: string)
    requires PushAll(u, policy, documents).Ok? && policy.phrases.Some?
    requires phrase in PushAll(u, policy, documents).value.vocabulary
    ensures var entry := PushAll(u, policy, documents).value.vocabulary[phrase];
            && entry.phrase == phrase
            && entry.occurrences == SumBy(OccursIn(phrase), DeltasOf(u, policy, documents))
            && entry.documents == SumBy(Uses(phrase), DeltasOf(u, policy, documents)) > 0
            && entry.words in policy.phrases.value.widths
            && forall d: AnalysisDocument, end: nat, width: nat ::
                 WindowOf(u, policy.phrases.value, d, end, width) == Some(phrase) ==> entry.words == width
    ensures |PushAll(u, policy, documents).value.vocabulary| <= policy.phrases.value.maxUnique
  {
    hide PushAll, Good, VocabularyFits, Totals, DeltasOf, SessionsMatch, TitlesMatch, SumBy, OccursIn, Uses;
    AcceptedExactly(u, policy, documents);
    var deltas := DeltasOf(u, policy, documents);
    TotalsEntry(u, policy.phrases.value.maxUnique, deltas, phrase);
    SomeDelta(u, policy, documents, phrase);
    forall d: AnalysisDocument, end: nat, width: nat | WindowOf(u, policy.phrases.value, d, end, width) == Some(phrase)
      ensures |SplitWhitespace(u, phrase)| == width
    {
      WordsOfPhrase(u, policy.phrases.value, d.userText, end, width, phrase);
    }
  }

  lemma TotalsEntry(u: Unicode, bound: nat, deltas: Deltas, phrase: string)
    requires VocabularyFits(bound, deltas) && phrase in Totals(u, deltas)
    ensures var entry := Totals(u, deltas)[phrase];
            && entry.phrase == phrase && entry.words == |SplitWhitespace(u, phrase)|
            && entry.occurrences == SumBy(OccursIn(phrase), deltas)
            && entry.documents == SumBy(Uses(phrase), deltas) > 0
    ensures |Totals(u, deltas)| <= bound && phrase in PhrasesIn(deltas)
  {
    hide SumBy, SplitWhitespace, PhrasesIn, TotalsFit;
    TotalsKeys(u, deltas);
    UsedPhrases(deltas, phrase);
  }

  lemma SomeDelta(u: Unicode, policy: AnalysisPolicy, documents: seq<AnalysisDocument>, phrase: string)
    requires policy.phrases.Some? && phrase in PhrasesIn(DeltasOf(u, policy, documents))
    ensures |SplitWhitespace(u, phrase)| in policy.phrases.value.widths
  {
    hide DeltaIn, PhrasesIn, SplitWhitespace;
    var deltas := DeltasOf(u, policy, documents);
    PhrasesInElements(deltas);
    var delta :| delta in deltas && phrase in delta;
    var i :| 0 <= i < |deltas| && deltas[i] == delta;
    DeltaWords(u, policy, documents[i], phrase);
  }

  lemma DeltaWords(u: Unicode, policy: AnalysisPolicy, document: AnalysisDocument, phrase: string)
    requires policy.phrases.Some? && phrase in DeltaIn(u, policy, document)
    ensures |SplitWhitespace(u, phrase)| in policy.phrases.value.widths
  {
    hide DocumentDelta;
    DeltaPhrases(u, policy.phrases.value, document.userText, phrase);
  }

  // ----- order -----

  lemma {:induction false} DistinctByCount(documents: seq<AnalysisDocument>)
    ensures |IdsOf(documents)| <= |documents|
    ensures DistinctIds(documents) <==> |IdsOf(documents)| == |documents|
  {
    if documents == [] {
      assert IdsOf(documents) == {};
    } else {
      var before, last := documents[..|documents| - 1], documents[|documents| - 1];
      assert documents == before + [last];
      DistinctByCount(before);
      IdsStep(before, last);
    }
  }

  lemma {:induction false} DeltasPermute(u: Unicode, policy: AnalysisPolicy, a: seq<AnalysisDocument>,
      b: seq<AnalysisDocument>)
    requires multiset(a) == multiset(b)
    ensures multiset(DeltasOf(u, policy, a)) == multiset(DeltasOf(u, policy, b))
    decreases |a|
  {
    hide DeltaIn;
    PermutedElements(a, b);
    if a != [] {
      var n := |a| - 1;
      assert a[n] in b;
      var i :| 0 <= i < |b| && b[i] == a[n];
      RemoveMultiset(a, n);
      RemoveMultiset(b, i);
      assert RemoveAt(a, n) == a[..n];
      DeltasPermute(u, policy, a[..n], RemoveAt(b, i));
      DeltasRemove(u, policy, a, n);
      DeltasRemove(u, policy, b, i);
      PutBack(multiset(DeltasOf(u, policy, a)), multiset(DeltasOf(u, policy, b)), DeltaIn(u, policy, a[n]));
    }
  }

  lemma DeltasRemove(u: Unicode, policy: AnalysisPolicy, documents: seq<AnalysisDocument>, i: nat)
    requires i < |documents|
    ensures DeltaIn(u, policy, documents[i]) in multiset(DeltasOf(u, policy, documents))
    ensures multiset(DeltasOf(u, policy, RemoveAt(documents, i))) ==
            multiset(DeltasOf(u, policy, documents)) - multiset{DeltaIn(u, policy, documents[i])}
  {
    hide DeltaIn;
    var deltas := DeltasOf(u, policy, documents);
    assert deltas[i] in multiset(deltas);
    assert DeltasOf(u, policy, RemoveAt(documents, i)) == RemoveAt(deltas, i);
    RemoveMultiset(deltas, i);
  }

  lemma PutBack<T>(a: multiset<T>, b: multiset<T>, x: T)
    requires x in a && x in b && a - multiset{x} == b - multiset{x}
    ensures a == b
  {
    assert a == a - multiset{x} + multiset{x};
    assert b == b - multiset{x} + multiset{x};
  }

  /** Every bound and every check trips for one order exactly when it trips for the other. */
  lemma AcceptancePermutes(u: Unicode, policy: AnalysisPolicy, a: seq<AnalysisDocument>, b: seq<AnalysisDocument>)
    requires multiset(a) == multiset(b)
    ensures Acceptable(u, policy, a) <==> Acceptable(u, policy, b)
  {
    hide Good, DistinctIds, VocabularyFits, DeltasOf;
    PermutedElements(a, b);
    DistinctByCount(a);
    DistinctByCount(b);
    assert IdsOf(a) == IdsOf(b);
    DeltasPermute(u, policy, a, b);
    if policy.phrases.Some? {
      TotalsPermute(u, policy.phrases.value.maxUnique, DeltasOf(u, policy, a), DeltasOf(u, policy, b));
    }
  }

  ghost predicate SameTitles(a: Titles, b: Titles) {
    forall title :: SameElements(TitledIds(a, title), TitledIds(b, title))
  }

  /** Two orders leave the same sessions, the same vocabulary and the same ids under every title. */
  lemma DescribedAlike(u: Unicode, policy: AnalysisPolicy, a: seq<AnalysisDocument>, b: seq<AnalysisDocument>,
      sa: State, sb: State)
    requires multiset(a) == multiset(b) && AllGood(u, policy, a) && AllGood(u, policy, b)
    requires Describes(u, policy, a, sa) && Describes(u, policy, b, sb)
    ensures sa.sessions == sb.sessions && sa.vocabulary == sb.vocabulary && SameTitles(sa.titles, sb.titles)
  {
    hide Good, AnalyzedOf, Totals, DeltasOf;
    PermutedElements(a, b);
    forall id | id in sa.sessions
      ensures id in sb.sessions && sa.sessions[id] == sb.sessions[id]
    {
      var document :| document in a && document.session.id == id;
      assert document in b;
    }
    forall id | id in sb.sessions
      ensures id in sa.sessions
    {
      var document :| document in b && document.session.id == id;
      assert document in a;
    }
    forall title, id
      ensures id in TitledIds(sa.titles, title) <==> id in TitledIds(sb.titles, title)
    {
      assert id in TitledIds(sa.titles, title) <==> HasTitle(a, id, title);
      assert id in TitledIds(sb.titles, title) <==> HasTitle(b, id, title);
    }
    if policy.phrases.Some? {
      DeltasPermute(u, policy, a, b);
      TotalsPermute(u, policy.phrases.value.maxUnique, DeltasOf(u, policy, a), DeltasOf(u, policy, b));
    }
  }

  lemma CandidatesAlike(a: Titles, b: Titles, parent: string, self: string)
    requires SameTitles(a, b)
    ensures Candidates(a, parent, self) == Candidates(b, parent, self)
  {
    LexTotal();
    assert SameElements(TitledIds(a, parent), TitledIds(b, parent));
    SortSorts(LexLess, TitledIds(a, parent));
    SortSorts(LexLess, TitledIds(b, parent));
    AscendingUnique(LexLess, SortDedup(LexLess, TitledIds(a, parent)), SortDedup(LexLess, TitledIds(b, parent)));
  }

  lemma {:induction false} CollectAlike(a: HintAt, b: HintAt, count: nat)
    requires forall k: nat :: a(k) == b(k)
    ensures Collect(a, count) == Collect(b, count)
  {
    if count > 0 {
      CollectAlike(a, b, count - 1);
    }
  }

  lemma HintsAlike(u: Unicode, policy: AnalysisPolicy, a: Titles, b: Titles, analyzed: AnalyzedSession, id: string)
    requires SameTitles(a, b)
    ensures SessionHints(u, policy, a, analyzed, id) == SessionHints(u, policy, b, analyzed, id)
  {
    hide Candidates, Collect, Trim;
    if analyzed.session.title.Some? {
      var title := analyzed.session.title.value;
      var ha, hb := RuleHints(u, a, policy.relationships, id, title), RuleHints(u, b, policy.relationships, id, title);
      forall k: nat
        ensures ha(k) == hb(k)
      {
        if k < |policy.relationships| {
          var parent := policy.relationships[k].capture(title);
          if parent.Some? && parent.value.Some? {
            CandidatesAlike(a, b, Trim(u, parent.value.value), id);
          }
        }
      }
      CollectAlike(ha, hb, |policy.relationships|);
    }
  }

  /** States that differ only in the order of ids under a title finish alike. */
  lemma FinishAlike(u: Unicode, policy: AnalysisPolicy, a: State, b: State,
                    ra: Result<AnalysisResult, AnalysisError>, rb: Result<AnalysisResult, AnalysisError>)
    requires a.sessions == b.sessions && a.vocabulary == b.vocabulary && SameTitles(a.titles, b.titles)
    requires FinishesWith(u, policy, a, ra) && FinishesWith(u, policy, b, rb)
    ensures ra == rb
  {
    hide SessionHints, RanksBefore;
    forall id | id in a.sessions
      ensures SessionHints(u, policy, a.titles, a.sessions[id], id) ==
                SessionHints(u, policy, b.titles, b.sessions[id], id)
    {
      HintsAlike(u, policy, a.titles, b.titles, a.sessions[id], id);
    }
    if FinishSessions(u, policy, a).Ok? {
      assert FinishSessions(u, policy, a).value == FinishSessions(u, policy, b).value;
      RankingTotal();
      AscendingUnique(RanksBefore, ra.value.vocabulary, rb.value.vocabulary);
    }
  }

  /**
   * Analysis does not depend on the order of its documents: either both orders are refused, or both are accepted and
   * whatever finishing returns for one it returns for the other.
   */
  lemma OrderIndependent(u: Unicode, policy: AnalysisPolicy, a: seq<AnalysisDocument>, b: seq<AnalysisDocument>)
    requires multiset(a) == multiset(b)
    ensures PushAll(u, policy, a).Ok? <==> PushAll(u, policy, b).Ok?
    ensures PushAll(u, policy, a).Ok? && PushAll(u, policy, b).Ok? ==>
              forall ra, rb ::
                (FinishesWith(u, policy, PushAll(u, policy, a).value, ra) &&
                 FinishesWith(u, policy, PushAll(u, policy, b).value, rb)) ==> ra == rb
  {
    hide PushAll, Acceptable, Describes, FinishesWith;
    AcceptedExactly(u, policy, a);
    AcceptedExactly(u, policy, b);
    AcceptancePermutes(u, policy, a, b);
    if PushAll(u, policy, a).Ok? {
      var sa, sb := PushAll(u, policy, a).value, PushAll(u, policy, b).value;
      AcceptableGood(u, policy, a);
      AcceptableGood(u, policy, b);
      DescribedAlike(u, policy, a, b, sa, sb);
      forall ra, rb | FinishesWith(u, policy, sa, ra) && FinishesWith(u, policy, sb, rb)
        ensures ra == rb
      {
        FinishAlike(u, policy, sa, sb, ra, rb);
      }
    }
  }

  lemma AcceptableGood(u: Unicode, policy: AnalysisPolicy, documents: seq<AnalysisDocument>)
    requires Acceptable(u, policy, documents)
    ensures AllGood(u, policy, documents)
  {
  }
}
