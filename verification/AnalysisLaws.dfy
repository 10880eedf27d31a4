/** Laws of whole analyses: which inputs are accepted, what is then accumulated, and that order does not matter. */
module AnalysisLaws {
  import opened Wrappers
  import opened AnalysisErrors
  import opened Text
  import opened Sums
  import opened Windows
  import opened AnalysisState

  // ----- the vocabulary of a list of deltas -----

  type Deltas = seq<Delta>

  function PhrasesIn(deltas: Deltas): set<string> {
    if deltas == [] then {} else PhrasesIn(deltas[..|deltas| - 1]) + deltas[|deltas| - 1].Keys
  }

  function Uses(phrase: string): Delta -> nat {
    delta => if phrase in delta then 1 else 0
  }

  function OccursIn(phrase: string): Delta -> nat {
    delta => Occurs(delta, phrase)
  }

  /** How many deltas have a phrase, and how often it occurs in all of them. */
  function DocumentsWith(deltas: Deltas, phrase: string): nat {
    SumBy(Uses(phrase), deltas)
  }

  function TotalOccurrences(deltas: Deltas, phrase: string): nat {
    SumBy(OccursIn(phrase), deltas)
  }

  /** The conserved totals: every phrase with its words, its documents and the sum of its occurrences. */
  function Totals(u: Unicode, deltas: Deltas): Vocabulary {
    map p | p in PhrasesIn(deltas) ::
      PhraseFrequency(p, |SplitWhitespace(u, p)|, DocumentsWith(deltas, p), TotalOccurrences(deltas, p))
  }

  /** The totals of a phrase found in more than one document fit 64 bits. */
  predicate TotalsFit(deltas: Deltas, phrase: string) {
    DocumentsWith(deltas, phrase) >= 2 ==>
      TotalOccurrences(deltas, phrase) <= U64_MAX && DocumentsWith(deltas, phrase) <= U64_MAX
  }

  predicate VocabularyFits(bound: nat, deltas: Deltas) {
    |PhrasesIn(deltas)| <= bound && forall p | p in PhrasesIn(deltas) :: TotalsFit(deltas, p)
  }

  function MergeAll(u: Unicode, bound: nat, deltas: Deltas): Result<Vocabulary, AnalysisError> {
    if deltas == [] then Ok(map[])
    else
      match MergeAll(u, bound, deltas[..|deltas| - 1])
      case Err(error) => Err(error)
      case Ok(vocabulary) => MergeVocabulary(u, bound, vocabulary, deltas[|deltas| - 1])
  }

  lemma StepTotals(deltas: Deltas, delta: Delta, phrase: string)
    ensures PhrasesIn(deltas + [delta]) == PhrasesIn(deltas) + delta.Keys
    ensures DocumentsWith(deltas + [delta], phrase) == DocumentsWith(deltas, phrase) + if phrase in delta then 1 else 0
    ensures TotalOccurrences(deltas + [delta], phrase) == TotalOccurrences(deltas, phrase) + Occurs(delta, phrase)
  {
    assert (deltas + [delta])[..|deltas|] == deltas;
    SumStep(Uses(phrase), deltas, delta);
    SumStep(OccursIn(phrase), deltas, delta);
  }

  lemma {:induction false} UsedPhrases(deltas: Deltas, phrase: string)
    ensures phrase in PhrasesIn(deltas) <==> DocumentsWith(deltas, phrase) >= 1
    ensures phrase !in PhrasesIn(deltas) ==> TotalOccurrences(deltas, phrase) == 0
  {
    if deltas != [] {
      var before, last := deltas[..|deltas| - 1], deltas[|deltas| - 1];
      UsedPhrases(before, phrase);
      assert before + [last] == deltas;
      StepTotals(before, last, phrase);
    }
  }

  lemma MergePhrase(u: Unicode, deltas: Deltas, delta: Delta, p: string)
    requires p in PhrasesIn(deltas) || p in delta
    ensures p in PhrasesIn(deltas + [delta])
    ensures Overflows(Totals(u, deltas), delta, p) ==> !TotalsFit(deltas + [delta], p)
    ensures !TotalsFit(deltas + [delta], p) ==> Overflows(Totals(u, deltas), delta, p) || !TotalsFit(deltas, p)
    ensures EntryAfter(u, Totals(u, deltas), delta, p) == Totals(u, deltas + [delta])[p]
  {
    StepTotals(deltas, delta, p);
    UsedPhrases(deltas, p);
    hide SplitWhitespace, SumBy, PhrasesIn, DocumentsWith, TotalOccurrences;
  }

  /** A merge succeeds exactly when nothing overflows, and what it gives is known entry by entry. */
  lemma MergeGives(u: Unicode, bound: nat, vocabulary: Vocabulary, delta: Delta, target: Vocabulary)
    requires target.Keys == vocabulary.Keys + delta.Keys
    requires forall p | p in target :: EntryAfter(u, vocabulary, delta, p) == target[p]
    ensures MergeVocabulary(u, bound, vocabulary, delta) ==
            if |target| > bound then Err(VocabularyFull)
            else if exists p | p in target.Keys :: Overflows(vocabulary, delta, p) then Err(CountOverflow)
            else Ok(target)
  {
    hide EntryAfter, Overflows;
    assert |target| == |target.Keys|;
    assert target == map p | p in vocabulary.Keys + delta.Keys :: EntryAfter(u, vocabulary, delta, p);
  }

  /** Merging one delta into totals gives the totals with it, or fails exactly when these do not fit. */
  lemma MergeStep(u: Unicode, bound: nat, deltas: Deltas, delta: Delta)
    requires VocabularyFits(bound, deltas)
    ensures MergeVocabulary(u, bound, Totals(u, deltas), delta) ==
            if |PhrasesIn(deltas + [delta])| > bound then Err(VocabularyFull)
            else if !VocabularyFits(bound, deltas + [delta]) then Err(CountOverflow)
            else Ok(Totals(u, deltas + [delta]))
    ensures MergeVocabulary(u, bound, Totals(u, deltas), delta).Ok? <==> VocabularyFits(bound, deltas + [delta])
  {
    hide EntryAfter, Overflows, TotalsFit, PhrasesIn, Totals, MergeVocabulary;
    var all := deltas + [delta];
    var totals, target := Totals(u, deltas), Totals(u, all);
    TotalsKeys(u, deltas);
    TotalsKeys(u, all);
    StepTotals(deltas, delta, "");
    forall p | p in target
      ensures Overflows(totals, delta, p) <==> !TotalsFit(all, p)
      ensures EntryAfter(u, totals, delta, p) == target[p]
    {
      MergePhrase(u, deltas, delta, p);
      StayFitting(deltas, delta, p);
    }
    MergeGives(u, bound, totals, delta, target);
  }

  lemma TotalsKeys(u: Unicode, deltas: Deltas)
    ensures Totals(u, deltas).Keys == PhrasesIn(deltas) && |Totals(u, deltas)| == |PhrasesIn(deltas)|
  {
    hide SumBy, SplitWhitespace, PhrasesIn;
    assert Totals(u, deltas).Keys == PhrasesIn(deltas);
    assert |Totals(u, deltas)| == |Totals(u, deltas).Keys|;
  }

  /** A phrase a delta does not have still fits after it. */
  lemma StayFitting(deltas: Deltas, delta: Delta, p: string)
    ensures p !in PhrasesIn(deltas) ==> TotalsFit(deltas, p)
  {
    UsedPhrases(deltas, p);
  }

  /** What fits with one more delta fit without it. */
  lemma FitsBefore(bound: nat, deltas: Deltas, delta: Delta)
    requires VocabularyFits(bound, deltas + [delta])
    ensures VocabularyFits(bound, deltas)
  {
    StepTotals(deltas, delta, "");
    assert PhrasesIn(deltas + [delta]) == PhrasesIn(deltas) + (delta.Keys - PhrasesIn(deltas));
    forall p | p in PhrasesIn(deltas)
      ensures TotalsFit(deltas, p)
    {
      StepTotals(deltas, delta, p);
      assert TotalsFit(deltas + [delta], p);
    }
  }

  /** Merging deltas succeeds exactly when their totals fit, and then gives these totals. */
  lemma {:induction false} MergeAllTotals(u: Unicode, bound: nat, deltas: Deltas)
    ensures MergeAll(u, bound, deltas).Ok? <==> VocabularyFits(bound, deltas)
    ensures MergeAll(u, bound, deltas).Ok? ==> MergeAll(u, bound, deltas).value == Totals(u, deltas)
  {
    hide VocabularyFits, Totals, MergeVocabulary;
    if deltas == [] {
      NoTotals(u, bound);
    } else {
      var before, last := deltas[..|deltas| - 1], deltas[|deltas| - 1];
      assert deltas == before + [last];
      MergeAllTotals(u, bound, before);
      if VocabularyFits(bound, before) {
        MergeStep(u, bound, before, last);
      } else if VocabularyFits(bound, deltas) {
        FitsBefore(bound, before, last);
      }
    }
  }

  lemma NoTotals(u: Unicode, bound: nat)
    ensures VocabularyFits(bound, []) && Totals(u, []) == map[]
  {
    assert PhrasesIn([]) == {};
  }

  lemma {:induction false} PhrasesInElements(deltas: Deltas)
    ensures forall p :: p in PhrasesIn(deltas) <==> exists delta :: delta in deltas && p in delta
  {
    if deltas != [] {
      var before, last := deltas[..|deltas| - 1], deltas[|deltas| - 1];
      PhrasesInElements(before);
      assert forall delta :: delta in deltas <==> delta in before || delta == last;
    }
  }

  /** Totals and their bounds do not depend on the order of the deltas. */
  lemma TotalsPermute(u: Unicode, bound: nat, a: Deltas, b: Deltas)
    requires multiset(a) == multiset(b)
    ensures Totals(u, a) == Totals(u, b)
    ensures VocabularyFits(bound, a) <==> VocabularyFits(bound, b)
  {
    PermutedElements(a, b);
    PhrasesInElements(a);
    PhrasesInElements(b);
    assert PhrasesIn(a) == PhrasesIn(b);
    forall p
      ensures DocumentsWith(a, p) == DocumentsWith(b, p) && TotalOccurrences(a, p) == TotalOccurrences(b, p)
    {
      SumPermutes(Uses(p), a, b);
      SumPermutes(OccursIn(p), a, b);
    }
  }
}
