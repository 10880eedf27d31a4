/** What a phrase delta counts, said without the loops that compute it. */
module PhraseFacts {
  import opened Wrappers
  import opened AnalysisErrors
  import opened Text
  import opened Tokens
  import opened Prose
  import opened Windows
  import opened Phrases

  /** A phrase is present exactly when some window of some width has it. */
  lemma {:induction false} WidthCountPositive(at: PhraseAt, widths: seq<nat>, count: nat, n: nat, phrase: string)
    requires Positive(widths) && count <= |widths|
    requires WidthCount(at, widths, count, n, phrase) > 0
    ensures exists k, end: nat | 0 <= k < count && widths[k] <= end <= n :: at(end, widths[k]) == Some(phrase)
  {
    if WindowCount(at, widths[count - 1], n, phrase) > 0 {
      var end := FindWindow(at, widths[count - 1], n, phrase);
      assert at(end, widths[count - 1]) == Some(phrase);
    } else {
      WidthCountPositive(at, widths, count - 1, n, phrase);
    }
  }

  lemma {:induction false} FindWindow(at: PhraseAt, width: nat, n: nat, phrase: string) returns (end: nat)
    requires 0 < width && WindowCount(at, width, n, phrase) > 0
    ensures width <= end <= n && at(end, width) == Some(phrase)
  {
    if at(n, width) == Some(phrase) {
      end := n;
    } else {
      end := FindWindow(at, width, n - 1, phrase);
    }
  }

  /** The ends of the windows of one width that have a phrase. */
  function Ends(at: PhraseAt, width: nat, n: nat, phrase: string): set<nat> {
    set end: nat | width <= end <= n && at(end, width) == Some(phrase)
  }

  lemma {:induction false} WindowCountIsEnds(at: PhraseAt, width: nat, n: nat, phrase: string)
    requires 0 < width
    ensures WindowCount(at, width, n, phrase) == |Ends(at, width, n, phrase)| <= n
  {
    if n < width {
      assert Ends(at, width, n, phrase) == {};
    } else {
      WindowCountIsEnds(at, width, n - 1, phrase);
      var before := Ends(at, width, n - 1, phrase);
      if at(n, width) == Some(phrase) {
        assert Ends(at, width, n, phrase) == before + {n};
      } else {
        assert Ends(at, width, n, phrase) == before;
      }
    }
  }

  /** When only windows of one width can have a phrase, counting all widths counts that width. */
  lemma {:induction false} OneWidth(at: PhraseAt, widths: seq<nat>, count: nat, n: nat, phrase: string, width: nat)
    requires Positive(widths) && count <= |widths| && 0 < width
    requires forall i, j | 0 <= i < j < |widths| :: widths[i] < widths[j]
    requires forall k, end: nat | 0 <= k < count && at(end, widths[k]) == Some(phrase) :: widths[k] == width
    ensures WidthCount(at, widths, count, n, phrase) ==
            if exists k | 0 <= k < count :: widths[k] == width then WindowCount(at, width, n, phrase) else 0
  {
    if count > 0 {
      OneWidth(at, widths, count - 1, n, phrase, width);
      if widths[count - 1] != width {
        NoHits(at, widths[count - 1], n, phrase);
      }
    }
  }

  lemma {:induction false} NoHits(at: PhraseAt, width: nat, n: nat, phrase: string)
    requires 0 < width && forall end: nat :: at(end, width) != Some(phrase)
    ensures WindowCount(at, width, n, phrase) == 0
  {
    if n >= width {
      NoHits(at, width, n - 1, phrase);
    }
  }

  lemma DocumentTokensAreWords(u: Unicode, spec: PhraseSpec, content: string)
    ensures forall t | t in DocumentTokens(u, spec, content) :: IsWord(u, t)
  {
    match spec.textMode
    case UserText => TokensAreWords(u, content);
    case ProseOnlyText(rules) => TokensAreWords(u, ProseText(rules, content));
  }

  /** A phrase's words are the tokens of its window, so their number is the width of the window. */
  lemma WordsOfPhrase(u: Unicode, spec: PhraseSpec, content: string, end: nat, width: nat, phrase: string)
    requires PhrasesOf(u, spec, DocumentTokens(u, spec, content))(end, width) == Some(phrase)
    ensures var tokens := DocumentTokens(u, spec, content);
            width <= end <= |tokens| && SplitWhitespace(u, phrase) == tokens[end - width..end]
    ensures |SplitWhitespace(u, phrase)| == width
  {
    var tokens := DocumentTokens(u, spec, content);
    DocumentTokensAreWords(u, spec, content);
    var window := tokens[end - width..end];
    forall w | w in window
      ensures IsWord(u, w)
    {
      assert w in tokens;
    }
    SplitJoin(u, window);
  }

  /**
   * In the delta of a document, a phrase of `w` words occurs once for every admitted window of `w` tokens that reads
   * like it, when `w` is one of the widths of the policy, and never otherwise.
   */
  lemma DeltaCountsWindows(u: Unicode, spec: PhraseSpec, content: string, phrase: string)
    requires DocumentDelta(u, spec, content).Ok?
    requires |DocumentTokens(u, spec, content)| >= spec.minTokens
    ensures var tokens := DocumentTokens(u, spec, content);
            var width := |SplitWhitespace(u, phrase)|;
            Occurs(DocumentDelta(u, spec, content).value, phrase) ==
            (if width in spec.widths then |Ends(PhrasesOf(u, spec, tokens), width, |tokens|, phrase)|
              else 0) <= |tokens|
  {
    var tokens := DocumentTokens(u, spec, content);
    var at := PhrasesOf(u, spec, tokens);
    var width := |SplitWhitespace(u, phrase)|;
    WidthMajorOccurs(at, spec.widths, |spec.widths|, |tokens|, phrase);
    forall k, end: nat | 0 <= k < |spec.widths| && at(end, spec.widths[k]) == Some(phrase)
      ensures spec.widths[k] == width
    {
      WordsOfPhrase(u, spec, content, end, spec.widths[k], phrase);
    }
    if width in spec.widths {
      OneWidth(at, spec.widths, |spec.widths|, |tokens|, phrase, width);
      WindowCountIsEnds(at, width, |tokens|, phrase);
    } else {
      NoWidth(at, spec.widths, |spec.widths|, |tokens|, phrase);
    }
  }

  lemma {:induction false} NoWidth(at: PhraseAt, widths: seq<nat>, count: nat, n: nat, phrase: string)
    requires Positive(widths) && count <= |widths|
    requires forall k, end: nat | 0 <= k < count :: at(end, widths[k]) != Some(phrase)
    ensures WidthCount(at, widths, count, n, phrase) == 0
  {
    if count > 0 {
      NoWidth(at, widths, count - 1, n, phrase);
      NoHits(at, widths[count - 1], n, phrase);
    }
  }

  /** Every phrase of a delta occurs, and has as many words as some width of the policy. */
  lemma DeltaPhrases(u: Unicode, spec: PhraseSpec, content: string, phrase: string)
    requires DocumentDelta(u, spec, content).Ok? && phrase in DocumentDelta(u, spec, content).value
    ensures DocumentDelta(u, spec, content).value[phrase] > 0
    ensures |SplitWhitespace(u, phrase)| in spec.widths
  {
    var tokens := DocumentTokens(u, spec, content);
    var at := PhrasesOf(u, spec, tokens);
    WidthMajorGrows(at, spec.widths, 0, |spec.widths|, |tokens|);
    WidthMajorOccurs(at, spec.widths, |spec.widths|, |tokens|, phrase);
    WidthCountPositive(at, spec.widths, |spec.widths|, |tokens|, phrase);
    var k, end: nat :| 0 <= k < |spec.widths| && spec.widths[k] <= end <= |tokens|
      && at(end, spec.widths[k]) == Some(phrase);
    WordsOfPhrase(u, spec, content, end, spec.widths[k], phrase);
  }

  lemma {:induction false} WindowCounted(at: PhraseAt, widths: seq<nat>, count: nat, n: nat, k: nat, end: nat,
      phrase: string)
    requires Positive(widths) && count <= |widths| && k < count && widths[k] <= end <= n
               && at(end, widths[k]) == Some(phrase)
    ensures WidthCount(at, widths, count, n, phrase) > 0
  {
    if k == count - 1 {
      WindowCountIsEnds(at, widths[k], n, phrase);
      assert end in Ends(at, widths[k], n, phrase);
    } else {
      WindowCounted(at, widths, count - 1, n, k, end, phrase);
    }
  }

  /** The window of a width that ends at a token is admitted with this phrase. */
  predicate WindowHas(at: PhraseAt, widths: seq<nat>, n: nat, k: nat, end: nat, phrase: string) {
    k < |widths| && widths[k] <= end <= n && at(end, widths[k]) == Some(phrase)
  }

  /** The distinct phrases of the admitted windows of a document. */
  ghost predicate DistinctPhrases(u: Unicode, spec: PhraseSpec, content: string, phrases: set<string>) {
    var tokens := DocumentTokens(u, spec, content);
    forall p :: p in phrases <==>
      exists k: nat, end: nat :: WindowHas(PhrasesOf(u, spec, tokens), spec.widths, |tokens|, k, end, p)
  }

  /**
   * A document is refused exactly when it has at least the policy's number of tokens and more distinct admitted phrases
   * than the policy allows.
   */
  lemma RefusedExactly(u: Unicode, spec: PhraseSpec, content: string, phrases: set<string>)
    requires DistinctPhrases(u, spec, content, phrases)
    ensures DocumentDelta(u, spec, content).Err? <==>
              |DocumentTokens(u, spec, content)| >= spec.minTokens && |phrases| > spec.maxUnique
    ensures DocumentDelta(u, spec, content).Err? ==> DocumentDelta(u, spec, content).error == TooManyPhrases
  {
    hide Admitted, TokensOf, JoinWords, WidthMajor, WidthCount;
    var tokens := DocumentTokens(u, spec, content);
    var at := PhrasesOf(u, spec, tokens);
    var counts := WidthMajor(at, spec.widths, |spec.widths|, |tokens|);
    WidthMajorGrows(at, spec.widths, 0, |spec.widths|, |tokens|);
    forall p
      ensures p in counts <==> p in phrases
    {
      WidthMajorOccurs(at, spec.widths, |spec.widths|, |tokens|, p);
      if p in counts {
        WidthCountPositive(at, spec.widths, |spec.widths|, |tokens|, p);
        var k, end: nat :| 0 <= k < |spec.widths| && spec.widths[k] <= end <= |tokens|
          && at(end, spec.widths[k]) == Some(p);
        assert WindowHas(at, spec.widths, |tokens|, k, end, p);
      }
      if k: nat, end: nat :| WindowHas(at, spec.widths, |tokens|, k, end, p) {
        WindowCounted(at, spec.widths, |spec.widths|, |tokens|, k, end, p);
      }
    }
    assert counts.Keys == phrases;
  }

  // ----- which windows are counted, in terms of a phrase's own words -----

  /** The tokens before a position end in these words. */
  predicate StandsBefore(tokens: seq<string>, words: seq<string>, end: nat) {
    |words| <= end <= |tokens| && tokens[end - |words|..end] == words
  }

  /** Where a run of words ends among the tokens. */
  function EndsOf(tokens: seq<string>, words: seq<string>): set<nat> {
    set end: nat | end <= |tokens| && StandsBefore(tokens, words, end)
  }

  /**
   * A window has a phrase exactly when its tokens are the phrase's words and the policy does not exclude these
   * words.
   */
  lemma WindowPhrase(u: Unicode, spec: PhraseSpec, content: string, end: nat, width: nat, phrase: string)
    requires 0 < width
    ensures var tokens := DocumentTokens(u, spec, content);
            var words := SplitWhitespace(u, phrase);
            PhrasesOf(u, spec, tokens)(end, width) == Some(phrase) <==>
              && width == |words| && end in EndsOf(tokens, words) && phrase == JoinWords(words)
              && words[0] !in spec.excluded
              && (exists w | w in words :: w !in spec.excluded)
              && (spec.excludeNumeric ==> forall w | w in words :: forall c | c in w :: !u.isNumeric(c))
  {
    hide JoinWords, TokensOf, SplitWhitespace;
    var tokens := DocumentTokens(u, spec, content);
    if PhrasesOf(u, spec, tokens)(end, width) == Some(phrase) {
      WordsOfPhrase(u, spec, content, end, width, phrase);
    }
  }

  /**
   * In the delta of a document that reaches the token gate, a phrase occurs once for every place its words stand
   * in the tokens, when their number is a width of the policy, the first of them and some of them are not
   * excluded, and none has a numeric character if these are excluded.  No other phrase occurs.
   */
  lemma OccurrencesExact(u: Unicode, spec: PhraseSpec, content: string, phrase: string)
    requires DocumentDelta(u, spec, content).Ok? && |DocumentTokens(u, spec, content)| >= spec.minTokens
    ensures var words := SplitWhitespace(u, phrase);
            Occurs(DocumentDelta(u, spec, content).value, phrase) ==
              if |words| in spec.widths && phrase == JoinWords(words)
                && words[0] !in spec.excluded
                && (exists w | w in words :: w !in spec.excluded)
                && (spec.excludeNumeric ==> forall w | w in words :: forall c | c in w :: !u.isNumeric(c))
              then |EndsOf(DocumentTokens(u, spec, content), words)|
              else 0
  {
    hide JoinWords, TokensOf, SplitWhitespace, DocumentDelta, Admitted;
    var tokens, words := DocumentTokens(u, spec, content), SplitWhitespace(u, phrase);
    var width, at := |words|, PhrasesOf(u, spec, tokens);
    DeltaCountsWindows(u, spec, content, phrase);
    if width in spec.widths {
      forall end: nat
        ensures at(end, width) == Some(phrase) <==>
                  && end in EndsOf(tokens, words) && phrase == JoinWords(words)
                  && words[0] !in spec.excluded
                  && (exists w | w in words :: w !in spec.excluded)
                  && (spec.excludeNumeric ==> forall w | w in words :: forall c | c in w :: !u.isNumeric(c))
      {
        WindowPhrase(u, spec, content, end, width, phrase);
      }
      SameOrEmpty(Ends(at, width, |tokens|, phrase), EndsOf(tokens, words));
    }
  }

  lemma SameOrEmpty(a: set<nat>, b: set<nat>)
    ensures a == b ==> |a| == |b|
    ensures (forall x :: x !in a) ==> |a| == 0
  {
    if forall x :: x !in a {
      assert a == {};
    }
  }

  /** A document below the token gate has no phrases, whatever it holds. */
  lemma BelowGate(u: Unicode, spec: PhraseSpec, content: string)
    requires |DocumentTokens(u, spec, content)| < spec.minTokens
    ensures DocumentDelta(u, spec, content) == Ok(map[])
  {
  }

  /** Every window of a configured width whose words the policy does not exclude is counted. */
  lemma WindowIsCounted(u: Unicode, spec: PhraseSpec, content: string, start: nat, width: nat)
    requires DocumentDelta(u, spec, content).Ok? && |DocumentTokens(u, spec, content)| >= spec.minTokens
    requires width in spec.widths && start + width <= |DocumentTokens(u, spec, content)|
    requires var words := DocumentTokens(u, spec, content)[start..start + width];
             && words != [] && words[0] !in spec.excluded
             && (exists w | w in words :: w !in spec.excluded)
             && (spec.excludeNumeric ==> forall w | w in words :: forall c | c in w :: !u.isNumeric(c))
    ensures var phrase := JoinWords(DocumentTokens(u, spec, content)[start..start + width]);
            phrase in DocumentDelta(u, spec, content).value && DocumentDelta(u, spec, content).value[phrase] > 0
  {
    hide JoinWords, TokensOf, SplitWhitespace, DocumentDelta, Admitted;
    var tokens := DocumentTokens(u, spec, content);
    var words := tokens[start..start + width];
    DocumentTokensAreWords(u, spec, content);
    forall w | w in words
      ensures IsWord(u, w)
    {
      assert w in tokens;
    }
    SplitJoin(u, words);
    assert StandsBefore(tokens, words, start + width);
    assert start + width in EndsOf(tokens, words);
    OccurrencesExact(u, spec, content, JoinWords(words));
  }

  /** The words of every counted phrase are as the policy asks. */
  lemma CountedWords(u: Unicode, spec: PhraseSpec, content: string, phrase: string)
    requires DocumentDelta(u, spec, content).Ok? && phrase in DocumentDelta(u, spec, content).value
    ensures var words := SplitWhitespace(u, phrase);
            && |words| in spec.widths && words != [] && words[0] !in spec.excluded
            && (exists w | w in words :: w !in spec.excluded)
            && (spec.excludeNumeric ==> forall w | w in words :: forall c | c in w :: !u.isNumeric(c))
  {
    hide JoinWords, TokensOf, SplitWhitespace, Admitted;
    DeltaPhrases(u, spec, content, phrase);
    if |DocumentTokens(u, spec, content)| >= spec.minTokens {
      OccurrencesExact(u, spec, content, phrase);
    } else {
      BelowGate(u, spec, content);
    }
  }
}
