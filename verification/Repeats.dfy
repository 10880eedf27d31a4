/** Repeat mining: phrases that several messages share (`analytics::repeat_phrase_groups`). */
module Repeats {
  import opened Wrappers
  import opened Text
  import opened Decimals
  import opened Tokens
  import opened Order

  datatype Hit = Hit(content: string, sessionId: string)

  datatype Mining = Mining(minMatches: nat, minWords: nat, maxWords: nat, maxGroups: nat, maxExamples: nat)

  datatype RepeatGroup = RepeatGroup(phrase: string, matches: nat, sessions: nat, examples: seq<nat>)

  // ----- phrases of one message -----

  const USER_REQUEST_START := "<USER_REQUEST>"
  const USER_REQUEST_END := "</USER_REQUEST>"

  predicate OccursAt(s: string, pattern: string, i: nat) {
    i + |pattern| <= |s| && s[i..i + |pattern|] == pattern
  }

  lemma OccursLater(s: string, pattern: string)
    requires s != [] && !OccursAt(s, pattern, 0)
    ensures forall i: nat :: OccursAt(s, pattern, i) <==> i > 0 && OccursAt(s[1..], pattern, i - 1)
  {
    forall i: nat
      ensures OccursAt(s, pattern, i) <==> i > 0 && OccursAt(s[1..], pattern, i - 1)
    {
      if i > 0 && i + |pattern| <= |s| {
        SliceOfSlice(s, 1, |s|, i - 1, i - 1 + |pattern|);
      }
    }
  }

  /** `str::find`: the first occurrence. */
  function Find(s: string, pattern: string): (r: Option<nat>)
    ensures r.Some? ==> OccursAt(s, pattern, r.value) && forall i | 0 <= i < r.value :: !OccursAt(s, pattern, i)
    ensures r.None? ==> forall i: nat :: !OccursAt(s, pattern, i)
  {
    if |pattern| <= |s| && s[..|pattern|] == pattern then Some(0)
    else if s == [] then None
    else
      var rest := Find(s[1..], pattern);
      OccursLater(s, pattern);
      if rest.None? then None else Some(rest.value + 1)
  }

  /** The trimmed body of the first user request in a message, when it is marked. */
  function UserRequestBody(u: Unicode, content: string): Option<string> {
    match Find(content, USER_REQUEST_START)
    case None => None
    case Some(open) =>
      var after := content[open + |USER_REQUEST_START|..];
      match Find(after, USER_REQUEST_END)
      case None => None
      case Some(close) => Some(Trim(u, after[..close]))
  }

  function MiningTokens(u: Unicode, content: string): seq<string> {
    var body := UserRequestBody(u, content);
    TokensOf(u, if body.Some? then body.value else content)
  }

  const STOPWORDS: set<string> := {
    "a", "an", "additional", "and", "are", "as", "at", "be", "but", "by", "can", "does", "do", "for", "from", "has",
    "have", "i", "if", "in", "is", "it", "local", "metadata", "not", "of", "on", "or", "rather", "request", "s", "so",
    "that", "than", "the", "there", "this", "time", "to", "user", "was", "with", "you", "your"
  }

  /** A window worth reporting: no digits, no stop word at either end, and some longer word. */
  predicate Informative(tokens: seq<string>) {
    && (forall token | token in tokens :: forall c | c in token :: !IsDigit(c))
    && tokens != []
    && tokens[0] !in STOPWORDS
    && tokens[|tokens| - 1] !in STOPWORDS
    && exists token | token in tokens ::
         Utf8Len(token) >= 4 && token !in STOPWORDS && !(forall c | c in token :: IsDigit(c))
  }

  /** The widest window a message of `count` tokens has. */
  function WidthLimit(m: Mining, count: nat): nat {
    var widest := if m.maxWords < m.minWords then m.minWords else m.maxWords;
    if count < widest then count else widest
  }

  predicate WindowMined(m: Mining, tokens: seq<string>, phrase: string, start: nat, width: nat) {
    && m.minWords <= width <= WidthLimit(m, |tokens|)
    && start + width <= |tokens|
    && Informative(tokens[start..start + width])
    && phrase == JoinWords(tokens[start..start + width])
  }

  /** A message has a phrase: some informative window of its tokens reads so. */
  ghost predicate Mined(u: Unicode, m: Mining, content: string, phrase: string) {
    exists start: nat, width: nat :: WindowMined(m, MiningTokens(u, content), phrase, start, width)
  }

  method PhrasesInMessage(u: Unicode, m: Mining, content: string) returns (phrases: set<string>)
    requires 0 < m.minWords
    ensures forall p :: p in phrases <==> Mined(u, m, content, p)
  {
    hide Informative, MiningTokens, JoinWords;
    var tokens := MiningTokens(u, content);
    phrases := {};
    if |tokens| < m.minWords {
      return;
    }
    var limit := WidthLimit(m, |tokens|);
    for width := m.minWords to limit + 1
      invariant forall p :: p in phrases <==>
                  exists start: nat, w: nat :: w < width && WindowMined(m, tokens, p, start, w)
    {
      var narrower := phrases;
      for start := 0 to |tokens| - width + 1
        invariant forall p :: p in phrases <==>
                    p in narrower || exists i: nat :: i < start && WindowMined(m, tokens, p, i, width)
      {
        var window := tokens[start..start + width];
        if Informative(window) {
          assert WindowMined(m, tokens, JoinWords(window), start, width);
          phrases := phrases + {JoinWords(window)};
        }
      }
    }
  }

  function Words(u: Unicode, phrase: string): seq<string> {
    SplitWhitespace(u, phrase)
  }

  /** The words of a mined phrase are its window. */
  lemma MinedWords(u: Unicode, m: Mining, content: string, phrase: string, start: nat, width: nat)
    requires WindowMined(m, MiningTokens(u, content), phrase, start, width)
    ensures Words(u, phrase) == MiningTokens(u, content)[start..start + width]
  {
    hide Informative, Runs, JoinWords;
    var body := UserRequestBody(u, content);
    TokensAreWords(u, if body.Some? then body.value else content);
    var window := MiningTokens(u, content)[start..start + width];
    assert forall w | w in window :: w in MiningTokens(u, content);
    SplitJoin(u, window);
  }

  // ----- contiguous subphrases -----

  predicate OccursIn(needle: seq<string>, haystack: seq<string>, i: nat) {
    i + |needle| <= |haystack| && haystack[i..i + |needle|] == needle
  }

  /** A strictly shorter run of words inside another. */
  predicate Inside(needle: seq<string>, haystack: seq<string>) {
    |needle| < |haystack| && exists i | 0 <= i <= |haystack| :: OccursIn(needle, haystack, i)
  }

  predicate SubphraseOf(u: Unicode, needle: string, haystack: string) {
    needle == haystack || Inside(Words(u, needle), Words(u, haystack))
  }

  lemma InsideTransitive(a: seq<string>, b: seq<string>, c: seq<string>)
    requires Inside(a, b) && Inside(b, c)
    ensures Inside(a, c)
  {
    var i :| 0 <= i <= |b| && OccursIn(a, b, i);
    var j :| 0 <= j <= |c| && OccursIn(b, c, j);
    SliceOfSlice(c, j, j + |b|, i, i + |a|);
    assert OccursIn(a, c, j + i);
  }

  /** Support is antimonotone: a message with the longer phrase has every mined phrase inside it. */
  lemma SupportAntimonotone(u: Unicode, m: Mining, elsewhere: string, content: string, p: string, q: string)
    requires Mined(u, m, elsewhere, p) && Mined(u, m, content, q) && SubphraseOf(u, p, q)
    ensures Mined(u, m, content, p)
  {
    hide Informative, MiningTokens, JoinWords, Words;
    if p != q {
      var there, tokens := MiningTokens(u, elsewhere), MiningTokens(u, content);
      var i: nat, w: nat :| WindowMined(m, there, p, i, w);
      var j: nat, v: nat :| WindowMined(m, tokens, q, j, v);
      MinedWords(u, m, elsewhere, p, i, w);
      MinedWords(u, m, content, q, j, v);
      var k :| 0 <= k <= v && OccursIn(Words(u, p), Words(u, q), k);
      SliceOfSlice(tokens, j, j + v, k, k + w);
      assert WindowMined(m, tokens, p, j + k, w);
    }
  }

  // ----- the greedy filter -----

  datatype Candidate = Candidate(phrase: string, support: set<nat>)

  /** The candidate reads inside another phrase that the same messages have. */
  predicate Duplicates(u: Unicode, c: Candidate, other: Candidate) {
    other.support == c.support && SubphraseOf(u, c.phrase, other.phrase)
  }

  /** Keep each candidate unless it duplicates one already kept. */
  function Greedy(u: Unicode, candidates: seq<Candidate>): seq<Candidate> {
    if candidates == [] then []
    else
      var kept, c := Greedy(u, candidates[..|candidates| - 1]), candidates[|candidates| - 1];
      if exists k | k in kept :: Duplicates(u, c, k) then kept else kept + [c]
  }

  method RemoveEqualSupportContainedPhrases(u: Unicode, candidates: seq<Candidate>) returns (kept: seq<Candidate>)
    ensures kept == Greedy(u, candidates)
  {
    hide Duplicates;
    kept := [];
    for i := 0 to |candidates|
      invariant kept == Greedy(u, candidates[..i])
    {
      assert candidates[..i + 1][..i] == candidates[..i];
      var duplicate := exists k | k in kept :: Duplicates(u, candidates[i], k);
      if !duplicate {
        kept := kept + [candidates[i]];
      }
    }
    assert candidates[..|candidates|] == candidates;
  }

  /** Larger support first, then more words; no phrase twice. */
  predicate InOrder(u: Unicode, candidates: seq<Candidate>) {
    forall i, j | 0 <= i < j < |candidates| ::
      && candidates[i].phrase != candidates[j].phrase
      && |candidates[i].support| >= |candidates[j].support|
      && (|candidates[i].support| == |candidates[j].support| ==>
            |Words(u, candidates[i].phrase)| >= |Words(u, candidates[j].phrase)|)
  }

  /** No other candidate with the same support contains this one. */
  predicate Maximal(u: Unicode, c: Candidate, candidates: seq<Candidate>) {
    forall other | other in candidates :: other.phrase != c.phrase ==> !Duplicates(u, c, other)
  }

  /** What the filter must leave of a list. */
  ghost predicate KeepsMaximal(u: Unicode, kept: seq<Candidate>, candidates: seq<Candidate>) {
    && (forall c :: c in kept <==> c in candidates && Maximal(u, c, candidates))
    && forall c | c in candidates :: exists k | k in kept :: Duplicates(u, c, k)
  }

  lemma DuplicatesTransitive(u: Unicode, a: Candidate, b: Candidate, c: Candidate)
    requires Duplicates(u, a, b) && Duplicates(u, b, c)
    ensures Duplicates(u, a, c)
  {
    hide Words, Inside;
    if a.phrase != b.phrase && b.phrase != c.phrase {
      InsideTransitive(Words(u, a.phrase), Words(u, b.phrase), Words(u, c.phrase));
    }
  }

  lemma InOrderBefore(u: Unicode, candidates: seq<Candidate>, c: Candidate)
    requires InOrder(u, candidates + [c])
    ensures InOrder(u, candidates)
    ensures forall d | d in candidates :: d.phrase != c.phrase && !Duplicates(u, d, c)
  {
    hide Words;
    var all := candidates + [c];
    forall i, j | 0 <= i < j < |candidates|
      ensures all[i] == candidates[i] && all[j] == candidates[j]
    {
    }
    forall d | d in candidates
      ensures d.phrase != c.phrase && !Duplicates(u, d, c)
    {
      var i :| 0 <= i < |candidates| && candidates[i] == d;
      assert all[i] == d && all[|candidates|] == c;
    }
  }

  lemma KeepsMaximalStep(u: Unicode, kept: seq<Candidate>, before: seq<Candidate>, c: Candidate)
    requires KeepsMaximal(u, kept, before)
    requires forall d | d in before :: d.phrase != c.phrase && !Duplicates(u, d, c)
    ensures var duplicate := exists k | k in kept :: Duplicates(u, c, k);
            KeepsMaximal(u, if duplicate then kept else kept + [c], before + [c])
  {
    hide SubphraseOf;
    var all := before + [c];
    var duplicate := exists k | k in kept :: Duplicates(u, c, k);
    var next := if duplicate then kept else kept + [c];
    assert forall d :: d in all <==> d in before || d == c;
    assert Duplicates(u, c, c) by { SameDuplicates(u, c); }
    assert duplicate <==> !Maximal(u, c, all) by {
      hide Duplicates;
      if !Maximal(u, c, all) {
        var d :| d in all && d.phrase != c.phrase && Duplicates(u, c, d);
        var k :| k in kept && Duplicates(u, d, k);
        DuplicatesTransitive(u, c, d, k);
      }
    }
    hide Duplicates;
    forall d | d in before
      ensures Maximal(u, d, all) <==> Maximal(u, d, before)
    {
    }
    forall d | d in all
      ensures exists k | k in next :: Duplicates(u, d, k)
    {
      if d in before {
        var k :| k in kept && Duplicates(u, d, k);
        assert k in next;
      } else if duplicate {
        var k :| k in kept && Duplicates(u, c, k);
        assert k in next;
      } else {
        assert c in next;
      }
    }
  }

  lemma SameDuplicates(u: Unicode, c: Candidate)
    ensures Duplicates(u, c, c)
  {
  }

  /**
   * On a list in order the greedy filter keeps exactly the maximal candidates, and every candidate it drops reads
   * inside a kept one with the same support.
   */
  lemma {:induction false} GreedyKeepsMaximal(u: Unicode, candidates: seq<Candidate>)
    requires InOrder(u, candidates)
    ensures KeepsMaximal(u, Greedy(u, candidates), candidates)
  {
    if candidates != [] {
      hide InOrder, KeepsMaximal, Duplicates;
      var before, c := candidates[..|candidates| - 1], candidates[|candidates| - 1];
      assert candidates == before + [c];
      InOrderBefore(u, before, c);
      GreedyKeepsMaximal(u, before);
      KeepsMaximalStep(u, Greedy(u, before), before, c);
    }
  }

  // ----- groups -----

  /** Which messages have each phrase. */
  type PhraseHits = map<string, set<nat>>

  ghost predicate MinedBy(u: Unicode, m: Mining, hits: seq<Hit>, phrase: string, index: nat) {
    index < |hits| && Mined(u, m, hits[index].content, phrase)
  }

  ghost predicate IsPhraseHits(u: Unicode, m: Mining, hits: seq<Hit>, phraseHits: PhraseHits) {
    && (forall p, i: nat :: p in phraseHits && i in phraseHits[p] <==> MinedBy(u, m, hits, p, i))
    && forall p | p in phraseHits :: phraseHits[p] != {}
  }

  /** The map with one more message for every phrase it has. */
  function AddMessage(phraseHits: PhraseHits, phrases: set<string>, index: nat): PhraseHits {
    map p | p in phraseHits.Keys + phrases ::
      var before := if p in phraseHits then phraseHits[p] else {};
      if p in phrases then before + {index} else before
  }

  lemma AddedMessage(u: Unicode, m: Mining, hits: seq<Hit>, hit: Hit, phraseHits: PhraseHits, phrases: set<string>)
    requires IsPhraseHits(u, m, hits, phraseHits) && forall p :: p in phrases <==> Mined(u, m, hit.content, p)
    ensures IsPhraseHits(u, m, hits + [hit], AddMessage(phraseHits, phrases, |hits|))
  {
    hide Mined;
    var all, next := hits + [hit], AddMessage(phraseHits, phrases, |hits|);
    forall p, i: nat
      ensures p in next && i in next[p] <==> MinedBy(u, m, all, p, i)
    {
      assert p in phraseHits && i in phraseHits[p] <==> MinedBy(u, m, hits, p, i);
      if i < |hits| {
        assert all[i] == hits[i];
      }
    }
    forall p | p in next
      ensures next[p] != {}
    {
      if p in phrases {
        assert |hits| in next[p];
      }
    }
  }

  method CollectPhraseHits(u: Unicode, m: Mining, hits: seq<Hit>) returns (phraseHits: PhraseHits)
    requires 0 < m.minWords
    ensures IsPhraseHits(u, m, hits, phraseHits)
  {
    hide Mined;
    phraseHits := map[];
    for index := 0 to |hits|
      invariant IsPhraseHits(u, m, hits[..index], phraseHits)
    {
      var phrases := PhrasesInMessage(u, m, hits[index].content);
      AddedMessage(u, m, hits[..index], hits[index], phraseHits, phrases);
      phraseHits := AddMessage(phraseHits, phrases, index);
      assert hits[..index + 1] == hits[..index] + [hits[index]];
    }
    assert hits[..|hits|] == hits;
  }

  function SupportIn(phraseHits: PhraseHits, phrase: string): set<nat> {
    if phrase in phraseHits then phraseHits[phrase] else {}
  }

  /** More messages first, then more words, then by phrase. */
  function Precedes(u: Unicode, phraseHits: PhraseHits): (string, string) -> bool {
    (a, b) =>
      if |SupportIn(phraseHits, a)| != |SupportIn(phraseHits, b)|
        then |SupportIn(phraseHits, a)| > |SupportIn(phraseHits, b)|
      else if |Words(u, a)| != |Words(u, b)| then |Words(u, a)| > |Words(u, b)|
      else LexLess(a, b)
  }

  lemma PrecedesTotal(u: Unicode, phraseHits: PhraseHits)
    ensures StrictTotal(Precedes(u, phraseHits))
  {
    LexTotal();
    hide LexLess, Words, SupportIn;
  }

  /** The phrases enough messages have, in rank order. */
  method RankPhrases(u: Unicode, m: Mining, phraseHits: PhraseHits) returns (ranked: seq<string>)
    ensures Ascending(Precedes(u, phraseHits), ranked)
    ensures forall p :: p in ranked <==> p in phraseHits && |phraseHits[p]| >= m.minMatches
  {
    PrecedesTotal(u, phraseHits);
    hide Precedes;
    var less := Precedes(u, phraseHits);
    ranked := [];
    var remaining := phraseHits.Keys;
    while remaining != {}
      invariant remaining <= phraseHits.Keys && Ascending(less, ranked)
      invariant forall p :: p in ranked <==> p in phraseHits && p !in remaining && |phraseHits[p]| >= m.minMatches
      decreases |remaining|
    {
      var p :| p in remaining;
      if |phraseHits[p]| >= m.minMatches {
        InsertAscending(less, p, ranked);
        InsertElements(less, p, ranked);
        ranked := Insert(less, p, ranked);
      }
      remaining := remaining - {p};
    }
  }

  function CandidatesOf(phraseHits: PhraseHits, ranked: seq<string>): seq<Candidate> {
    seq(|ranked|, i requires 0 <= i < |ranked| => Candidate(ranked[i], SupportIn(phraseHits, ranked[i])))
  }

  lemma RankedInOrder(u: Unicode, phraseHits: PhraseHits, ranked: seq<string>)
    requires Ascending(Precedes(u, phraseHits), ranked)
    ensures InOrder(u, CandidatesOf(phraseHits, ranked))
  {
    PrecedesTotal(u, phraseHits);
    hide Words, SupportIn, LexLess;
    var candidates := CandidatesOf(phraseHits, ranked);
    forall i, j | 0 <= i < j < |ranked|
      ensures Precedes(u, phraseHits)(ranked[i], ranked[j])
      ensures ranked[i] != ranked[j]
    {
    }
  }

  /** The indices of a set in ascending order. */
  function Listed(indices: set<nat>, bound: nat): (r: seq<nat>)
    ensures forall i :: i in r <==> i in indices && i < bound
    ensures forall j, k | 0 <= j < k < |r| :: r[j] < r[k]
  {
    if bound == 0 then []
    else
      var before := Listed(indices, bound - 1);
      assert forall j | 0 <= j < |before| :: before[j] in before;
      if bound - 1 in indices then before + [bound - 1] else before
  }

  /** What is reported for a phrase that these messages have. */
  function GroupOf(m: Mining, hits: seq<Hit>, c: Candidate): RepeatGroup {
    var examples := Listed(c.support, |hits|);
    RepeatGroup(c.phrase,
                |c.support|,
                |set i | i in c.support && i < |hits| :: hits[i].sessionId|,
                if m.maxExamples == 0 || |examples| <= m.maxExamples then examples else examples[..m.maxExamples])
  }

  /**
   * A phrase to report: enough messages have it, and no longer phrase around it is had by exactly the same messages.
   */
  ghost predicate Reportable(u: Unicode, m: Mining, phraseHits: PhraseHits, phrase: string) {
    && phrase in phraseHits
    && |phraseHits[phrase]| >= m.minMatches
    && forall q | q in phraseHits && q != phrase && SubphraseOf(u, phrase, q) :: phraseHits[q] != phraseHits[phrase]
  }

  predicate PhrasesAscending(less: (string, string) -> bool, candidates: seq<Candidate>) {
    forall i, j | 0 <= i < j < |candidates| :: less(candidates[i].phrase, candidates[j].phrase)
  }

  /** The filter does not reorder. */
  lemma {:induction false} GreedyOrder(u: Unicode, candidates: seq<Candidate>, less: (string, string) -> bool)
    requires PhrasesAscending(less, candidates)
    ensures PhrasesAscending(less, Greedy(u, candidates))
    ensures forall k | k in Greedy(u, candidates) :: k in candidates
  {
    if candidates != [] {
      hide Duplicates;
      var before, c := candidates[..|candidates| - 1], candidates[|candidates| - 1];
      GreedyOrder(u, before, less);
      var kept := Greedy(u, before);
      forall i | 0 <= i < |kept|
        ensures less(kept[i].phrase, c.phrase)
      {
        assert kept[i] in before;
      }
    }
  }

  /** Of the ranked candidates, the maximal ones are exactly the phrases to report. */
  lemma ReportedExactly(u: Unicode, m: Mining, phraseHits: PhraseHits, ranked: seq<string>, kept: seq<Candidate>)
    requires forall p :: p in ranked <==> p in phraseHits && |phraseHits[p]| >= m.minMatches
    requires KeepsMaximal(u, kept, CandidatesOf(phraseHits, ranked))
    ensures forall c :: c in kept <==> Reportable(u, m, phraseHits, c.phrase) && c.support == phraseHits[c.phrase]
  {
    hide SubphraseOf;
    var candidates := CandidatesOf(phraseHits, ranked);
    forall c
      ensures c in candidates <==> c.phrase in ranked && c.support == phraseHits[c.phrase]
    {
      if c.phrase in ranked && c.support == phraseHits[c.phrase] {
        var i :| 0 <= i < |ranked| && ranked[i] == c.phrase;
        assert candidates[i] == c;
      }
    }
    forall c | c in candidates
      ensures Maximal(u, c, candidates) <==> Reportable(u, m, phraseHits, c.phrase)
    {
      if Maximal(u, c, candidates) {
        forall q | q in phraseHits && q != c.phrase && SubphraseOf(u, c.phrase, q)
          ensures phraseHits[q] != phraseHits[c.phrase]
        {
          if |phraseHits[q]| >= m.minMatches {
            assert Candidate(q, phraseHits[q]) in candidates;
          }
        }
      }
    }
  }

  /** What `reported` must be for these hits: exactly the phrases to report, in rank order. */
  ghost predicate IsReport(u: Unicode, m: Mining, hits: seq<Hit>, phraseHits: PhraseHits, reported: seq<Candidate>) {
    && IsPhraseHits(u, m, hits, phraseHits)
    && PhrasesAscending(Precedes(u, phraseHits), reported)
    && forall c :: c in reported <==> Reportable(u, m, phraseHits, c.phrase) && c.support == phraseHits[c.phrase]
  }

  /** The groups of the reported phrases, cut to the first ones when a bound is given. */
  function GroupsOf(m: Mining, hits: seq<Hit>, reported: seq<Candidate>): seq<RepeatGroup> {
    var count := if m.maxGroups > 0 && |reported| > m.maxGroups then m.maxGroups else |reported|;
    seq(count, i requires 0 <= i < count => GroupOf(m, hits, reported[i]))
  }

  /** What mining must answer: a group for each phrase to report, in rank order, up to the bound. */
  ghost predicate IsAnswer(u: Unicode, m: Mining, hits: seq<Hit>, groups: seq<RepeatGroup>) {
    exists phraseHits, reported :: IsReport(u, m, hits, phraseHits, reported) && groups == GroupsOf(m, hits, reported)
  }

  method RepeatPhraseGroups(u: Unicode, m: Mining, hits: seq<Hit>) returns (groups: seq<RepeatGroup>)
    requires 0 < m.minWords
    ensures IsAnswer(u, m, hits, groups)
  {
    hide Precedes, Reportable, GroupOf, KeepsMaximal, InOrder, IsPhraseHits, Greedy;
    var mined := CollectPhraseHits(u, m, hits);
    var ranked := RankPhrases(u, m, mined);
    var candidates := CandidatesOf(mined, ranked);
    RankedInOrder(u, mined, ranked);
    GreedyKeepsMaximal(u, candidates);
    GreedyOrder(u, candidates, Precedes(u, mined));
    var kept := RemoveEqualSupportContainedPhrases(u, candidates);
    ReportedExactly(u, m, mined, ranked, kept);
    ghost var reported := kept;
    assert IsReport(u, m, hits, mined, reported);
    if m.maxGroups > 0 && |kept| > m.maxGroups {
      kept := kept[..m.maxGroups];
    }
    groups := seq(|kept|, i requires 0 <= i < |kept| => GroupOf(m, hits, kept[i]));
    assert groups == GroupsOf(m, hits, reported);
  }

  function PhrasesIn(candidates: seq<Candidate>): seq<string> {
    seq(|candidates|, i requires 0 <= i < |candidates| => candidates[i].phrase)
  }

  lemma PhraseHitsUnique(u: Unicode, m: Mining, hits: seq<Hit>, a: PhraseHits, b: PhraseHits)
    requires IsPhraseHits(u, m, hits, a) && IsPhraseHits(u, m, hits, b)
    ensures a == b
  {
    hide MinedBy;
    forall p
      ensures p in a ==> p in b && a[p] == b[p]
      ensures p in b ==> p in a
    {
      assert forall i: nat :: p in a && i in a[p] <==> p in b && i in b[p];
      if p in a {
        var i :| i in a[p];
        assert p in b;
      }
      if p in b {
        var i :| i in b[p];
        assert p in a;
      }
    }
  }

  /** Mining has one answer. */
  lemma AnswerUnique(u: Unicode, m: Mining, hits: seq<Hit>, a: seq<RepeatGroup>, b: seq<RepeatGroup>)
    requires IsAnswer(u, m, hits, a) && IsAnswer(u, m, hits, b)
    ensures a == b
  {
    hide IsPhraseHits, Reportable, Precedes, GroupOf;
    var pa, ra :| IsReport(u, m, hits, pa, ra) && a == GroupsOf(m, hits, ra);
    var pb, rb :| IsReport(u, m, hits, pb, rb) && b == GroupsOf(m, hits, rb);
    PhraseHitsUnique(u, m, hits, pa, pb);
    PrecedesTotal(u, pa);
    var xs, ys := PhrasesIn(ra), PhrasesIn(rb);
    forall p
      ensures p in xs <==> p in ys
    {
      PhraseListed(u, m, pa, ra, p);
      PhraseListed(u, m, pa, rb, p);
    }
    AscendingUnique(Precedes(u, pa), xs, ys);
    assert |ra| == |xs| == |ys| == |rb|;
    forall i | 0 <= i < |ra|
      ensures ra[i] == rb[i]
    {
      assert xs[i] == ys[i];
      assert ra[i] in ra && rb[i] in rb;
    }
  }

  lemma PhraseListed(u: Unicode, m: Mining, phraseHits: PhraseHits, reported: seq<Candidate>, phrase: string)
    requires forall c :: c in reported <==> Reportable(u, m, phraseHits, c.phrase) && c.support == phraseHits[c.phrase]
    ensures phrase in PhrasesIn(reported) <==> Reportable(u, m, phraseHits, phrase)
  {
    hide SubphraseOf;
    if phrase in PhrasesIn(reported) {
      var i :| 0 <= i < |reported| && PhrasesIn(reported)[i] == phrase;
      assert reported[i] in reported;
    }
    if Reportable(u, m, phraseHits, phrase) {
      var c := Candidate(phrase, phraseHits[phrase]);
      var i :| 0 <= i < |reported| && reported[i] == c;
      assert PhrasesIn(reported)[i] == phrase;
    }
  }

  /** The messages that have a phrase. */
  ghost predicate AreSupporters(u: Unicode, m: Mining, hits: seq<Hit>, phrase: string, messages: set<nat>) {
    forall i: nat :: i in messages <==> MinedBy(u, m, hits, phrase, i)
  }

  /** The sessions of some messages. */
  ghost predicate AreSessionsOf(hits: seq<Hit>, messages: set<nat>, ids: set<string>) {
    forall id :: id in ids <==> exists i | i in messages && i < |hits| :: hits[i].sessionId == id
  }

  /**
   * A group counts the messages that have its phrase, at least the required number of them, and their sessions, each
   * once.  Its examples are the earliest of these messages in order, all of them or as many as asked for.
   */
  lemma GroupExact(u: Unicode, m: Mining, hits: seq<Hit>, phraseHits: PhraseHits, c: Candidate,
      messages: set<nat>, ids: set<string>)
    requires IsPhraseHits(u, m, hits, phraseHits) && Reportable(u, m, phraseHits, c.phrase)
    requires c.support == phraseHits[c.phrase]
    requires AreSupporters(u, m, hits, c.phrase, messages) && AreSessionsOf(hits, messages, ids)
    ensures var g := GroupOf(m, hits, c);
            && g.phrase == c.phrase
            && g.matches == |messages| >= m.minMatches
            && g.sessions == |ids| > 0
            && |g.examples| == (if m.maxExamples == 0 || g.matches <= m.maxExamples then g.matches else m.maxExamples)
            && (forall i | i in g.examples :: MinedBy(u, m, hits, c.phrase, i))
            && (forall j, k | 0 <= j < k < |g.examples| :: g.examples[j] < g.examples[k])
            && forall i: nat | MinedBy(u, m, hits, c.phrase, i) && i !in g.examples ::
                 forall j | j in g.examples :: j < i
  {
    hide Mined, SubphraseOf;
    var g := GroupOf(m, hits, c);
    var all := Listed(c.support, |hits|);
    forall i: nat
      ensures i in c.support <==> MinedBy(u, m, hits, c.phrase, i)
      ensures i in c.support <==> i in all
    {
    }
    assert messages == c.support;
    hide IsPhraseHits, Listed;
    ListedSize(all, c.support);
    var sessionIds := set i | i in c.support && i < |hits| :: hits[i].sessionId;
    assert ids == sessionIds;
    SessionsBounded(hits, c.support, sessionIds);
    assert forall j | 0 <= j < |g.examples| :: all[j] == g.examples[j] && all[j] in g.examples;
    forall i: nat | i in all && i !in g.examples
      ensures forall j | j in g.examples :: j < i
    {
      var k :| 0 <= k < |all| && all[k] == i;
    }
  }

  lemma {:induction false} ListedSize(s: seq<nat>, elements: set<nat>)
    requires (forall j, k | 0 <= j < k < |s| :: s[j] < s[k]) && forall i :: i in s <==> i in elements
    ensures |s| == |elements|
  {
    if s == [] {
      assert elements == {};
    } else {
      var last := s[|s| - 1];
      assert last in s;
      forall i
        ensures i in s[..|s| - 1] <==> i in elements - {last}
      {
        assert i in s <==> i in s[..|s| - 1] || i == last;
      }
      ListedSize(s[..|s| - 1], elements - {last});
    }
  }

  /** Messages have no more sessions than there are messages, and some if there are any. */
  lemma {:induction false} SessionsBounded(hits: seq<Hit>, indices: set<nat>, ids: set<string>)
    requires (forall i | i in indices :: i < |hits|) && ids == set i | i in indices && i < |hits| :: hits[i].sessionId
    ensures |ids| <= |indices| && (indices != {} ==> |ids| > 0)
    decreases |indices|
  {
    if indices == {} {
      assert ids == {};
    } else {
      var i :| i in indices;
      var rest := set j | j in indices - {i} && j < |hits| :: hits[j].sessionId;
      SessionsBounded(hits, indices - {i}, rest);
      assert ids == rest + {hits[i].sessionId};
    }
  }

  /**
   * When a reported phrase reads inside another reported one, strictly more messages have it: every message with the
   * longer phrase, and at least one more.
   */
  lemma ShorterHasMoreSupport(u: Unicode, m: Mining, hits: seq<Hit>, phraseHits: PhraseHits, p: string, q: string)
    requires IsPhraseHits(u, m, hits, phraseHits)
    requires Reportable(u, m, phraseHits, p) && Reportable(u, m, phraseHits, q) && p != q && SubphraseOf(u, p, q)
    ensures phraseHits[q] < phraseHits[p]
  {
    hide Mined, SubphraseOf;
    var i :| i in phraseHits[p];
    forall j | j in phraseHits[q]
      ensures j in phraseHits[p]
    {
      assert MinedBy(u, m, hits, p, i) && MinedBy(u, m, hits, q, j);
      SupportAntimonotone(u, m, hits[i].content, hits[j].content, p, q);
      assert MinedBy(u, m, hits, p, j);
    }
  }

  // ----- phrases and marked requests, in terms of words and text -----

  /** These words stand together among the tokens. */
  ghost predicate StandsIn(tokens: seq<string>, words: seq<string>) {
    exists start: nat :: OccursIn(words, tokens, start)
  }

  /** As many words as asked for, none with a digit, the outer ones and some longer one no stop words. */
  ghost predicate Telling(m: Mining, words: seq<string>) {
    && 0 < |words| && m.minWords <= |words| && (|words| <= m.maxWords || |words| == m.minWords)
    && words[0] !in STOPWORDS && words[|words| - 1] !in STOPWORDS
    && (exists w | w in words :: w !in STOPWORDS && Utf8Len(w) >= 4)
    && forall w | w in words :: forall c | c in w :: !('0' <= c <= '9')
  }

  lemma TellingWords(m: Mining, words: seq<string>)
    ensures Telling(m, words) <==>
              && Informative(words) && m.minWords <= |words| && (|words| <= m.maxWords || |words| == m.minWords)
  {
    SomeCharacter(words);
    hide Utf8Len;
  }

  /**
   * A message has a phrase exactly when the phrase's words stand together in its tokens, are as many as asked
   * for, begin and end with a word that is no stop word, have some such word of four bytes or more, and hold no
   * digit.
   */
  lemma MinedExactly(u: Unicode, m: Mining, content: string, phrase: string)
    requires 0 < m.minWords
    ensures Mined(u, m, content, phrase) <==>
              var words := Words(u, phrase);
              phrase == JoinWords(words) && StandsIn(MiningTokens(u, content), words) && Telling(m, words)
  {
    hide MiningTokens, JoinWords, Words, Informative, Telling;
    var tokens, words := MiningTokens(u, content), Words(u, phrase);
    TellingWords(m, words);
    if Mined(u, m, content, phrase) {
      var start: nat, width: nat :| WindowMined(m, tokens, phrase, start, width);
      MinedWords(u, m, content, phrase, start, width);
      assert OccursIn(words, tokens, start);
    }
    if StandsIn(tokens, words) && phrase == JoinWords(words) && Telling(m, words) {
      var start: nat :| OccursIn(words, tokens, start);
      assert words == tokens[start..start + |words|];
      assert WindowMined(m, tokens, phrase, start, |words|);
    }
  }

  /** A word of four bytes without digits is not made of digits only. */
  lemma SomeCharacter(words: seq<string>)
    ensures forall w | w in words && Utf8Len(w) >= 4 && (forall c | c in w :: !IsDigit(c)) ::
              !(forall c | c in w :: IsDigit(c))
  {
    forall w | w in words && Utf8Len(w) >= 4 && (forall c | c in w :: !IsDigit(c))
      ensures !(forall c | c in w :: IsDigit(c))
    {
      assert w != [];
      assert w[0] in w;
    }
  }

  /** Reports come by falling support, then by falling number of words, then in text order. */
  lemma ReportInOrder(u: Unicode, m: Mining, hits: seq<Hit>, phraseHits: PhraseHits, reported: seq<Candidate>)
    requires IsReport(u, m, hits, phraseHits, reported)
    ensures forall i, j | 0 <= i < j < |reported| ::
              var a, b := reported[i], reported[j];
              && |a.support| >= |b.support|
              && (|a.support| == |b.support| ==> |Words(u, a.phrase)| >= |Words(u, b.phrase)|)
              && (|a.support| == |b.support| && |Words(u, a.phrase)| == |Words(u, b.phrase)| ==>
                    LexLess(a.phrase, b.phrase))
  {
    hide Words, LexLess, IsPhraseHits, SubphraseOf;
    forall i | 0 <= i < |reported|
      ensures reported[i].support == SupportIn(phraseHits, reported[i].phrase)
    {
      assert reported[i] in reported;
    }
  }

  /** The first marked request of a message is mined instead of the message: the trimmed text between the markers. */
  lemma MarkedRequest(u: Unicode, before: string, body: string, after: string)
    requires forall i: nat | i < |before| ::
               !OccursAt(before + "<USER_REQUEST>" + body + "</USER_REQUEST>" + after, "<USER_REQUEST>", i)
    requires forall i: nat | i < |body| :: !OccursAt(body + "</USER_REQUEST>" + after, "</USER_REQUEST>", i)
    ensures UserRequestBody(u, before + "<USER_REQUEST>" + body + "</USER_REQUEST>" + after) == Some(Trim(u, body))
    ensures MiningTokens(u, before + "<USER_REQUEST>" + body + "</USER_REQUEST>" + after) == TokensOf(u, Trim(u, body))
  {
    hide Trim, TokensOf;
    var rest := body + "</USER_REQUEST>" + after;
    var content := before + "<USER_REQUEST>" + rest;
    assert content == before + "<USER_REQUEST>" + body + "</USER_REQUEST>" + after;
    assert OccursAt(content, "<USER_REQUEST>", |before|);
    assert content[|before| + |"<USER_REQUEST>"|..] == rest;
    assert OccursAt(rest, "</USER_REQUEST>", |body|);
    assert rest[..|body|] == body;
  }

  /** A request is found only between both markers in order. */
  lemma MarkersFound(u: Unicode, content: string)
    requires UserRequestBody(u, content).Some?
    ensures exists i: nat, j: nat ::
              OccursAt(content, "<USER_REQUEST>", i) && i + 14 <= j && OccursAt(content, "</USER_REQUEST>", j)
  {
    hide Trim, OccursAt;
    var open := Find(content, USER_REQUEST_START).value;
    WithinText(content, USER_REQUEST_START, open);
    var close := Find(content[open + 14..], USER_REQUEST_END).value;
    OccursShifted(content, USER_REQUEST_END, open + 14, close);
  }

  lemma WithinText(s: string, pattern: string, i: nat)
    requires OccursAt(s, pattern, i)
    ensures i + |pattern| <= |s|
  {
  }

  lemma OccursShifted(s: string, pattern: string, from: nat, i: nat)
    requires from <= |s| && OccursAt(s[from..], pattern, i)
    ensures OccursAt(s, pattern, from + i)
  {
    SliceOfSlice(s, from, |s|, i, i + |pattern|);
  }

  /** A message without both markers in order is mined whole. */
  lemma UnmarkedMessage(u: Unicode, content: string)
    requires forall i: nat, j: nat ::
               !(OccursAt(content, "<USER_REQUEST>", i) && i + 14 <= j && OccursAt(content, "</USER_REQUEST>", j))
    ensures MiningTokens(u, content) == TokensOf(u, content)
  {
    hide UserRequestBody, TokensOf;
    if UserRequestBody(u, content).Some? {
      MarkersFound(u, content);
    }
  }

  /** Words read inside others when these are the words with something before or after them. */
  lemma InsideExact(needle: seq<string>, haystack: seq<string>)
    ensures Inside(needle, haystack) <==>
              exists before, after :: haystack == before + needle + after && before + after != []
  {
    if Inside(needle, haystack) {
      var i :| 0 <= i <= |haystack| && OccursIn(needle, haystack, i);
      var before, after := haystack[..i], haystack[i + |needle|..];
      assert haystack == before + needle + after;
      assert |before + after| > 0;
    }
    if before, after :| haystack == before + needle + after && before + after != [] {
      assert OccursIn(needle, haystack, |before|);
    }
  }

  /** The groups are those of the first reports, as many as are wanted, or of all of them. */
  lemma GroupsCut(m: Mining, hits: seq<Hit>, reported: seq<Candidate>)
    ensures var groups := GroupsOf(m, hits, reported);
            && |groups| <= |reported|
            && (m.maxGroups == 0 || |reported| <= m.maxGroups ==> |groups| == |reported|)
            && (0 < m.maxGroups < |reported| ==> |groups| == m.maxGroups)
            && forall i | 0 <= i < |groups| :: groups[i] == GroupOf(m, hits, reported[i])
  {
  }
}
