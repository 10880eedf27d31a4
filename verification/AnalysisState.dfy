/** What an analysis accumulates, and what pushing one document and finishing do to it. */
module AnalysisState {
  import opened Wrappers
  import opened AnalysisErrors
  import opened Text
  import opened Order
  import opened Windows
  import opened Documents
  import opened StreamingDocument
  import opened Relationships

  const U64_MAX: nat := 0xFFFF_FFFF_FFFF_FFFF
  const I64_MIN: int := -0x8000_0000_0000_0000
  const I64_MAX: int := 0x7FFF_FFFF_FFFF_FFFF

  datatype PhraseFrequency = PhraseFrequency(phrase: string, words: nat, documents: nat, occurrences: nat)

  datatype AnalyzedSession = AnalyzedSession(
    session: SessionRecord,
    hasUserText: bool,
    classifications: seq<ClassificationMatch>,
    score: int,
    hints: seq<RelationshipHint>,
    messageCount: int,
    userMessageCount: int)

  type Sessions = map<string, AnalyzedSession>
  type Vocabulary = map<string, PhraseFrequency>

  datatype State = State(sessions: Sessions, titles: Titles, vocabulary: Vocabulary)

  const EMPTY: State := State(map[], map[], map[])

  /** What one document contributes, once classified and counted. */
  datatype Contribution = Contribution(
    session: SessionRecord,
    classifications: seq<ClassificationMatch>,
    delta: Option<Delta>,
    hasUserText: bool,
    messageCount: int,
    userMessageCount: int)

  /** The weights added up from the left, unless a partial sum leaves the 64-bit range. */
  function CheckedScore(matches: seq<ClassificationMatch>): Option<int> {
    if matches == [] then Some(0)
    else
      var before := CheckedScore(matches[..|matches| - 1]);
      if before.None? then None
      else
        var total := before.value + matches[|matches| - 1].weight;
        if I64_MIN <= total <= I64_MAX then Some(total) else None
  }

  /** The entry of a phrase after one document: counted when the document has it, unchanged otherwise. */
  function EntryAfter(u: Unicode, vocabulary: Vocabulary, delta: Delta, phrase: string): PhraseFrequency
    requires phrase in vocabulary || phrase in delta
  {
    if phrase !in delta then vocabulary[phrase]
    else
      var entry :=
        if phrase in vocabulary then vocabulary[phrase]
        else PhraseFrequency(phrase, |SplitWhitespace(u, phrase)|, 0, 0);
      entry.(documents := entry.documents + 1, occurrences := entry.occurrences + delta[phrase])
  }

  /** A phrase already present whose counts would leave 64 bits. */
  predicate Overflows(vocabulary: Vocabulary, delta: Delta, phrase: string) {
    phrase in vocabulary && phrase in delta &&
    (vocabulary[phrase].occurrences + delta[phrase] > U64_MAX || vocabulary[phrase].documents + 1 > U64_MAX)
  }

  function MergeVocabulary(u: Unicode, bound: nat, vocabulary: Vocabulary, delta: Delta)
      : Result<Vocabulary, AnalysisError>
  {
    var phrases := vocabulary.Keys + delta.Keys;
    if |phrases| > bound then Err(VocabularyFull)
    else if exists p | p in phrases :: Overflows(vocabulary, delta, p) then Err(CountOverflow)
    else Ok(map p | p in phrases :: EntryAfter(u, vocabulary, delta, p))
  }

  function MergeTitles(titles: Titles, session: SessionRecord): Titles {
    match session.title
    case None => titles
    case Some(title) => titles[title := TitledIds(titles, title) + [session.id]]
  }

  function Analyzed(c: Contribution, score: int): AnalyzedSession {
    AnalyzedSession(c.session, c.hasUserText, c.classifications, score, [], c.messageCount, c.userMessageCount)
  }

  function MergedVocabulary(u: Unicode, policy: AnalysisPolicy, vocabulary: Vocabulary, delta: Option<Delta>)
      : Result<Vocabulary, AnalysisError>
  {
    if policy.phrases.Some? && delta.Some?
      then MergeVocabulary(u, policy.phrases.value.maxUnique, vocabulary, delta.value)
    else Ok(vocabulary)
  }

  /** All checks first, then the whole contribution. */
  function Merge(u: Unicode, policy: AnalysisPolicy, st: State, c: Contribution): Result<State, AnalysisError> {
    match CheckedScore(c.classifications)
    case None => Err(ScoreOverflow)
    case Some(score) =>
      match MergedVocabulary(u, policy, st.vocabulary, c.delta)
      case Err(error) => Err(error)
      case Ok(vocabulary) =>
        Ok(State(st.sessions[c.session.id := Analyzed(c, score)], MergeTitles(st.titles, c.session), vocabulary))
  }

  /** Classify and count one document on its own. */
  function ContributionOf(u: Unicode, policy: AnalysisPolicy, document: AnalysisDocument)
      : Result<Contribution, AnalysisError>
  {
    match OptionalDelta(u, policy, document.userText)
    case Err(error) => Err(error)
    case Ok(delta) =>
      Ok(Contribution(document.session, Classify(policy, document), delta, Trim(u, document.userText) != [],
                      document.messageCount, document.userMessageCount))
  }

  /** Why a session cannot be added, if it cannot. */
  function Refusal(u: Unicode, sessions: Sessions, id: string): Option<AnalysisError> {
    if Trim(u, id) == [] then Some(EmptySessionId)
    else if id in sessions then Some(DuplicateSession)
    else None
  }

  /** Push one document: the next state, or the failure that leaves the state as it was. */
  function Push(u: Unicode, policy: AnalysisPolicy, st: State, document: AnalysisDocument)
      : Result<State, AnalysisError>
  {
    match Refusal(u, st.sessions, document.session.id)
    case Some(error) => Err(error)
    case None =>
      match ContributionOf(u, policy, document)
      case Err(error) => Err(error)
      case Ok(c) => Merge(u, policy, st, c)
  }

  /** Push documents one after the other. */
  function PushAll(u: Unicode, policy: AnalysisPolicy, documents: seq<AnalysisDocument>): Result<State, AnalysisError> {
    if documents == [] then Ok(EMPTY)
    else
      match PushAll(u, policy, documents[..|documents| - 1])
      case Err(error) => Err(error)
      case Ok(st) => Push(u, policy, st, documents[|documents| - 1])
  }

  /** The document a stream of chunks stands for. */
  function StreamedDocument(session: SessionRecord, messageCount: int, userMessageCount: int, texts: seq<string>)
      : AnalysisDocument
  {
    AnalysisDocument(session, JoinAll(texts), if texts == [] then None else Some(texts[0]), messageCount,
      userMessageCount)
  }

  /** What streaming derives from chunks is the contribution of the joined document. */
  lemma StreamedContribution(u: Unicode, policy: AnalysisPolicy, session: SessionRecord, messageCount: int,
      userMessageCount: int, texts: seq<string>)
    ensures var document := StreamedDocument(session, messageCount, userMessageCount, texts);
            ContributionOf(u, policy, document) ==
            match BatchResult(u, policy, texts)
            case Err(error) => Err(error)
            case Ok((facts, delta)) =>
              Ok(Contribution(session,
                              Classify(policy, AnalysisDocument(session, facts.classificationText,
                                facts.firstUserText, messageCount, userMessageCount)),
                              delta, facts.hasUserText, messageCount, userMessageCount))
  {
    ClassifyRetained(policy, StreamedDocument(session, messageCount, userMessageCount, texts));
  }

  /** The hints of one analyzed session. */
  function SessionHints(u: Unicode, policy: AnalysisPolicy, titles: Titles, analyzed: AnalyzedSession, id: string)
      : Result<seq<RelationshipHint>, AnalysisError>
  {
    match analyzed.session.title
    case None => Ok([])
    case Some(title) => HintsFor(u, titles, policy.relationships, id, title)
  }

  /** The sessions with their hints, unless some rule captures a blank parent. */
  function FinishSessions(u: Unicode, policy: AnalysisPolicy, st: State): Result<Sessions, AnalysisError> {
    if exists id | id in st.sessions :: SessionHints(u, policy, st.titles, st.sessions[id], id).Err?
      then Err(EmptyParent)
    else
      Ok(map id | id in st.sessions ::
           st.sessions[id].(hints := st.sessions[id].hints +
             SessionHints(u, policy, st.titles, st.sessions[id], id).value))
  }

  /** More occurrences first, then more documents, then more words, then by phrase. */
  predicate RanksBefore(a: PhraseFrequency, b: PhraseFrequency) {
    if a.occurrences != b.occurrences then a.occurrences > b.occurrences
    else if a.documents != b.documents then a.documents > b.documents
    else if a.words != b.words then a.words > b.words
    else LexLess(a.phrase, b.phrase)
  }

  lemma RankingTotal()
    ensures StrictTotal(RanksBefore)
  {
    LexTotal();
  }

  /** The entries of a vocabulary in rank order. */
  ghost predicate IsRanking(ranked: seq<PhraseFrequency>, vocabulary: Vocabulary) {
    Ascending(RanksBefore, ranked) && forall f :: f in ranked <==> f in vocabulary.Values
  }

  datatype AnalysisResult = AnalysisResult(sessions: Sessions, vocabulary: seq<PhraseFrequency>)

  /** What finishing may return for a state. */
  ghost predicate FinishesWith(u: Unicode, policy: AnalysisPolicy, st: State,
      r: Result<AnalysisResult, AnalysisError>)
  {
    match FinishSessions(u, policy, st)
    case Err(error) => r == Err(error)
    case Ok(sessions) => r.Ok? && r.value.sessions == sessions && IsRanking(r.value.vocabulary, st.vocabulary)
  }
}
