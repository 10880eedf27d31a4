/** Analysis input and policy, and the classification of one document (`AnalysisPolicy::classify`). */
module Documents {
  import opened Wrappers
  import opened Phrases

  datatype SessionRecord = SessionRecord(
    id: string,
    title: Option<string>,
    summary: Option<string>,
    provider: string,
    cwd: Option<string>,
    repoRoot: Option<string>)

  datatype AnalysisDocument = AnalysisDocument(
    session: SessionRecord,
    userText: string,
    firstUserText: Option<string>,
    messageCount: int,
    userMessageCount: int)

  datatype Target = TitleTarget | SummaryTarget | FirstUserTextTarget | UserTextTarget | AnyTarget

  /** A compiled rule; the regular expression is a total test on text. */
  datatype ClassificationRule = ClassificationRule(
    dimension: string,
    ruleLabel: string,
    target: Target,
    weight: int,
    matches: string -> bool)

  datatype RelationshipKind = Branch | Copy | Version

  /**
   * A compiled relationship rule.  `capture` is nothing when the title does not match; otherwise it is the text of
   * the `parent` group, which may itself not have taken part in the match.
   */
  datatype RelationshipRule = RelationshipRule(id: string, kind: RelationshipKind,
    capture: string -> Option<Option<string>>)

  datatype AnalysisPolicy = AnalysisPolicy(
    rules: seq<ClassificationRule>,
    relationships: seq<RelationshipRule>,
    phrases: Option<PhraseSpec>,
    maxClassificationChars: Option<nat>)

  datatype ClassificationMatch = ClassificationMatch(dimension: string, ruleLabel: string, target: Target, weight: int)

  /** At most the first `limit` characters. */
  function CharPrefix(value: string, limit: Option<nat>): string {
    if limit.None? || |value| <= limit.value then value else value[..limit.value]
  }

  predicate MatchesOptional(rule: ClassificationRule, value: Option<string>) {
    value.Some? && rule.matches(value.value)
  }

  predicate ClassificationMatches(rule: ClassificationRule, document: AnalysisDocument, limit: Option<nat>) {
    var userText := CharPrefix(document.userText, limit);
    var firstUserText :=
      if document.firstUserText.Some? then Some(CharPrefix(document.firstUserText.value, limit)) else None;
    match rule.target
    case TitleTarget => MatchesOptional(rule, document.session.title)
    case SummaryTarget => MatchesOptional(rule, document.session.summary)
    case FirstUserTextTarget => MatchesOptional(rule, firstUserText)
    case UserTextTarget => rule.matches(userText)
    case AnyTarget =>
      || MatchesOptional(rule, document.session.title)
      || MatchesOptional(rule, document.session.summary)
      || MatchesOptional(rule, firstUserText)
      || rule.matches(userText)
  }

  /** The matching rules, in policy order. */
  function ClassifyWith(rules: seq<ClassificationRule>, document: AnalysisDocument, limit: Option<nat>)
      : seq<ClassificationMatch>
  {
    if rules == [] then []
    else
      var rest := ClassifyWith(rules[1..], document, limit);
      var rule := rules[0];
      if ClassificationMatches(rule, document, limit) then
        [ClassificationMatch(rule.dimension, rule.ruleLabel, rule.target, rule.weight)] + rest
      else rest
  }

  function Classify(policy: AnalysisPolicy, document: AnalysisDocument): seq<ClassificationMatch> {
    ClassifyWith(policy.rules, document, policy.maxClassificationChars)
  }

  /** How much of the joined user text classification must see. */
  datatype TextNeed = Unused | Bounded(limit: nat) | Full

  predicate ReadsUserText(rule: ClassificationRule) {
    rule.target.UserTextTarget? || rule.target.AnyTarget?
  }

  function NeedOf(policy: AnalysisPolicy): TextNeed {
    if !(exists i | 0 <= i < |policy.rules| :: ReadsUserText(policy.rules[i])) then Unused
    else if policy.maxClassificationChars.Some? then Bounded(policy.maxClassificationChars.value)
    else Full
  }

  /** The text that meets a need. */
  function Retained(need: TextNeed, joined: string): string {
    match need
    case Unused => ""
    case Bounded(limit) => CharPrefix(joined, Some(limit))
    case Full => joined
  }

  /** Classification sees no difference between the joined text and what is retained of it. */
  lemma {:induction false} RetainedSuffices(
    rules: seq<ClassificationRule>, limit: Option<nat>, document: AnalysisDocument, retained: string)
    requires (forall rule | rule in rules :: !ReadsUserText(rule))
               || CharPrefix(retained, limit) == CharPrefix(document.userText, limit)
    ensures ClassifyWith(rules, document.(userText := retained), limit) == ClassifyWith(rules, document, limit)
  {
    if rules != [] {
      assert rules[0] in rules;
      RetainedSuffices(rules[1..], limit, document, retained);
    }
  }

  lemma ClassifyRetained(policy: AnalysisPolicy, document: AnalysisDocument)
    ensures Classify(policy, document.(userText := Retained(NeedOf(policy), document.userText))) ==
              Classify(policy, document)
  {
    var need := NeedOf(policy);
    if need.Unused? {
      forall rule | rule in policy.rules
        ensures !ReadsUserText(rule)
      {
        var i :| 0 <= i < |policy.rules| && policy.rules[i] == rule;
        assert !ReadsUserText(policy.rules[i]);
      }
    }
    RetainedSuffices(policy.rules, policy.maxClassificationChars, document, Retained(need, document.userText));
  }
}
