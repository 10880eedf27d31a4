/** Recurring phrases of one document: admitted token windows and how often each occurs (`phrase_delta`). */
module Phrases {
  import opened Wrappers
  import opened AnalysisErrors
  import opened Text
  import opened Tokens
  import opened Prose
  import opened Windows

  datatype TextMode = UserText | ProseOnlyText(rules: LineRules)

  datatype PhrasePolicy = PhrasePolicy(
    widths: seq<nat>,
    maxUnique: nat,
    minTokens: nat,
    excluded: set<string>,
    excludeNumeric: bool,
    textMode: TextMode)

  /** What compilation guarantees: an ordered set of positive widths, at least one, and a positive bound. */
  predicate IsCompiled(s: PhrasePolicy) {
    && s.widths != []
    && s.maxUnique > 0
    && Positive(s.widths)
    && (forall i, j | 0 <= i < j < |s.widths| :: s.widths[i] < s.widths[j])
  }

  type PhraseSpec = s: PhrasePolicy | IsCompiled(s) witness PhrasePolicy([1], 1, 0, {}, false, UserText)

  predicate HasNumeric(u: Unicode, window: seq<string>) {
    exists t | t in window :: exists c | c in t :: u.isNumeric(c)
  }

  predicate Admitted(u: Unicode, spec: PhraseSpec, window: seq<string>) {
    && !(spec.excludeNumeric && HasNumeric(u, window))
    && !(window != [] && window[0] in spec.excluded)
    && !(forall t | t in window :: t in spec.excluded)
  }

  /** The phrase of a window: its tokens joined by spaces, unless the policy excludes it. */
  function PhraseOf(u: Unicode, spec: PhraseSpec, window: seq<string>): Option<string> {
    if Admitted(u, spec, window) then Some(JoinWords(window)) else None
  }

  /** The phrase of the window of a given width which ends at a given token. */
  function PhrasesOf(u: Unicode, spec: PhraseSpec, tokens: seq<string>): PhraseAt {
    (n: nat, width: nat) =>
      if width <= n <= |tokens| then PhraseOf(u, spec, tokens[n - width..n]) else None
  }

  /** The verdict on one document, from its token count and the counts of its phrases. */
  function DeltaOf(spec: PhraseSpec, total: nat, counts: Delta): Result<Delta, AnalysisError> {
    if total < spec.minTokens then Ok(map[])
    else if |counts| > spec.maxUnique then Err(TooManyPhrases)
    else Ok(counts)
  }

  function DocumentTokens(u: Unicode, spec: PhraseSpec, content: string): seq<string> {
    match spec.textMode
    case UserText => TokensOf(u, content)
    case ProseOnlyText(rules) => TokensOf(u, ProseText(rules, content))
  }

  function DocumentDelta(u: Unicode, spec: PhraseSpec, content: string): Result<Delta, AnalysisError> {
    var tokens := DocumentTokens(u, spec, content);
    DeltaOf(spec, |tokens|, WidthMajor(PhrasesOf(u, spec, tokens), spec.widths, |spec.widths|, |tokens|))
  }

  /** Count one phrase unless that would exceed the bound on distinct phrases. */
  method Tally(bound: nat, counts: Delta, phrase: string) returns (ok: bool, counts': Delta)
    requires |counts| <= bound
    ensures ok ==> counts' == Bump(counts, phrase) && |counts'| <= bound
    ensures !ok ==> |Bump(counts, phrase)| > bound
  {
    assert Bump(counts, phrase).Keys == counts.Keys + {phrase};
    assert |counts| == |counts.Keys| && |Bump(counts, phrase)| == |Bump(counts, phrase).Keys|;
    if phrase !in counts && |counts| >= bound {
      return false, counts;
    }
    return true, Bump(counts, phrase);
  }

  /** The batch loop over the windows of one width. */
  method TallyWidth(at: PhraseAt, bound: nat, width: nat, total: nat, before: Delta) returns (ok: bool, counts: Delta)
    requires 0 < width && |before| <= bound
    ensures ok ==> counts == Slide(at, width, total, before) && |counts| <= bound
    ensures !ok ==> |Slide(at, width, total, before)| > bound
  {
    hide Bump, Occurs;
    counts := before;
    if total < width {
      return true, before;
    }
    for last := width - 1 to total
      invariant counts == Slide(at, width, last, before) && |counts| <= bound
    {
      var phrase := at(last + 1, width);
      if phrase.Some? {
        ok, counts := Tally(bound, counts, phrase.value);
        if !ok {
          SlideGrows(at, width, last + 1, total, before);
          FewerKeys(Slide(at, width, last + 1, before), Slide(at, width, total, before));
          return;
        }
      }
    }
    ok := true;
  }

  /** The batch loop over all widths, failing as soon as one phrase too many appears. */
  method TallyWidths(at: PhraseAt, spec: PhraseSpec, total: nat) returns (r: Result<Delta, AnalysisError>)
    requires total >= spec.minTokens
    ensures r == DeltaOf(spec, total, WidthMajor(at, spec.widths, |spec.widths|, total))
  {
    var counts: Delta := map[];
    for k := 0 to |spec.widths|
      invariant counts == WidthMajor(at, spec.widths, k, total) && |counts| <= spec.maxUnique
    {
      var ok;
      ok, counts := TallyWidth(at, spec.maxUnique, spec.widths[k], total, counts);
      if !ok {
        WidthMajorGrows(at, spec.widths, k + 1, |spec.widths|, total);
        FewerKeys(WidthMajor(at, spec.widths, k + 1, total), WidthMajor(at, spec.widths, |spec.widths|, total));
        return Err(TooManyPhrases);
      }
    }
    r := Ok(counts);
  }

  /** Recurring phrases of one whole document. */
  method PhraseDelta(u: Unicode, content: string, spec: PhraseSpec) returns (r: Result<Delta, AnalysisError>)
    ensures r == DocumentDelta(u, spec, content)
  {
    var text := content;
    if spec.textMode.ProseOnlyText? {
      text := ProseOnly(spec.textMode.rules, content);
    }
    var tokens := NormalizedTokens(u, text);
    if |tokens| < spec.minTokens {
      return Ok(map[]);
    }
    r := TallyWidths(PhrasesOf(u, spec, tokens), spec, |tokens|);
  }
}
