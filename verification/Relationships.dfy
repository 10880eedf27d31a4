/** Relationship hints: name-derived evidence resolved against session titles (`AnalysisAccumulator::finish`). */
module Relationships {
  import opened Wrappers
  import opened AnalysisErrors
  import opened Text
  import opened Order
  import opened Documents

  datatype Resolution = Unresolved | Resolved(sessionId: string) | Ambiguous(sessionIds: seq<string>)

  datatype RelationshipHint = RelationshipHint(ruleId: string, kind: RelationshipKind, parentTitle: string,
    resolution: Resolution)

  /** Session ids by title, in order of arrival. */
  type Titles = map<string, seq<string>>

  function TitledIds(titles: Titles, title: string): seq<string> {
    if title in titles then titles[title] else []
  }

  /** A list without one element. */
  function Without(ids: seq<string>, self: string): seq<string> {
    if ids == [] then []
    else if ids[0] == self then Without(ids[1..], self)
    else [ids[0]] + Without(ids[1..], self)
  }

  /** The other sessions with a title, sorted and without repetition. */
  function Candidates(titles: Titles, parent: string, self: string): seq<string> {
    Without(SortDedup(LexLess, TitledIds(titles, parent)), self)
  }

  function Resolve(candidates: seq<string>): Resolution {
    if candidates == [] then Unresolved
    else if |candidates| == 1 then Resolved(candidates[0])
    else Ambiguous(candidates)
  }

  /** The hint one rule gives for one title: none without a match, a failure when the parent is blank. */
  function HintFor(u: Unicode, titles: Titles, rule: RelationshipRule, self: string, title: string)
      : Result<Option<RelationshipHint>, AnalysisError>
  {
    match rule.capture(title)
    case None => Ok(None)
    case Some(parent) =>
      var trimmed := if parent.Some? then Trim(u, parent.value) else [];
      if trimmed == [] then Err(EmptyParent)
      else Ok(Some(RelationshipHint(rule.id, rule.kind, trimmed, Resolve(Candidates(titles, trimmed, self)))))
  }

  /** What each rule gives, by its position. */
  type HintAt = nat -> Result<Option<RelationshipHint>, AnalysisError>

  function RuleHints(u: Unicode, titles: Titles, rules: seq<RelationshipRule>, self: string, title: string): HintAt {
    (k: nat) => if k < |rules| then HintFor(u, titles, rules[k], self, title) else Ok(None)
  }

  /** The hints of the first rules, in order, or the first failure. */
  function Collect(hintAt: HintAt, count: nat): Result<seq<RelationshipHint>, AnalysisError> {
    if count == 0 then Ok([])
    else
      match Collect(hintAt, count - 1)
      case Err(error) => Err(error)
      case Ok(hints) =>
        match hintAt(count - 1)
        case Err(error) => Err(error)
        case Ok(None) => Ok(hints)
        case Ok(Some(hint)) => Ok(hints + [hint])
  }

  /** The hints of one session. */
  function HintsFor(u: Unicode, titles: Titles, rules: seq<RelationshipRule>, self: string, title: string)
      : Result<seq<RelationshipHint>, AnalysisError>
  {
    Collect(RuleHints(u, titles, rules, self, title), |rules|)
  }

  method CollectHints(hintAt: HintAt, count: nat) returns (r: Result<seq<RelationshipHint>, AnalysisError>)
    ensures r == Collect(hintAt, count)
  {
    var hints: seq<RelationshipHint> := [];
    for k := 0 to count
      invariant Collect(hintAt, k) == Ok(hints)
    {
      var hint := hintAt(k);
      if hint.Err? {
        FailureStays(hintAt, k + 1, count);
        return Err(hint.error);
      }
      if hint.value.Some? {
        hints := hints + [hint.value.value];
      }
    }
    r := Ok(hints);
  }

  lemma {:induction false} FailureStays(hintAt: HintAt, few: nat, many: nat)
    requires few <= many && Collect(hintAt, few).Err?
    ensures Collect(hintAt, many) == Collect(hintAt, few)
  {
    if few < many {
      FailureStays(hintAt, few, many - 1);
    }
  }

  /** Every hint collected comes from some rule. */
  lemma {:induction false} CollectedFrom(hintAt: HintAt, count: nat)
    requires Collect(hintAt, count).Ok?
    ensures forall hint :: hint in Collect(hintAt, count).value <==>
              exists k: nat :: k < count && hintAt(k) == Ok(Some(hint))
  {
    if count > 0 {
      CollectedFrom(hintAt, count - 1);
      var hints := Collect(hintAt, count).value;
      forall hint
        ensures hint in hints <==> exists k: nat :: k < count && hintAt(k) == Ok(Some(hint))
      {
        if hint in hints && hint !in Collect(hintAt, count - 1).value {
          assert hintAt(count - 1) == Ok(Some(hint));
        }
      }
    }
  }

  lemma {:induction false} WithoutElements(ids: seq<string>, self: string)
    ensures forall id :: id in Without(ids, self) <==> id in ids && id != self
    ensures Ascending(LexLess, ids) ==> Ascending(LexLess, Without(ids, self))
  {
    if ids != [] {
      WithoutElements(ids[1..], self);
      var rest := Without(ids[1..], self);
      assert forall id :: id in ids <==> id == ids[0] || id in ids[1..];
      if Ascending(LexLess, ids) && ids[0] != self {
        forall j | 0 <= j < |rest|
          ensures LexLess(ids[0], rest[j])
        {
          assert rest[j] in rest;
        }
      }
    }
  }

  /** Candidates are exactly the other sessions with the title, ascending. */
  lemma CandidatesExact(titles: Titles, parent: string, self: string)
    ensures forall id :: id in Candidates(titles, parent, self) <==> id in TitledIds(titles, parent) && id != self
    ensures Ascending(LexLess, Candidates(titles, parent, self))
  {
    LexTotal();
    SortSorts(LexLess, TitledIds(titles, parent));
    WithoutElements(SortDedup(LexLess, TitledIds(titles, parent)), self);
  }

  /**
   * A resolution names a session exactly when it is the only other one with the title, lists all of them in ascending
   * order when there are several, and is empty when there is none.
   */
  lemma ResolutionExact(titles: Titles, parent: string, self: string, others: set<string>)
    requires forall id :: id in others <==> id in TitledIds(titles, parent) && id != self
    ensures var resolution := Resolve(Candidates(titles, parent, self));
            && (resolution.Unresolved? <==> others == {})
            && (forall id :: resolution == Resolved(id) <==> others == {id})
            && (resolution.Ambiguous? <==> |others| > 1)
            && (resolution.Ambiguous? ==> Ascending(LexLess, resolution.sessionIds))
            && (resolution.Ambiguous? ==> forall id :: id in resolution.sessionIds <==> id in others)
  {
    var candidates := Candidates(titles, parent, self);
    CandidatesExact(titles, parent, self);
    assert forall id :: id in candidates <==> id in others;
    AscendingSize(candidates, others);
    if |candidates| == 1 {
      assert candidates[0] in candidates;
      assert forall id :: id in candidates ==> id == candidates[0];
      assert others == {candidates[0]};
    } else if candidates != [] {
      assert candidates[0] in candidates && candidates[1] in candidates;
      LexConnected(candidates[0], candidates[0]);
      assert LexLess(candidates[0], candidates[1]);
    }
  }

  /** An ascending list has as many entries as elements. */
  lemma {:induction false} AscendingSize(s: seq<string>, elements: set<string>)
    requires Ascending(LexLess, s) && forall x :: x in s <==> x in elements
    ensures |s| == |elements|
  {
    if s == [] {
      assert elements == {};
    } else {
      LexTotal();
      assert s[0] in s;
      forall x
        ensures x in s[1..] <==> x in elements - {s[0]}
      {
        assert x in s <==> x == s[0] || x in s[1..];
        assert x in s[1..] ==> LexLess(s[0], x);
      }
      AscendingSize(s[1..], elements - {s[0]});
    }
  }

  /** Hints come in the order of the rules, one for each that matches; the first rule that fails decides. */
  lemma {:induction false} HintsInRuleOrder(u: Unicode, titles: Titles, rules: seq<RelationshipRule>,
      last: RelationshipRule, self: string, title: string)
    ensures HintsFor(u, titles, [], self, title) == Ok([])
    ensures HintsFor(u, titles, rules + [last], self, title) ==
              var before, hint := HintsFor(u, titles, rules, self, title), HintFor(u, titles, last, self, title);
              if before.Err? then before
              else if hint.Err? then Err(hint.error)
              else if hint.value.None? then before
              else Ok(before.value + [hint.value.value])
  {
    hide HintFor;
    var all := rules + [last];
    SameHints(RuleHints(u, titles, rules, self, title), RuleHints(u, titles, all, self, title), |rules|);
  }

  lemma {:induction false} SameHints(a: HintAt, b: HintAt, count: nat)
    requires forall k: nat | k < count :: a(k) == b(k)
    ensures Collect(a, count) == Collect(b, count)
  {
    if count > 0 {
      SameHints(a, b, count - 1);
    }
  }
}
