/** Compilation of correction policies and classification of message fragments (`corrections.rs`). */
module Corrections {
  import opened Wrappers
  import opened Text

  const USIZE_MAX: nat := 0xFFFF_FFFF_FFFF_FFFF

  function SaturatingAdd(a: nat, b: nat): nat {
    if a + b > USIZE_MAX then USIZE_MAX else a + b
  }

  /** A match in bytes of UTF-8: first byte and the one after the last. */
  datatype ByteRange = ByteRange(start: nat, end: nat)

  /** Matches start and end between characters of the text. */
  ghost predicate OnBoundaries(text: string, range: ByteRange) {
    exists i, j | 0 <= i <= j <= |text| :: range == ByteRange(Utf8Len(text[..i]), Utf8Len(text[..j]))
  }

  ghost predicate FindsText(find: string -> Option<ByteRange>) {
    forall text | find(text).Some? :: OnBoundaries(text, find(text).value)
  }

  /** A compiled expression, by where it first matches a text. */
  type Regex = find: string -> Option<ByteRange> | FindsText(find) witness ((_: string) => None)

  // ----- characters and bytes -----

  /** `text[..bytes].chars().count()`. */
  function CharsBefore(text: string, bytes: nat): nat {
    if text == [] || bytes == 0 then 0
    else 1 + CharsBefore(text[1..], if bytes < Utf8Width(text[0]) then 0 else bytes - Utf8Width(text[0]))
  }

  /** Counting the characters before a byte offset undoes measuring a prefix in bytes. */
  lemma {:induction false} CharsBeforePrefix(text: string, i: nat)
    requires i <= |text|
    ensures CharsBefore(text, Utf8Len(text[..i])) == i
    decreases |text|
  {
    if i > 0 {
      assert text[..i][1..] == text[1..][..i - 1];
      CharsBeforePrefix(text[1..], i - 1);
    }
  }

  lemma BoundariesAreChars(text: string, range: ByteRange)
    requires OnBoundaries(text, range)
    ensures CharsBefore(text, range.start) <= CharsBefore(text, range.end) <= |text|
  {
    var i, j :| 0 <= i <= j <= |text| && range == ByteRange(Utf8Len(text[..i]), Utf8Len(text[..j]));
    CharsBeforePrefix(text, i);
    CharsBeforePrefix(text, j);
  }

  /** The text of a match. */
  function Slice(text: string, range: ByteRange): string
    requires OnBoundaries(text, range)
  {
    BoundariesAreChars(text, range);
    text[CharsBefore(text, range.start)..CharsBefore(text, range.end)]
  }

  // ----- classification -----

  datatype Rule = Rule(category: string, regex: Regex)

  datatype Source = Embedded | File(path: string) | Inline

  datatype Identity = Identity(name: string, version: string, sha256: string, source: Source)

  datatype Policy = Policy(identity: Identity, rules: seq<Rule>, categoryCount: nat)

  datatype Fragment = Fragment(startChar: nat, text: string)

  datatype Hit = Hit(category: string, matchedText: string, start: nat, end: nat)

  /** The hit of one rule in one fragment, in characters of the original message. */
  function HitIn(rule: Rule, fragment: Fragment): Option<Hit> {
    match rule.regex(fragment.text)
    case None => None
    case Some(range) =>
      var matched := Slice(fragment.text, range);
      var start := SaturatingAdd(fragment.startChar, CharsBefore(fragment.text, range.start));
      Some(Hit(rule.category, matched, start, SaturatingAdd(start, |matched|)))
  }

  /** `find_map`. */
  function FindMap<T, R>(items: seq<T>, f: T -> Option<R>): Option<R> {
    if items == [] then None
    else if f(items[0]).Some? then f(items[0])
    else FindMap(items[1..], f)
  }

  function InFragments(fragments: seq<Fragment>, rule: Rule): Option<Hit> {
    FindMap(fragments, fragment => HitIn(rule, fragment))
  }

  function InPolicy(fragments: seq<Fragment>, policy: Policy): Option<Hit> {
    FindMap(policy.rules, rule => InFragments(fragments, rule))
  }

  /** `classify_fragments` over a set of policies. */
  function ClassifyFragments(policies: seq<Policy>, fragments: seq<Fragment>): Option<(Identity, Hit)> {
    FindMap(policies, (policy: Policy) =>
      var hit := InPolicy(fragments, policy);
      if hit.Some? then Some((policy.identity, hit.value)) else None)
  }

  /** `classify`: one message as its only fragment. */
  function Classify(policies: seq<Policy>, text: string): Option<(Identity, Hit)> {
    ClassifyFragments(policies, [Fragment(0, text)])
  }

  /** The index of the first item that gives something. */
  ghost predicate FirstAt<T, R>(items: seq<T>, f: T -> Option<R>, k: nat) {
    k < |items| && f(items[k]).Some? && forall i | 0 <= i < k :: f(items[i]).None?
  }

  lemma {:induction false} FindMapFirst<T, R>(items: seq<T>, f: T -> Option<R>) returns (k: nat)
    ensures FindMap(items, f).Some? ==> FirstAt(items, f, k) && FindMap(items, f) == f(items[k])
    ensures FindMap(items, f).None? <==> forall i | 0 <= i < |items| :: f(items[i]).None?
  {
    k := 0;
    if items != [] && f(items[0]).None? {
      var j := FindMapFirst(items[1..], f);
      k := j + 1;
      forall i | 0 < i < |items|
        ensures items[i] == items[1..][i - 1]
      {
      }
      assert forall i | 0 <= i < |items[1..]| :: items[1..][i] == items[i + 1];
    }
  }

  /** What the rule of some policy finds in some fragment. */
  function HitAt(policies: seq<Policy>, fragments: seq<Fragment>, p: nat, r: nat, f: nat): Option<Hit> {
    if p < |policies| && r < |policies[p].rules| && f < |fragments| then HitIn(policies[p].rules[r], fragments[f])
      else None
  }

  /** The order of evaluation: policies, then rules, then fragments. */
  predicate Before(p: nat, r: nat, f: nat, p2: nat, r2: nat, f2: nat) {
    p < p2 || (p == p2 && (r < r2 || (r == r2 && f < f2)))
  }

  ghost predicate NothingBefore(policies: seq<Policy>, fragments: seq<Fragment>, p: nat, r: nat, f: nat) {
    forall p0: nat, r0: nat, f0: nat | Before(p0, r0, f0, p, r, f) :: HitAt(policies, fragments, p0, r0, f0).None?
  }

  ghost predicate IsFirst(policies: seq<Policy>, fragments: seq<Fragment>, p: nat, r: nat, f: nat) {
    HitAt(policies, fragments, p, r, f).Some? && NothingBefore(policies, fragments, p, r, f)
  }

  lemma NoHitInPolicy(policies: seq<Policy>, fragments: seq<Fragment>, p: nat)
    requires p < |policies|
    ensures InPolicy(fragments, policies[p]).None? <==>
              forall r: nat, f: nat :: HitAt(policies, fragments, p, r, f).None?
  {
    hide HitIn;
    var policy := policies[p];
    var k := FindMapFirst(policy.rules, rule => InFragments(fragments, rule));
    forall r: nat | r < |policy.rules|
      ensures InFragments(fragments, policy.rules[r]).None? <==>
                forall f: nat :: HitAt(policies, fragments, p, r, f).None?
    {
      var j := FindMapFirst(fragments, fragment => HitIn(policy.rules[r], fragment));
      if InFragments(fragments, policy.rules[r]).None? {
      } else {
        assert HitAt(policies, fragments, p, r, j).Some?;
      }
    }
    if InPolicy(fragments, policy).Some? {
      assert InFragments(fragments, policy.rules[k]).Some?;
    }
  }

  /** Where the first hit of a policy is. */
  lemma FirstInPolicy(policies: seq<Policy>, fragments: seq<Fragment>, p: nat) returns (r: nat, f: nat)
    requires p < |policies| && InPolicy(fragments, policies[p]).Some?
    ensures HitAt(policies, fragments, p, r, f) == InPolicy(fragments, policies[p])
    ensures forall r0: nat, f0: nat | r0 < r || (r0 == r && f0 < f) :: HitAt(policies, fragments, p, r0, f0).None?
  {
    hide HitIn;
    var policy := policies[p];
    r := FindMapFirst(policy.rules, rule => InFragments(fragments, rule));
    f := FindMapFirst(fragments, fragment => HitIn(policy.rules[r], fragment));
    forall r0: nat, f0: nat | r0 < r
      ensures HitAt(policies, fragments, p, r0, f0).None?
    {
      assert InFragments(fragments, policy.rules[r0]).None?;
      var _ := FindMapFirst(fragments, fragment => HitIn(policy.rules[r0], fragment));
    }
  }

  /**
   * Classification returns the first hit in the order policy, rule, fragment, with the identity of its policy, and
   * nothing exactly when no rule of any policy matches any fragment.
   */
  lemma ClassifyFirst(policies: seq<Policy>, fragments: seq<Fragment>)
    ensures ClassifyFragments(policies, fragments).None? <==>
              forall p: nat, q: nat, f: nat :: HitAt(policies, fragments, p, q, f).None?
    ensures ClassifyFragments(policies, fragments).Some? ==>
              exists p: nat, q: nat, f: nat ::
                IsFirst(policies, fragments, p, q, f) &&
                ClassifyFragments(policies, fragments) ==
                  Some((policies[p].identity, HitAt(policies, fragments, p, q, f).value))
  {
    hide InPolicy, HitAt;
    var inOne := (policy: Policy) =>
      var hit := InPolicy(fragments, policy);
      if hit.Some? then Some((policy.identity, hit.value)) else None;
    assert ClassifyFragments(policies, fragments) == FindMap(policies, inOne);
    var k := FindMapFirst(policies, inOne);
    forall p: nat | p < |policies|
      ensures inOne(policies[p]).None? <==> forall r: nat, f: nat :: HitAt(policies, fragments, p, r, f).None?
    {
      NoHitInPolicy(policies, fragments, p);
    }
    NoHitOutside(policies, fragments);
    if ClassifyFragments(policies, fragments).Some? {
      var r, f := FirstInPolicy(policies, fragments, k);
      assert inOne(policies[k]) == Some((policies[k].identity, HitAt(policies, fragments, k, r, f).value));
      forall p0: nat, r0: nat, f0: nat | Before(p0, r0, f0, k, r, f)
        ensures HitAt(policies, fragments, p0, r0, f0).None?
      {
        if p0 < k {
          assert inOne(policies[p0]).None?;
        }
      }
      assert IsFirst(policies, fragments, k, r, f);
    } else {
      forall p: nat, r: nat, f: nat
        ensures HitAt(policies, fragments, p, r, f).None?
      {
        if p < |policies| {
          assert inOne(policies[p]).None?;
        }
      }
    }
  }

  lemma NoHitOutside(policies: seq<Policy>, fragments: seq<Fragment>)
    ensures forall p: nat, r: nat, f: nat | p >= |policies| :: HitAt(policies, fragments, p, r, f).None?
  {
  }

  /** A fragment sits at its stated offset in a message. */
  predicate SitsIn(fragment: Fragment, message: string) {
    && fragment.startChar + |fragment.text| <= |message|
    && message[fragment.startChar..fragment.startChar + |fragment.text|] == fragment.text
  }

  /**
   * The reported range cuts exactly the matched text out of the original message, and lies within the fragment: no
   * match crosses from one fragment into another, and converting byte offsets to character indices is exact.
   */
  lemma RangeIsMatch(rule: Rule, fragment: Fragment, message: string)
    requires SitsIn(fragment, message) && |message| <= USIZE_MAX && HitIn(rule, fragment).Some?
    ensures var hit := HitIn(rule, fragment).value;
            && fragment.startChar <= hit.start <= hit.end <= fragment.startChar + |fragment.text|
            && message[hit.start..hit.end] == hit.matchedText
            && hit.category == rule.category
            && rule.regex(fragment.text) ==
               Some(ByteRange(Utf8Len(fragment.text[..hit.start - fragment.startChar]),
                 Utf8Len(fragment.text[..hit.end - fragment.startChar])))
  {
    hide Utf8Len, CharsBefore;
    var text, range, s := fragment.text, rule.regex(fragment.text).value, fragment.startChar;
    var i, j :| 0 <= i <= j <= |text| && range == ByteRange(Utf8Len(text[..i]), Utf8Len(text[..j]));
    CharsBeforePrefix(text, i);
    CharsBeforePrefix(text, j);
    SliceOfSlice(message, s, s + |text|, i, j);
  }

  /** Every hit of a classification cuts its matched text out of the message. */
  lemma ClassifiedRange(policies: seq<Policy>, fragments: seq<Fragment>, message: string)
    requires |message| <= USIZE_MAX && forall fragment | fragment in fragments :: SitsIn(fragment, message)
    requires ClassifyFragments(policies, fragments).Some?
    ensures var hit := ClassifyFragments(policies, fragments).value.1;
            hit.start <= hit.end <= |message| && message[hit.start..hit.end] == hit.matchedText
  {
    hide ClassifyFragments, HitIn, SitsIn;
    ClassifyFirst(policies, fragments);
    var p: nat, r: nat, f: nat :| IsFirst(policies, fragments, p, r, f) &&
      ClassifyFragments(policies, fragments) == Some((policies[p].identity, HitAt(policies, fragments, p, r, f).value));
    RangeIsMatch(policies[p].rules[r], fragments[f], message);
    WithinMessage(fragments[f], message);
  }

  lemma WithinMessage(fragment: Fragment, message: string)
    requires SitsIn(fragment, message)
    ensures fragment.startChar + |fragment.text| <= |message|
  {
  }

  /** One whole message: the first rule, over all policies in order, that matches the message, with its exact range. */
  lemma ClassifyWhole(policies: seq<Policy>, text: string)
    requires |text| <= USIZE_MAX && Classify(policies, text).Some?
    ensures exists p: nat, r: nat | p < |policies| && r < |policies[p].rules| ::
              var (identity, hit) := Classify(policies, text).value;
              && identity == policies[p].identity && hit.category == policies[p].rules[r].category
              && hit.start <= hit.end <= |text| && hit.matchedText == text[hit.start..hit.end]
              && policies[p].rules[r].regex(text) ==
                Some(ByteRange(Utf8Len(text[..hit.start]), Utf8Len(text[..hit.end])))
              && (forall r0 | 0 <= r0 < r :: policies[p].rules[r0].regex(text).None?)
              && (forall p0, r0 | 0 <= p0 < p && 0 <= r0 < |policies[p0].rules| ::
                policies[p0].rules[r0].regex(text).None?)
  {
    hide ClassifyFragments, Utf8Len, Slice, OnBoundaries, CharsBefore;
    var fragments := [Fragment(0, text)];
    assert text[0..|text|] == text;
    ClassifyFirst(policies, fragments);
    var p: nat, r: nat, f: nat :| IsFirst(policies, fragments, p, r, f) &&
      ClassifyFragments(policies, fragments) == Some((policies[p].identity, HitAt(policies, fragments, p, r, f).value));
    RangeIsMatch(policies[p].rules[r], fragments[0], text);
    forall r0: nat | r0 < r
      ensures policies[p].rules[r0].regex(text).None?
    {
      assert Before(p, r0, 0, p, r, f);
      assert HitAt(policies, fragments, p, r0, 0).None?;
    }
    forall p0: nat, r0: nat | p0 < p && r0 < |policies[p0].rules|
      ensures policies[p0].rules[r0].regex(text).None?
    {
      assert Before(p0, r0, 0, p, r, f);
      assert HitAt(policies, fragments, p0, r0, 0).None?;
    }
  }

  // ----- compilation -----

  datatype CategorySpec = CategorySpec(name: string, patterns: seq<string>)

  datatype PolicySpec = PolicySpec(schemaVersion: nat, name: string, version: string, categories: seq<CategorySpec>)

  const CORRECTION_POLICY_SCHEMA_VERSION: nat := 1

  datatype Fault =
    | BlankCategoryName | DuplicateCategory | NoPatterns
    | BlankPattern | InvalidPattern | PatternMatchesEmpty
    | InvalidCombination | CombinationMatchesEmpty

  datatype CompileError = UnsupportedSchema | BlankPolicyName | BlankPolicyVersion | NoCategories
    | InCategory(index: nat, fault: Fault)

  /** `Regex::new`. */
  type Engine = string -> Option<Regex>

  /** One case-insensitive alternation of all patterns. */
  function Combined(patterns: seq<string>): string {
    "(?i)" + JoinWith(patterns, "|")
  }

  function PatternFault(u: Unicode, engine: Engine, pattern: string): Option<Fault> {
    if Trim(u, pattern) == [] then Some(BlankPattern)
    else
      match engine(pattern)
      case None => Some(InvalidPattern)
      case Some(regex) => if regex("").Some? then Some(PatternMatchesEmpty) else None
  }

  function CombinationFault(engine: Engine, patterns: seq<string>): Option<Fault> {
    match engine(Combined(patterns))
    case None => Some(InvalidCombination)
    case Some(regex) => if regex("").Some? then Some(CombinationMatchesEmpty) else None
  }

  /** A category of its own: named, with patterns that are each fine and fine together. */
  predicate SoundCategory(u: Unicode, engine: Engine, category: CategorySpec) {
    && Trim(u, category.name) != []
    && category.patterns != []
    && (forall i | 0 <= i < |category.patterns| :: PatternFault(u, engine, category.patterns[i]).None?)
    && CombinationFault(engine, category.patterns).None?
  }

  predicate SoundCategories(u: Unicode, engine: Engine, categories: seq<CategorySpec>) {
    && (forall i | 0 <= i < |categories| :: SoundCategory(u, engine, categories[i]))
    && forall i, j | 0 <= i < j < |categories| :: categories[i].name != categories[j].name
  }

  predicate SoundPolicy(u: Unicode, engine: Engine, spec: PolicySpec) {
    && spec.schemaVersion == CORRECTION_POLICY_SCHEMA_VERSION
    && Trim(u, spec.name) != [] && Trim(u, spec.version) != []
    && spec.categories != []
    && SoundCategories(u, engine, spec.categories)
  }

  /** What is wrong first with a category that follows others. */
  ghost predicate IsFault(u: Unicode, engine: Engine, categories: seq<CategorySpec>, index: nat, fault: Fault)
    requires index < |categories|
  {
    var category := categories[index];
    if Trim(u, category.name) == [] then fault.BlankCategoryName?
    else if exists j | 0 <= j < index :: categories[j].name == category.name then fault.DuplicateCategory?
    else if category.patterns == [] then fault.NoPatterns?
    else if exists k | 0 <= k < |category.patterns| :: PatternFault(u, engine, category.patterns[k]).Some? then
      exists k | 0 <= k < |category.patterns| ::
        PatternFault(u, engine, category.patterns[k]) == Some(fault) &&
        forall m | 0 <= m < k :: PatternFault(u, engine, category.patterns[m]).None?
    else CombinationFault(engine, category.patterns) == Some(fault)
  }

  /** The first faulty pattern, if any. */
  method CheckPatterns(u: Unicode, engine: Engine, patterns: seq<string>) returns (fault: Option<Fault>)
    ensures fault.None? <==> forall i | 0 <= i < |patterns| :: PatternFault(u, engine, patterns[i]).None?
    ensures fault.Some? ==> exists k | 0 <= k < |patterns| ::
              PatternFault(u, engine, patterns[k]) == fault && forall m | 0 <= m < k ::
                PatternFault(u, engine, patterns[m]).None?
  {
    hide PatternFault;
    for i := 0 to |patterns|
      invariant forall m | 0 <= m < i :: PatternFault(u, engine, patterns[m]).None?
    {
      fault := PatternFault(u, engine, patterns[i]);
      if fault.Some? {
        return;
      }
    }
    fault := None;
  }

  /** One category after those whose names were seen. */
  method CompileCategory(u: Unicode, engine: Engine, categories: seq<CategorySpec>, index: nat, seen: set<string>)
    returns (r: Result<Rule, Fault>)
    requires index < |categories|
    requires forall name :: name in seen <==> exists j | 0 <= j < index :: categories[j].name == name
    ensures r.Ok? <==> SoundCategory(u, engine, categories[index]) && categories[index].name !in seen
    ensures r.Ok? ==>
              && r.value.category == categories[index].name
              && engine(Combined(categories[index].patterns)) == Some(r.value.regex)
    ensures r.Err? ==> IsFault(u, engine, categories, index, r.error)
  {
    hide Trim, PatternFault, Combined;
    var category := categories[index];
    if Trim(u, category.name) == [] {
      return Err(BlankCategoryName);
    }
    if category.name in seen {
      return Err(DuplicateCategory);
    }
    if category.patterns == [] {
      return Err(NoPatterns);
    }
    var fault := CheckPatterns(u, engine, category.patterns);
    if fault.Some? {
      return Err(fault.value);
    }
    var regex := engine(Combined(category.patterns));
    if regex.None? {
      return Err(InvalidCombination);
    }
    if regex.value("").Some? {
      return Err(CombinationMatchesEmpty);
    }
    r := Ok(Rule(category.name, regex.value));
  }

  /**
   * A document compiles exactly when it is sound; the rules are then one for each category, in the order declared,
   * which is the order of evaluation.  Otherwise the error is the first of an unknown schema, a blank name, a blank
   * version and no categories that applies, or else the first fault of the first faulty category.
   */
  method Compile(u: Unicode, engine: Engine, spec: PolicySpec, source: Source, digest: string)
    returns (r: Result<Policy, CompileError>)
    ensures r.Ok? <==> SoundPolicy(u, engine, spec)
    ensures r.Ok? ==>
              && r.value.identity == Identity(spec.name, spec.version, digest, source)
              && r.value.categoryCount == |r.value.rules| == |spec.categories|
              && forall i | 0 <= i < |spec.categories| ::
                   && r.value.rules[i].category == spec.categories[i].name
                   && engine(Combined(spec.categories[i].patterns)) == Some(r.value.rules[i].regex)
    ensures r == Err(UnsupportedSchema) <==> spec.schemaVersion != CORRECTION_POLICY_SCHEMA_VERSION
    ensures r == Err(BlankPolicyName) <==>
              spec.schemaVersion == CORRECTION_POLICY_SCHEMA_VERSION && Trim(u, spec.name) == []
    ensures r == Err(BlankPolicyVersion) <==>
              spec.schemaVersion == CORRECTION_POLICY_SCHEMA_VERSION && Trim(u, spec.name) != []
                && Trim(u, spec.version) == []
    ensures r == Err(NoCategories) <==>
              && spec.schemaVersion == CORRECTION_POLICY_SCHEMA_VERSION
              && Trim(u, spec.name) != [] && Trim(u, spec.version) != []
              && spec.categories == []
    ensures r.Err? && r.error.InCategory? ==>
              && r.error.index < |spec.categories|
              && SoundCategories(u, engine, spec.categories[..r.error.index])
              && IsFault(u, engine, spec.categories, r.error.index, r.error.fault)
  {
    hide Trim, SoundCategory, Combined, IsFault;
    if spec.schemaVersion != CORRECTION_POLICY_SCHEMA_VERSION {
      return Err(UnsupportedSchema);
    }
    if Trim(u, spec.name) == [] {
      return Err(BlankPolicyName);
    }
    if Trim(u, spec.version) == [] {
      return Err(BlankPolicyVersion);
    }
    if spec.categories == [] {
      return Err(NoCategories);
    }
    var categories := spec.categories;
    var seen: set<string> := {};
    var rules: seq<Rule> := [];
    for i := 0 to |categories|
      invariant forall name :: name in seen <==> exists j | 0 <= j < i :: categories[j].name == name
      invariant forall j | 0 <= j < i :: SoundCategory(u, engine, categories[j])
      invariant forall j, k | 0 <= j < k < i :: categories[j].name != categories[k].name
      invariant |rules| == i
      invariant forall j | 0 <= j < i ::
                  rules[j].category == categories[j].name
                    && engine(Combined(categories[j].patterns)) == Some(rules[j].regex)
    {
      var rule := CompileCategory(u, engine, categories, i, seen);
      if rule.Err? {
        return Err(InCategory(i, rule.error));
      }
      seen := seen + {categories[i].name};
      rules := rules + [rule.value];
    }
    r := Ok(Policy(Identity(spec.name, spec.version, digest, source), rules, |categories|));
  }

  /** Patterns are combined case-insensitively, as alternatives in their order. */
  lemma CombinedExact(first: string, rest: seq<string>)
    ensures Combined([first]) == "(?i)" + first
    ensures rest != [] ==> Combined([first] + rest) == "(?i)" + first + "|" + Combined(rest)[4..]
  {
    assert ([first] + rest)[1..] == rest;
    assert Combined(rest)[4..] == JoinWith(rest, "|");
  }

  /** A pattern is fine when it is not blank, is an expression, and does not match the empty text. */
  lemma PatternFaultExact(u: Unicode, engine: Engine, pattern: string)
    ensures PatternFault(u, engine, pattern).None? <==>
              && (exists c | c in pattern :: !u.isWhitespace(c))
              && engine(pattern).Some? && engine(pattern).value("").None?
  {
    hide Trim;
    TrimEmpty(u, pattern);
  }

  /** A position beyond the largest index is reported as the largest index. */
  lemma RangeSaturates(rule: Rule, fragment: Fragment)
    requires HitIn(rule, fragment).Some? && fragment.startChar >= USIZE_MAX
    ensures HitIn(rule, fragment).value.start == HitIn(rule, fragment).value.end == 0xFFFF_FFFF_FFFF_FFFF
  {
  }

  predicate NamedBefore(categories: seq<CategorySpec>, index: nat)
    requires index < |categories|
  {
    exists j | 0 <= j < index :: categories[j].name == categories[index].name
  }

  predicate SomePatternFaulty(u: Unicode, engine: Engine, patterns: seq<string>) {
    exists k | 0 <= k < |patterns| :: PatternFault(u, engine, patterns[k]).Some?
  }

  /** Which fault of a category is named: the first of these that applies. */
  lemma FirstFaultExact(u: Unicode, engine: Engine, categories: seq<CategorySpec>, index: nat, fault: Fault)
    requires index < |categories| && IsFault(u, engine, categories, index, fault)
    ensures fault.BlankCategoryName? <==> AllWhitespace(u, categories[index].name)
    ensures fault.DuplicateCategory? <==> !AllWhitespace(u, categories[index].name) && NamedBefore(categories, index)
    ensures fault.NoPatterns? <==>
              && !AllWhitespace(u, categories[index].name) && !NamedBefore(categories, index)
              && categories[index].patterns == []
    ensures fault in {BlankPattern, InvalidPattern, PatternMatchesEmpty} <==>
              && !AllWhitespace(u, categories[index].name) && !NamedBefore(categories, index)
              && SomePatternFaulty(u, engine, categories[index].patterns)
    ensures fault.InvalidCombination? ==> engine(Combined(categories[index].patterns)).None?
    ensures fault.CombinationMatchesEmpty? ==>
              var whole := engine(Combined(categories[index].patterns)); whole.Some? && whole.value("").Some?
  {
    hide Trim, Combined;
    TrimEmpty(u, categories[index].name);
  }
}
