/** One release, spelled for Python packaging and for Cargo (`release_versions.py`). */
module Releases {
  import opened Wrappers
  import opened Text
  import opened Decimals
  import opened Order

  datatype Phase = Alpha | Beta | Candidate

  /** The groups of the version pattern, as text. */
  datatype Groups = Groups(major: string, minor: string, patch: string, pre: Option<(Phase, string)>)

  function PythonPhase(phase: Phase): string {
    match phase case Alpha => "a" case Beta => "b" case Candidate => "rc"
  }

  function CargoPhase(phase: Phase): string {
    match phase case Alpha => "alpha" case Beta => "beta" case Candidate => "rc"
  }

  // ----- the Python spelling -----

  function DigitsPrefix(s: string): (r: string)
    ensures r <= s && AllDigits(r)
  {
    if s != [] && IsDigit(s[0]) then [s[0]] + DigitsPrefix(s[1..]) else []
  }

  function MatchPre(phase: Phase, number: string): Option<(Phase, string)> {
    if IsCanonical(number) then Some((phase, number)) else None
  }

  /** What follows the patch number: a phase and its number. */
  function MatchSuffix(suffix: string): Option<(Phase, string)> {
    if |suffix| >= 1 && suffix[0] == 'a' then MatchPre(Alpha, suffix[1..])
    else if |suffix| >= 1 && suffix[0] == 'b' then MatchPre(Beta, suffix[1..])
    else if |suffix| >= 2 && suffix[..2] == "rc" then MatchPre(Candidate, suffix[2..])
    else None
  }

  /** `PYTHON_RELEASE_VERSION.fullmatch`. */
  function FullMatch(s: string): Option<Groups> {
    var pieces := Split(s, '.');
    if |pieces| != 3 || !IsCanonical(pieces[0]) || !IsCanonical(pieces[1]) then None
    else
      var patch := DigitsPrefix(pieces[2]);
      var suffix := pieces[2][|patch|..];
      if !IsCanonical(patch) then None
      else if suffix == [] then Some(Groups(pieces[0], pieces[1], patch, None))
      else
        var pre := MatchSuffix(suffix);
        if pre.None? then None else Some(Groups(pieces[0], pieces[1], patch, pre))
  }

  predicate CanonicalGroups(g: Groups) {
    IsCanonical(g.major) && IsCanonical(g.minor) && IsCanonical(g.patch) && (g.pre.Some? ==> IsCanonical(g.pre.value.1))
  }

  function SuffixText(pre: Option<(Phase, string)>): string {
    match pre
    case None => []
    case Some(p) => PythonPhase(p.0) + p.1
  }

  function ReleaseText(g: Groups): string {
    JoinWith([g.major, g.minor, g.patch], ".")
  }

  function PythonText(g: Groups): string {
    JoinWith([g.major, g.minor, g.patch + SuffixText(g.pre)], ".")
  }

  lemma {:induction false} DigitsPrefixOf(digits: string, rest: string)
    requires AllDigits(digits) && (rest == [] || !IsDigit(rest[0]))
    ensures DigitsPrefix(digits + rest) == digits
  {
    if digits == [] {
      assert digits + rest == rest;
    } else {
      DigitsPrefixOf(digits[1..], rest);
      assert (digits + rest)[1..] == digits[1..] + rest;
    }
  }

  lemma SuffixRoundTrip(p: (Phase, string))
    requires IsCanonical(p.1)
    ensures var text := SuffixText(Some(p));
            MatchSuffix(text) == Some(p) && text != [] && !IsDigit(text[0]) && '.' !in text
  {
    var text := SuffixText(Some(p));
    assert text == PythonPhase(p.0) + p.1;
    if p.0.Candidate? {
      assert text[2..] == p.1 && text[..2] == "rc";
    } else {
      assert text[1..] == p.1;
    }
  }

  lemma MatchSuffixText(suffix: string)
    requires MatchSuffix(suffix).Some?
    ensures SuffixText(MatchSuffix(suffix)) == suffix && IsCanonical(MatchSuffix(suffix).value.1)
  {
    if suffix[0] == 'a' || suffix[0] == 'b' {
      assert suffix == [suffix[0]] + suffix[1..];
    } else {
      assert suffix == suffix[..2] + suffix[2..];
    }
  }

  /** The pattern accepts exactly the canonical spellings, and its groups spell the version back. */
  lemma MatchExact(s: string)
    ensures FullMatch(s).Some? ==> CanonicalGroups(FullMatch(s).value) && PythonText(FullMatch(s).value) == s
  {
    hide PiecesFrom, FromDecimal, MatchSuffix;
    if FullMatch(s).Some? {
      var pieces := Split(s, '.');
      JoinSplit(s, '.', []);
      var patch := DigitsPrefix(pieces[2]);
      var suffix := pieces[2][|patch|..];
      assert pieces[2] == patch + suffix;
      if suffix != [] {
        MatchSuffixText(suffix);
      }
      assert [] + s == s;
      assert pieces == [pieces[0], pieces[1], pieces[2]];
    }
  }

  lemma MatchComplete(g: Groups)
    requires CanonicalGroups(g)
    ensures FullMatch(PythonText(g)) == Some(g)
  {
    hide PiecesFrom, JoinWith, MatchSuffix;
    var suffix := SuffixText(g.pre);
    if g.pre.Some? {
      SuffixRoundTrip(g.pre.value);
    }
    var pieces := [g.major, g.minor, g.patch + suffix];
    SplitJoinWith(pieces, '.');
    DigitsPrefixOf(g.patch, suffix);
    assert pieces[2][|g.patch|..] == suffix;
  }

  // ----- the Cargo spelling -----

  function CargoText(g: Groups): string {
    match g.pre
    case None => ReleaseText(g)
    case Some(p) => ReleaseText(g) + "-" + CargoPhase(p.0) + "." + p.1
  }

  /** `cargo_version_for_python`. */
  function CargoVersionForPython(s: string): Option<string> {
    match FullMatch(s)
    case None => None
    case Some(g) => Some(CargoText(g))
  }

  datatype Key = Key(major: nat, minor: nat, patch: nat, phase: nat, number: nat)

  function PhaseOrder(pre: Option<(Phase, string)>): nat {
    match pre
    case None => 3
    case Some((Alpha, _)) => 0
    case Some((Beta, _)) => 1
    case Some((Candidate, _)) => 2
  }

  function KeyOf(g: Groups): Key {
    Key(FromDecimal(g.major), FromDecimal(g.minor), FromDecimal(g.patch), PhaseOrder(g.pre),
        if g.pre.Some? then FromDecimal(g.pre.value.1) else 0)
  }

  /** `release_sort_key`. */
  function ReleaseSortKey(s: string): Option<Key> {
    match FullMatch(s)
    case None => None
    case Some(g) => Some(KeyOf(g))
  }

  predicate KeyLess(a: Key, b: Key) {
    if a.major != b.major then a.major < b.major
    else if a.minor != b.minor then a.minor < b.minor
    else if a.patch != b.patch then a.patch < b.patch
    else if a.phase != b.phase then a.phase < b.phase
    else a.number < b.number
  }

  // ----- SemVer 2.0.0 -----

  datatype SemVer = SemVer(major: nat, minor: nat, patch: nat, pre: seq<string>)

  function IsDash(): char -> bool {
    (c: char) => c == '-'
  }

  /** Core and pre-release identifiers of a version without build metadata. */
  function ParseSemVer(s: string): Option<SemVer> {
    var core := Before(s, IsDash());
    var pieces := Split(core, '.');
    if |pieces| != 3 then None
    else
      Some(SemVer(FromDecimal(pieces[0]), FromDecimal(pieces[1]), FromDecimal(pieces[2]),
                  if |core| < |s| then Split(s[|core| + 1..], '.') else []))
  }

  predicate IsNumeric(id: string) {
    id != [] && AllDigits(id)
  }

  /** Section 11.4.1 to 11.4.3: numbers by value, other identifiers by characters, numbers before others. */
  predicate IdentifierPrecedes(a: string, b: string) {
    if IsNumeric(a) && IsNumeric(b) then FromDecimal(a) < FromDecimal(b)
    else if IsNumeric(a) || IsNumeric(b) then IsNumeric(a)
    else LexLess(a, b)
  }

  /** Section 11.4: the first differing identifier decides, and of a list and its beginning the beginning is first. */
  predicate IdentifiersPrecede(a: seq<string>, b: seq<string>) {
    if a == [] || b == [] then a == [] && b != []
    else if a[0] != b[0] then IdentifierPrecedes(a[0], b[0])
    else IdentifiersPrecede(a[1..], b[1..])
  }

  /** Section 11: by major, minor and patch, and a pre-release before its release. */
  predicate Precedes(a: SemVer, b: SemVer) {
    if a.major != b.major then a.major < b.major
    else if a.minor != b.minor then a.minor < b.minor
    else if a.patch != b.patch then a.patch < b.patch
    else if a.pre == [] || b.pre == [] then a.pre != [] && b.pre == []
    else IdentifiersPrecede(a.pre, b.pre)
  }

  lemma NoSeparators(digits: string)
    requires AllDigits(digits)
    ensures '.' !in digits && '-' !in digits
  {
  }

  lemma {:induction false} BeforeDash(core: string, rest: string)
    requires '-' !in core && (rest == [] || rest[0] == '-')
    ensures Before(core + rest, IsDash()) == core
  {
    if core == [] {
      assert core + rest == rest;
    } else {
      BeforeDash(core[1..], rest);
      assert (core + rest)[1..] == core[1..] + rest;
    }
  }

  lemma JoinTwo(a: string, b: string)
    ensures JoinWith([a, b], ".") == a + "." + b
  {
    assert [a, b][1..] == [b];
  }

  lemma JoinThree(a: string, b: string, c: string)
    ensures JoinWith([a, b, c], ".") == a + "." + (b + "." + c)
  {
    JoinTwo(b, c);
    assert [a, b, c][1..] == [b, c];
  }

  lemma ReleaseHasNoDash(g: Groups)
    requires CanonicalGroups(g)
    ensures '-' !in ReleaseText(g)
    ensures Split(ReleaseText(g), '.') == [g.major, g.minor, g.patch]
  {
    hide PiecesFrom;
    NoSeparators(g.major);
    NoSeparators(g.minor);
    NoSeparators(g.patch);
    SplitJoinWith([g.major, g.minor, g.patch], '.');
    JoinThree(g.major, g.minor, g.patch);
    assert ReleaseText(g) == g.major + "." + (g.minor + "." + g.patch);
  }

  function Identifiers(g: Groups): seq<string> {
    match g.pre
    case None => []
    case Some(p) => [CargoPhase(p.0), p.1]
  }

  /** The Cargo spelling is a SemVer version with the same numbers and, for a pre-release, two identifiers. */
  lemma CargoIsSemVer(g: Groups)
    requires CanonicalGroups(g)
    ensures ParseSemVer(CargoText(g)) ==
            Some(SemVer(FromDecimal(g.major), FromDecimal(g.minor), FromDecimal(g.patch), Identifiers(g)))
  {
    hide PiecesFrom, FromDecimal, ReleaseText;
    ReleaseHasNoDash(g);
    var core := ReleaseText(g);
    if g.pre.None? {
      BeforeDash(core, []);
      assert core + [] == core;
    } else {
      var ids := Identifiers(g);
      var tail := JoinWith(ids, ".");
      JoinTwo(ids[0], ids[1]);
      assert tail == CargoPhase(g.pre.value.0) + "." + g.pre.value.1;
      assert CargoText(g) == core + ("-" + tail);
      BeforeDash(core, "-" + tail);
      assert CargoText(g)[|core| + 1..] == tail;
      NoSeparators(g.pre.value.1);
      SplitJoinWith(ids, '.');
    }
  }

  lemma CanonicalInjective(a: string, b: string)
    requires IsCanonical(a) && IsCanonical(b)
    ensures FromDecimal(a) == FromDecimal(b) <==> a == b
  {
    CanonicalRoundTrip(a);
    CanonicalRoundTrip(b);
  }

  lemma PhasesInOrder(a: Phase, b: Phase)
    ensures IdentifierPrecedes(CargoPhase(a), CargoPhase(b)) <==> PhaseOrder(Some((a, ""))) < PhaseOrder(Some((b, "")))
    ensures CargoPhase(a) == CargoPhase(b) <==> a == b
  {
    var first := CargoPhase(a)[0];
    assert first in {'a', 'b', 'r'};
    assert CargoPhase(a)[0] == CargoPhase(b)[0] <==> a == b;
    LexConnected(CargoPhase(a), CargoPhase(b));
  }

  lemma OneIdentifier(a: string, b: string)
    ensures IdentifiersPrecede([a], [b]) <==> a != b && IdentifierPrecedes(a, b)
  {
    assert [a][1..] == [] && [b][1..] == [];
  }

  lemma PrePrecedes(a: (Phase, string), b: (Phase, string))
    requires IsCanonical(a.1) && IsCanonical(b.1)
    ensures IdentifiersPrecede([CargoPhase(a.0), a.1], [CargoPhase(b.0), b.1]) <==>
            PhaseOrder(Some(a)) < PhaseOrder(Some(b))
              || (PhaseOrder(Some(a)) == PhaseOrder(Some(b)) && FromDecimal(a.1) < FromDecimal(b.1))
  {
    hide FromDecimal, CargoPhase, IdentifierPrecedes;
    var x, y := [CargoPhase(a.0), a.1], [CargoPhase(b.0), b.1];
    PhasesInOrder(a.0, b.0);
    CanonicalInjective(a.1, b.1);
    assert x[1..] == [a.1] && y[1..] == [b.1];
    OneIdentifier(a.1, b.1);
    NumbersPrecede(a.1, b.1);
    assert PhaseOrder(Some(a)) == PhaseOrder(Some((a.0, ""))) && PhaseOrder(Some(b)) == PhaseOrder(Some((b.0, "")));
    if a.0 == b.0 {
      assert IdentifiersPrecede(x, y) == IdentifiersPrecede(x[1..], y[1..]);
    } else {
      assert x[0] != y[0] && IdentifiersPrecede(x, y) == IdentifierPrecedes(x[0], y[0]);
    }
  }

  lemma NumbersPrecede(a: string, b: string)
    requires IsCanonical(a) && IsCanonical(b)
    ensures IdentifierPrecedes(a, b) <==> FromDecimal(a) < FromDecimal(b)
  {
  }

  /**
   * For all accepted Python versions the sort keys are ordered exactly as SemVer orders the Cargo spellings.
   */
  lemma OrderPreserved(p: string, q: string)
    requires FullMatch(p).Some? && FullMatch(q).Some?
    ensures var cp, cq := ParseSemVer(CargoVersionForPython(p).value), ParseSemVer(CargoVersionForPython(q).value);
            && cp.Some? && cq.Some?
            && (KeyLess(ReleaseSortKey(p).value, ReleaseSortKey(q).value) <==> Precedes(cp.value, cq.value))
  {
    hide FullMatch, FromDecimal, ParseSemVer, CargoText, IdentifiersPrecede, IsCanonical, CargoPhase;
    var a, b := FullMatch(p).value, FullMatch(q).value;
    MatchExact(p);
    MatchExact(q);
    CargoIsSemVer(a);
    CargoIsSemVer(b);
    if a.pre.Some? && b.pre.Some? {
      PrePrecedes(a.pre.value, b.pre.value);
    }
  }

  /** Different versions have different sort keys and different Cargo spellings. */
  lemma MappingInjective(p: string, q: string)
    requires FullMatch(p).Some? && FullMatch(q).Some?
    ensures ReleaseSortKey(p) == ReleaseSortKey(q) <==> p == q
    ensures CargoVersionForPython(p) == CargoVersionForPython(q) <==> p == q
  {
    hide FullMatch, FromDecimal, ParseSemVer, CargoText, IsCanonical, CargoPhase;
    var a, b := FullMatch(p).value, FullMatch(q).value;
    MatchExact(p);
    MatchExact(q);
    CargoIsSemVer(a);
    CargoIsSemVer(b);
    CanonicalInjective(a.major, b.major);
    CanonicalInjective(a.minor, b.minor);
    CanonicalInjective(a.patch, b.patch);
    if a.pre.Some? && b.pre.Some? {
      CanonicalInjective(a.pre.value.1, b.pre.value.1);
      PhasesInOrder(a.pre.value.0, b.pre.value.0);
      if CargoVersionForPython(p) == CargoVersionForPython(q) {
        assert Identifiers(a)[0] == Identifiers(b)[0] && Identifiers(a)[1] == Identifiers(b)[1];
      }
    } else if a.pre.Some? || b.pre.Some? {
      assert |Identifiers(a)| != |Identifiers(b)|;
    }
  }

  // ----- the spellings written out -----

  /**
   * A release and its three kinds of pre-release: how Python spells them, how Cargo does, and how they sort.
   */
  lemma SpellingExact(g: Groups)
    requires CanonicalGroups(g)
    ensures var release := g.major + "." + (g.minor + "." + g.patch);
            var (python, cargo, rank) := match g.pre
                                         case None => ("", "", 3)
                                         case Some((Alpha, n)) => ("a" + n, "-alpha." + n, 0)
                                         case Some((Beta, n)) => ("b" + n, "-beta." + n, 1)
                                         case Some((Candidate, n)) => ("rc" + n, "-rc." + n, 2);
            && FullMatch(release + python) == Some(g)
            && CargoVersionForPython(release + python) == Some(release + cargo)
            && ReleaseSortKey(release + python) ==
               Some(Key(FromDecimal(g.major), FromDecimal(g.minor), FromDecimal(g.patch), rank,
                        if g.pre.Some? then FromDecimal(g.pre.value.1) else 0))
  {
    MatchComplete(g);
    hide FullMatch, IsCanonical, JoinWith, FromDecimal, PythonText, CargoText;
    PythonSpelling(g);
    CargoSpelling(g);
  }

  lemma PythonSpelling(g: Groups)
    ensures PythonText(g) == g.major + "." + (g.minor + "." + g.patch) + SuffixText(g.pre)
  {
    JoinThree(g.major, g.minor, g.patch + SuffixText(g.pre));
    hide JoinWith, SuffixText;
    var release, suffix := g.major + "." + (g.minor + "." + g.patch), SuffixText(g.pre);
    assert g.major + "." + (g.minor + "." + (g.patch + suffix)) == release + suffix;
  }

  lemma CargoSpelling(g: Groups)
    ensures ReleaseText(g) == g.major + "." + (g.minor + "." + g.patch)
    ensures CargoText(g) == ReleaseText(g) + match g.pre
                                             case None => ""
                                             case Some((Alpha, n)) => "-alpha." + n
                                             case Some((Beta, n)) => "-beta." + n
                                             case Some((Candidate, n)) => "-rc." + n
  {
    JoinThree(g.major, g.minor, g.patch);
    hide JoinWith;
    if g.pre.Some? {
      DashText(ReleaseText(g), CargoPhase(g.pre.value.0), g.pre.value.1);
      assert "-" + "alpha" + "." == "-alpha." && "-" + "beta" + "." == "-beta." && "-" + "rc" + "." == "-rc.";
    }
  }

  lemma DashText(release: string, phase: string, number: string)
    ensures release + "-" + phase + "." + number == release + (("-" + phase + ".") + number)
  {
  }
}
