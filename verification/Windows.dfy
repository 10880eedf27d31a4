/**
 * Counting the windows of a document, width by width or token by token.  What a window contributes is a
 * parameter: `at(n, width)` is the phrase of the window of that width which ends at token `n`, if it has one.
 */
module Windows {
  import opened Wrappers

  type PhraseAt = (nat, nat) -> Option<string>

  /** How often each phrase occurs. */
  type Delta = map<string, nat>

  predicate Positive(widths: seq<nat>) {
    forall i | 0 <= i < |widths| :: widths[i] > 0
  }

  function Occurs(counts: Delta, phrase: string): nat {
    if phrase in counts then counts[phrase] else 0
  }

  /** Counts with one more occurrence of a phrase. */
  function Bump(counts: Delta, phrase: string): Delta {
    counts[phrase := Occurs(counts, phrase) + 1]
  }

  function Visit(before: Delta, phrase: Option<string>): Delta {
    match phrase
    case None => before
    case Some(p) => Bump(before, p)
  }

  /** Count the windows of one width among the first `n` tokens. */
  function Slide(at: PhraseAt, width: nat, n: nat, before: Delta): Delta
    requires 0 < width
  {
    if n < width then before
    else Visit(Slide(at, width, n - 1, before), at(n, width))
  }

  /** Width after width, as the batch loop visits windows. */
  function WidthMajor(at: PhraseAt, widths: seq<nat>, count: nat, n: nat): Delta
    requires Positive(widths) && count <= |widths|
  {
    if count == 0 then map[]
    else Slide(at, widths[count - 1], n, WidthMajor(at, widths, count - 1, n))
  }

  /** Count the windows that end at token `n`, for the first `count` widths. */
  function Ending(at: PhraseAt, widths: seq<nat>, count: nat, n: nat, before: Delta): Delta
    requires Positive(widths) && count <= |widths|
  {
    if count == 0 then before
    else
      var width := widths[count - 1];
      var narrower := Ending(at, widths, count - 1, n, before);
      if n < width then narrower else Visit(narrower, at(n, width))
  }

  /** Token after token, as the streaming loop visits windows. */
  function TokenMajor(at: PhraseAt, widths: seq<nat>, n: nat): Delta
    requires Positive(widths)
  {
    if n == 0 then map[]
    else Ending(at, widths, |widths|, n, TokenMajor(at, widths, n - 1))
  }

  function Hit(found: Option<string>, phrase: string): nat {
    if found == Some(phrase) then 1 else 0
  }

  /** How many windows of one width among the first `n` tokens have this phrase. */
  function WindowCount(at: PhraseAt, width: nat, n: nat, phrase: string): nat
    requires 0 < width
  {
    if n < width then 0
    else WindowCount(at, width, n - 1, phrase) + Hit(at(n, width), phrase)
  }

  /** How many windows of the first `count` widths have this phrase. */
  function WidthCount(at: PhraseAt, widths: seq<nat>, count: nat, n: nat, phrase: string): nat
    requires Positive(widths) && count <= |widths|
  {
    if count == 0 then 0
    else
      WidthCount(at, widths, count - 1, n, phrase) + WindowCount(at, widths[count - 1], n, phrase)
  }

  /** How many of the windows that end at token `n` have this phrase. */
  function EndingCount(at: PhraseAt, widths: seq<nat>, count: nat, n: nat, phrase: string): nat
    requires Positive(widths) && count <= |widths|
  {
    if count == 0 then 0
    else
      var width := widths[count - 1];
      EndingCount(at, widths, count - 1, n, phrase) +
      if n < width then 0 else Hit(at(n, width), phrase)
  }

  lemma {:induction false} SlideOccurs(at: PhraseAt, width: nat, n: nat, before: Delta, phrase: string)
    requires 0 < width
    ensures Occurs(Slide(at, width, n, before), phrase) ==
            Occurs(before, phrase) + WindowCount(at, width, n, phrase)
  {
    if n >= width {
      SlideOccurs(at, width, n - 1, before, phrase);
    }
  }

  lemma {:induction false} EndingOccurs(at: PhraseAt, widths: seq<nat>, count: nat, n: nat, before: Delta,
      phrase: string)
    requires Positive(widths) && count <= |widths|
    ensures Occurs(Ending(at, widths, count, n, before), phrase) ==
            Occurs(before, phrase) + EndingCount(at, widths, count, n, phrase)
  {
    if count > 0 {
      EndingOccurs(at, widths, count - 1, n, before, phrase);
    }
  }

  lemma {:induction false} WidthMajorOccurs(at: PhraseAt, widths: seq<nat>, count: nat, n: nat, phrase: string)
    requires Positive(widths) && count <= |widths|
    ensures Occurs(WidthMajor(at, widths, count, n), phrase) ==
            WidthCount(at, widths, count, n, phrase)
  {
    if count > 0 {
      WidthMajorOccurs(at, widths, count - 1, n, phrase);
      SlideOccurs(at, widths[count - 1], n, WidthMajor(at, widths, count - 1, n), phrase);
    }
  }

  /** One more token adds exactly the windows that end at it. */
  lemma {:induction false} WidthCountStep(at: PhraseAt, widths: seq<nat>, count: nat, n: nat, phrase: string)
    requires Positive(widths) && count <= |widths| && 0 < n
    ensures WidthCount(at, widths, count, n, phrase) ==
            WidthCount(at, widths, count, n - 1, phrase) + EndingCount(at, widths, count, n, phrase)
  {
    if count > 0 {
      WidthCountStep(at, widths, count - 1, n, phrase);
    }
  }

  lemma {:induction false} NoTokens(at: PhraseAt, widths: seq<nat>, count: nat, phrase: string)
    requires Positive(widths) && count <= |widths|
    ensures WidthCount(at, widths, count, 0, phrase) == 0
  {
    if count > 0 {
      NoTokens(at, widths, count - 1, phrase);
    }
  }

  lemma {:induction false} TokenMajorOccurs(at: PhraseAt, widths: seq<nat>, n: nat, phrase: string)
    requires Positive(widths)
    ensures Occurs(TokenMajor(at, widths, n), phrase) ==
            WidthCount(at, widths, |widths|, n, phrase)
  {
    if n == 0 {
      NoTokens(at, widths, |widths|, phrase);
    } else {
      TokenMajorOccurs(at, widths, n - 1, phrase);
      EndingOccurs(at, widths, |widths|, n, TokenMajor(at, widths, n - 1), phrase);
      WidthCountStep(at, widths, |widths|, n, phrase);
    }
  }

  /** Only phrases that occur are present. */
  predicate Occurring(counts: Delta) {
    forall p | p in counts :: counts[p] > 0
  }

  lemma {:induction false} SlideGrows(at: PhraseAt, width: nat, m: nat, n: nat, before: Delta)
    requires 0 < width && m <= n
    ensures before.Keys <= Slide(at, width, m, before).Keys <= Slide(at, width, n, before).Keys
    ensures Occurring(before) ==> Occurring(Slide(at, width, n, before))
    decreases n
  {
    if m < n {
      SlideGrows(at, width, m, n - 1, before);
    } else if n > 0 {
      SlideGrows(at, width, n - 1, n - 1, before);
    }
  }

  lemma {:induction false} WidthMajorGrows(at: PhraseAt, widths: seq<nat>, few: nat, many: nat, n: nat)
    requires Positive(widths) && few <= many <= |widths|
    ensures WidthMajor(at, widths, few, n).Keys <= WidthMajor(at, widths, many, n).Keys
    ensures Occurring(WidthMajor(at, widths, many, n))
    decreases many
  {
    if many > 0 {
      WidthMajorGrows(at, widths, if few < many then few else many - 1, many - 1, n);
      SlideGrows(at, widths[many - 1], 0, n, WidthMajor(at, widths, many - 1, n));
    }
  }

  lemma {:induction false} EndingGrows(at: PhraseAt, widths: seq<nat>, count: nat, n: nat, before: Delta)
    requires Positive(widths) && count <= |widths|
    ensures before.Keys <= Ending(at, widths, count, n, before).Keys
    ensures Occurring(before) ==> Occurring(Ending(at, widths, count, n, before))
  {
    if count > 0 {
      EndingGrows(at, widths, count - 1, n, before);
    }
  }

  lemma {:induction false} TokenMajorGrows(at: PhraseAt, widths: seq<nat>, m: nat, n: nat)
    requires Positive(widths) && m <= n
    ensures TokenMajor(at, widths, m).Keys <= TokenMajor(at, widths, n).Keys
    ensures Occurring(TokenMajor(at, widths, n))
    decreases n
  {
    if n > 0 {
      TokenMajorGrows(at, widths, if m < n then m else n - 1, n - 1);
      EndingGrows(at, widths, |widths|, n, TokenMajor(at, widths, n - 1));
    }
  }

  /** Token-major and width-major visiting count every phrase alike. */
  lemma VisitingOrders(at: PhraseAt, widths: seq<nat>, n: nat)
    requires Positive(widths)
    ensures TokenMajor(at, widths, n) == WidthMajor(at, widths, |widths|, n)
  {
    var a, b := TokenMajor(at, widths, n), WidthMajor(at, widths, |widths|, n);
    forall p: string
      ensures Occurs(a, p) == Occurs(b, p)
    {
      TokenMajorOccurs(at, widths, n, p);
      WidthMajorOccurs(at, widths, |widths|, n, p);
    }
    TokenMajorGrows(at, widths, n, n);
    WidthMajorGrows(at, widths, |widths|, |widths|, n);
    SameCounts(a, b);
  }

  lemma SameCounts(a: Delta, b: Delta)
    requires Occurring(a) && Occurring(b)
    requires forall p: string :: Occurs(a, p) == Occurs(b, p)
    ensures a == b
  {
    forall p: string
      ensures p in a <==> p in b
      ensures p in a && p in b ==> a[p] == b[p]
    {
      assert Occurs(a, p) == Occurs(b, p);
    }
  }

  /** Two documents whose windows agree up to token `n`. */
  ghost predicate Agree(a: PhraseAt, b: PhraseAt, n: nat) {
    forall i: nat, width: nat | i <= n :: a(i, width) == b(i, width)
  }

  /** Tokens that follow do not change what was visited before them. */
  lemma {:induction false} TokenMajorPrefix(a: PhraseAt, b: PhraseAt, widths: seq<nat>, n: nat)
    requires Positive(widths) && Agree(a, b, n)
    ensures TokenMajor(a, widths, n) == TokenMajor(b, widths, n)
  {
    if n > 0 {
      TokenMajorPrefix(a, b, widths, n - 1);
      EndingPrefix(a, b, widths, |widths|, n, TokenMajor(a, widths, n - 1));
    }
  }

  lemma {:induction false} EndingPrefix(a: PhraseAt, b: PhraseAt, widths: seq<nat>, count: nat, n: nat, before: Delta)
    requires Positive(widths) && Agree(a, b, n) && count <= |widths|
    ensures Ending(a, widths, count, n, before) == Ending(b, widths, count, n, before)
  {
    if count > 0 {
      EndingPrefix(a, b, widths, count - 1, n, before);
      assert a(n, widths[count - 1]) == b(n, widths[count - 1]);
    }
  }

  /** Tokens that follow only add phrases. */
  lemma TokenMajorExtends(a: PhraseAt, b: PhraseAt, widths: seq<nat>, m: nat, n: nat)
    requires Positive(widths) && m <= n && Agree(a, b, m)
    ensures |TokenMajor(a, widths, m)| <= |TokenMajor(b, widths, n)|
  {
    TokenMajorPrefix(a, b, widths, m);
    TokenMajorGrows(b, widths, m, n);
    FewerKeys(TokenMajor(a, widths, m), TokenMajor(b, widths, n));
  }

  lemma FewerKeys(a: Delta, b: Delta)
    requires a.Keys <= b.Keys
    ensures |a| <= |b|
  {
    assert b.Keys == a.Keys + (b.Keys - a.Keys);
    assert |a.Keys| <= |b.Keys|;
  }
}
