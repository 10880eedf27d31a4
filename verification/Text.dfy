/** Characters and text: the Unicode tables the sources consult, and the string operations built on them. */
module Text {

  /** The character predicates and the caseless fold that come from Unicode tables. */
  datatype CharTable = CharTable(
    isAlphanumeric: char -> bool,
    isAlphabetic: char -> bool,
    isNumeric: char -> bool,
    isWhitespace: char -> bool,
    fold: char -> string)

  /** What the proofs need of those tables, and nothing more. */
  ghost predicate IsUnicode(t: CharTable) {
    && !t.isAlphanumeric(' ')
    && !t.isAlphanumeric('\n')
    && t.isWhitespace(' ')
    && forall c, d | t.isAlphanumeric(c) && d in t.fold(c) :: !t.isWhitespace(d)
  }

  type Unicode = t: CharTable | IsUnicode(t)
    witness CharTable(c => 'a' <= c <= 'z', c => 'a' <= c <= 'z', c => false, c => c == ' ', c => [c])

  /** The image of a run of characters under a character-to-text map. */
  function MapChars(f: char -> string, s: string): string {
    if s == [] then [] else f(s[0]) + MapChars(f, s[1..])
  }

  /** Maximal runs of member characters, mapped through `f`; `current` is the run being collected. */
  function RunsFrom(member: char -> bool, f: char -> string, s: string, current: string): seq<string> {
    if s == [] then
      if current == [] then [] else [current]
    else if member(s[0]) then
      RunsFrom(member, f, s[1..], current + f(s[0]))
    else
      (if current == [] then [] else [current]) + RunsFrom(member, f, s[1..], [])
  }

  function Runs(member: char -> bool, f: char -> string, s: string): seq<string> {
    RunsFrom(member, f, s, [])
  }

  lemma {:induction false} RunsFromSplit(
    member: char -> bool, f: char -> string, a: string, c: char, b: string, current: string)
    requires !member(c)
    ensures RunsFrom(member, f, a + [c] + b, current) == RunsFrom(member, f, a, current) + Runs(member, f, b)
    decreases |a|
  {
    var s := a + [c] + b;
    if a == [] {
      assert s[1..] == b;
    } else {
      assert s[1..] == a[1..] + [c] + b;
      RunsFromSplit(member, f, a[1..], c, b, if member(a[0]) then current + f(a[0]) else []);
    }
  }

  /** Splitting a text at a non-member character splits its runs. */
  lemma RunsSplit(member: char -> bool, f: char -> string, a: string, c: char, b: string)
    requires !member(c)
    ensures Runs(member, f, a + [c] + b) == Runs(member, f, a) + Runs(member, f, b)
  {
    RunsFromSplit(member, f, a, c, b, []);
  }

  /** A text of member characters only is one run, or none when everything maps to nothing. */
  lemma {:induction false} RunsOfMembers(member: char -> bool, f: char -> string, s: string, current: string)
    requires forall c | c in s :: member(c)
    ensures var all := current + MapChars(f, s);
            RunsFrom(member, f, s, current) == if all == [] then [] else [all]
    decreases |s|
  {
    if s == [] {
      assert current + [] == current;
    } else {
      RunsOfMembers(member, f, s[1..], current + f(s[0]));
      assert current + f(s[0]) + MapChars(f, s[1..]) == current + MapChars(f, s);
    }
  }

  /** Every run is non-empty and made only of images of member characters. */
  lemma {:induction false} RunsWellFormed(
    member: char -> bool, f: char -> string, s: string, current: string, ok: char -> bool)
    requires forall c, d | member(c) && d in f(c) :: ok(d)
    requires forall d | d in current :: ok(d)
    ensures forall r | r in RunsFrom(member, f, s, current) :: r != [] && forall d | d in r :: ok(d)
    decreases |s|
  {
    if s != [] {
      RunsWellFormed(member, f, s[1..], if member(s[0]) then current + f(s[0]) else [], ok);
    }
  }

  function NonSpace(u: Unicode): char -> bool {
    c => !u.isWhitespace(c)
  }

  function Same(): char -> string {
    (c: char) => [c]
  }

  /** `str::split_whitespace`. */
  function SplitWhitespace(u: Unicode, s: string): seq<string> {
    Runs(NonSpace(u), Same(), s)
  }

  /** `[..].join(" ")`. */
  function JoinWords(words: seq<string>): string {
    if words == [] then []
    else if |words| == 1 then words[0]
    else words[0] + " " + JoinWords(words[1..])
  }

  /** `[..].join(separator)`. */
  function JoinWith(items: seq<string>, separator: string): string {
    if items == [] then []
    else if |items| == 1 then items[0]
    else items[0] + separator + JoinWith(items[1..], separator)
  }

  /** The pieces of a text between separators; `current` is the piece being read. */
  function PiecesFrom(s: string, separator: char, current: string): seq<string> {
    if s == [] then [current]
    else if s[0] == separator then [current] + PiecesFrom(s[1..], separator, [])
    else PiecesFrom(s[1..], separator, current + [s[0]])
  }

  /** `str.split(separator)`. */
  function Split(s: string, separator: char): seq<string> {
    PiecesFrom(s, separator, [])
  }

  lemma {:induction false} PiecesOfPiece(piece: string, separator: char, rest: string, current: string)
    requires separator !in piece
    ensures PiecesFrom(piece + rest, separator, current) == PiecesFrom(rest, separator, current + piece)
    decreases |piece|
  {
    if piece == [] {
      assert piece + rest == rest && current + piece == current;
    } else {
      PiecesOfPiece(piece[1..], separator, rest, current + [piece[0]]);
      assert (piece + rest)[1..] == piece[1..] + rest;
      assert current + [piece[0]] + piece[1..] == current + piece;
    }
  }

  /** Splitting what was joined gives the pieces back. */
  lemma {:induction false} SplitJoinWith(pieces: seq<string>, separator: char)
    requires pieces != [] && forall i | 0 <= i < |pieces| :: separator !in pieces[i]
    ensures Split(JoinWith(pieces, [separator]), separator) == pieces
  {
    var piece := pieces[0];
    assert [] + piece == piece;
    if |pieces| == 1 {
      PiecesOfPiece(piece, separator, [], []);
      assert piece + [] == piece;
    } else {
      var rest := JoinWith(pieces[1..], [separator]);
      PiecesOfPiece(piece, separator, [separator] + rest, []);
      assert piece + [separator] + rest == piece + ([separator] + rest);
      assert ([separator] + rest)[1..] == rest;
      SplitJoinWith(pieces[1..], separator);
    }
  }

  /** Joining what was split gives the text back. */
  lemma {:induction false} JoinSplit(s: string, separator: char, current: string)
    requires separator !in current
    ensures JoinWith(PiecesFrom(s, separator, current), [separator]) == current + s
    ensures PiecesFrom(s, separator, current) != []
    ensures forall i | 0 <= i < |PiecesFrom(s, separator, current)| ::
              separator !in PiecesFrom(s, separator, current)[i]
    decreases |s|
  {
    if s == [] {
      assert current + s == current;
    } else if s[0] == separator {
      JoinSplit(s[1..], separator, []);
      var rest := PiecesFrom(s[1..], separator, []);
      assert ([current] + rest)[1..] == rest && [] + s[1..] == s[1..];
      assert current + [separator] + s[1..] == current + s;
    } else {
      JoinSplit(s[1..], separator, current + [s[0]]);
      assert current + [s[0]] + s[1..] == current + s;
    }
  }

  /** A word: what whitespace splitting can give back. */
  predicate IsWord(u: Unicode, w: string) {
    w != [] && forall c | c in w :: !u.isWhitespace(c)
  }

  lemma {:induction false} MapSame(s: string)
    ensures MapChars(Same(), s) == s
  {
    if s != [] {
      MapSame(s[1..]);
      assert s == [s[0]] + s[1..];
    }
  }

  /** Joining words with spaces and splitting at whitespace gives the words back. */
  lemma {:induction false} SplitJoin(u: Unicode, words: seq<string>)
    requires forall w | w in words :: IsWord(u, w)
    ensures SplitWhitespace(u, JoinWords(words)) == words
  {
    if words != [] {
      var w := words[0];
      assert IsWord(u, w);
      RunsOfMembers(NonSpace(u), Same(), w, []);
      MapSame(w);
      assert [] + w == w;
      if |words| > 1 {
        SplitJoin(u, words[1..]);
        RunsSplit(NonSpace(u), Same(), w, ' ', JoinWords(words[1..]));
        assert JoinWords(words) == w + [' '] + JoinWords(words[1..]);
        assert [w] + words[1..] == words;
      } else {
        assert words == [w] && JoinWords(words) == w;
      }
    }
  }

  /** `str::trim_start`. */
  function TrimStart(u: Unicode, s: string): (r: string)
    ensures r == [] || !u.isWhitespace(r[0])
    ensures |r| <= |s| && s[|s| - |r|..] == r
    ensures forall c | c in s[..|s| - |r|] :: u.isWhitespace(c)
  {
    if s != [] && u.isWhitespace(s[0]) then
      var r := TrimStart(u, s[1..]);
      assert s[..|s| - |r|] == [s[0]] + s[1..][..|s| - 1 - |r|];
      r
    else s
  }

  /** `str::trim_end`. */
  function TrimEnd(u: Unicode, s: string): (r: string)
    ensures r == [] || !u.isWhitespace(r[|r| - 1])
    ensures r <= s
    ensures forall c | c in s[|r|..] :: u.isWhitespace(c)
  {
    if s != [] && u.isWhitespace(s[|s| - 1]) then
      var r := TrimEnd(u, s[..|s| - 1]);
      assert s[|r|..] == s[..|s| - 1][|r|..] + [s[|s| - 1]];
      r
    else s
  }

  /** `str::trim`. */
  function Trim(u: Unicode, s: string): string {
    TrimEnd(u, TrimStart(u, s))
  }

  predicate AllWhitespace(u: Unicode, s: string) {
    forall c | c in s :: u.isWhitespace(c)
  }

  lemma {:induction false} TrimEndKeeps(u: Unicode, s: string)
    requires s != [] && !u.isWhitespace(s[0])
    ensures TrimEnd(u, s) != []
  {
    if |s| > 1 {
      TrimEndKeeps(u, s[..|s| - 1]);
    }
  }

  /** A text trims to nothing exactly when it holds only whitespace. */
  lemma TrimEmpty(u: Unicode, s: string)
    ensures Trim(u, s) == [] <==> AllWhitespace(u, s)
  {
    var t := TrimStart(u, s);
    if t == [] {
      assert s[..|s|] == s;
    } else {
      assert t[0] == s[|s| - |t|];
      assert t[0] in s;
      TrimEndKeeps(u, t);
    }
  }

  /** The text before the first `c`, or the whole text (`split_once`, `split(..).next()`). */
  function Before(s: string, stop: char -> bool): (r: string)
    ensures r <= s
    ensures forall c | c in r :: !stop(c)
    ensures r == s || stop(s[|r|])
  {
    if s == [] || stop(s[0]) then [] else [s[0]] + Before(s[1..], stop)
  }

  /** A slice of a slice. */
  lemma SliceOfSlice<T>(s: seq<T>, a: nat, b: nat, i: nat, j: nat)
    requires a <= b <= |s| && i <= j <= b - a
    ensures s[a..b][i..j] == s[a + i..a + j]
  {
    var t := s[a..b];
    forall k | 0 <= k < j - i
      ensures t[i..j][k] == s[a + i..a + j][k]
    {
      assert t[i..j][k] == t[i + k];
    }
  }

  function AsciiLower(s: string): string {
    seq(|s|, i requires 0 <= i < |s| => if 'A' <= s[i] <= 'Z' then ((s[i] as int) + 32) as char else s[i])
  }

  /** Bytes a character takes in UTF-8. */
  function Utf8Width(c: char): nat {
    if c as int < 0x80 then 1 else if c as int < 0x800 then 2 else if c as int < 0x1_0000 then 3 else 4
  }

  /** `str::len`: bytes a text takes in UTF-8. */
  function Utf8Len(s: string): nat {
    if s == [] then 0 else Utf8Width(s[0]) + Utf8Len(s[1..])
  }

  /** Trimming drops exactly the white space around a text that begins and ends with something else. */
  lemma {:induction false} TrimStartUnique(u: Unicode, before: string, s: string)
    requires AllWhitespace(u, before) && (s == [] || !u.isWhitespace(s[0]))
    ensures TrimStart(u, before + s) == s
  {
    if before == [] {
      assert before + s == s;
    } else {
      assert (before + s)[1..] == before[1..] + s;
      TrimStartUnique(u, before[1..], s);
    }
  }

  lemma {:induction false} TrimEndUnique(u: Unicode, s: string, after: string)
    requires AllWhitespace(u, after) && (s == [] || !u.isWhitespace(s[|s| - 1]))
    ensures TrimEnd(u, s + after) == s
  {
    if after == [] {
      assert s + after == s;
    } else {
      assert (s + after)[..|s + after| - 1] == s + after[..|after| - 1];
      TrimEndUnique(u, s, after[..|after| - 1]);
    }
  }

  lemma {:induction false} BeforeUnique(s: string, rest: string, stop: char -> bool)
    requires (forall c | c in s :: !stop(c)) && (rest == [] || stop(rest[0]))
    ensures Before(s + rest, stop) == s
  {
    if s == [] {
      assert s + rest == rest;
    } else {
      assert (s + rest)[1..] == s[1..] + rest;
      BeforeUnique(s[1..], rest, stop);
    }
  }
}
