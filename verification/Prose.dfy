/** Prose-only text: the fence-tracking line filter and `prose_only`. */
module Prose {
  import opened Text
  import opened Tokens
  import opened Lines

  /** What the filter asks of a single line. */
  datatype LineRules = LineRules(isFence: string -> bool, looksLikeCode: string -> bool)

  const FENCE := "```"

  const CODE_KEYWORDS: set<string> := {
    "import", "from", "def", "class", "return", "if", "elif", "else", "for", "while", "try", "except", "with",
    "async", "await"
  }

  predicate IsIdentifier(u: Unicode, s: string) {
    s != [] && forall c | c in s :: u.isAlphanumeric(c) || c == '_'
  }

  function Is(stop: char): char -> bool {
    c => c == stop
  }

  function EndsWord(u: Unicode): char -> bool {
    c => !u.isAlphanumeric(c) && c != '_'
  }

  /** Indentation, keywords and shapes that mark a line outside a fence as code. */
  predicate LooksLikeCode(u: Unicode, line: string) {
    var trimmed := TrimStart(u, line);
    var firstToken := AsciiLower(Before(trimmed, EndsWord(u)));
    var target := Before(trimmed, Is('='));
    var left := Trim(u, target);
    var assignment := target != trimmed && IsIdentifier(u, left) && (u.isAlphabetic(left[0]) || left[0] == '_');
    var callee := Before(trimmed, Is('('));
    var functionCall := callee != trimmed && IsIdentifier(u, Trim(u, callee));
    || "    " <= line || "\t" <= line
    || firstToken in CODE_KEYWORDS
    || "{" <= trimmed || "[" <= trimmed || "</" <= trimmed || "#" <= trimmed
    || assignment || functionCall
  }

  /** The line rules of the source; every theorem below holds for any others too. */
  function SourceRules(u: Unicode): LineRules {
    LineRules(line => FENCE <= TrimStart(u, line), line => LooksLikeCode(u, line))
  }

  /** Whether a fence is open after these lines: each fence line opens or closes one. */
  predicate FenceAfter(rules: LineRules, lines: seq<string>) {
    lines != [] && (rules.isFence(Last(lines)) != FenceAfter(rules, Init(lines)))
  }

  predicate Kept(rules: LineRules, inFence: bool, line: string) {
    !rules.isFence(line) && !inFence && !rules.looksLikeCode(line)
  }

  /** The lines the filter keeps, in order. */
  function KeptLines(rules: LineRules, lines: seq<string>): seq<string> {
    if lines == [] then []
    else
      var before := Init(lines);
      var kept := KeptLines(rules, before);
      if Kept(rules, FenceAfter(rules, before), Last(lines)) then kept + [Last(lines)] else kept
  }

  class ProseLineFilter {
    const rules: LineRules
    var inFence: bool

    constructor (rules: LineRules)
      ensures this.rules == rules && !inFence
    {
      this.rules := rules;
      inFence := false;
    }

    method Keep(line: string) returns (keep: bool)
      modifies this
      ensures keep == Kept(rules, old(inFence), line)
      ensures inFence == (rules.isFence(line) != old(inFence))
    {
      if rules.isFence(line) {
        inFence := !inFence;
        return false;
      }
      keep := !inFence && !rules.looksLikeCode(line);
    }
  }

  /** Each line followed by a line feed. */
  function Unlines(lines: seq<string>): string {
    if lines == [] then [] else Unlines(Init(lines)) + Last(lines) + ['\n']
  }

  /** The tokens of each line, one line after the other. */
  function LineTokens(u: Unicode, lines: seq<string>): seq<string> {
    if lines == [] then [] else LineTokens(u, Init(lines)) + TokensOf(u, Last(lines))
  }

  /** The text left when only kept lines remain. */
  function ProseText(rules: LineRules, content: string): string {
    Unlines(KeptLines(rules, LinesOf(content)))
  }

  method ProseOnly(rules: LineRules, content: string) returns (prose: string)
    ensures prose == ProseText(rules, content)
  {
    prose := "";
    var filter := new ProseLineFilter(rules);
    var lines := LinesOf(content);
    for i := 0 to |lines|
      invariant prose == Unlines(KeptLines(rules, lines[..i]))
      invariant filter.rules == rules && filter.inFence == FenceAfter(rules, lines[..i])
    {
      KeptStep(rules, lines[..i], lines[i]);
      assert lines[..i + 1] == lines[..i] + [lines[i]];
      var keep := filter.Keep(lines[i]);
      if keep {
        prose := prose + lines[i] + ['\n'];
        UnlinesStep(KeptLines(rules, lines[..i]), lines[i]);
      }
    }
    assert lines[..|lines|] == lines;
  }

  /** Tokenising lines joined by line feeds gives the tokens of each line in turn. */
  lemma {:induction false} TokensOfUnlines(u: Unicode, lines: seq<string>)
    ensures TokensOf(u, Unlines(lines)) == LineTokens(u, lines)
  {
    if lines != [] {
      var before := Init(lines);
      TokensOfUnlines(u, before);
      var text := Unlines(before);
      TokensSplit(u, text + Last(lines), '\n', []);
      assert text + Last(lines) + ['\n'] + [] == Unlines(lines);
      if before == [] {
        assert text + Last(lines) == Last(lines);
      } else {
        var earlier := Unlines(before[..|before| - 1]) + Last(before);
        assert text + Last(lines) == earlier + ['\n'] + Last(lines);
        assert text == earlier + ['\n'] + [];
        TokensSplit(u, earlier, '\n', Last(lines));
        TokensSplit(u, earlier, '\n', []);
      }
    }
  }

  lemma KeptStep(rules: LineRules, lines: seq<string>, line: string)
    ensures KeptLines(rules, lines + [line]) ==
            var kept := KeptLines(rules, lines);
            if Kept(rules, FenceAfter(rules, lines), line) then kept + [line] else kept
    ensures FenceAfter(rules, lines + [line]) == (rules.isFence(line) != FenceAfter(rules, lines))
  {
    assert (lines + [line])[..|lines|] == lines;
  }

  lemma UnlinesStep(lines: seq<string>, line: string)
    ensures Unlines(lines + [line]) == Unlines(lines) + line + ['\n']
  {
    assert (lines + [line])[..|lines|] == lines;
  }

  /** Prose tokens are the tokens of the kept lines of the text, line by line. */
  lemma ProseTokens(u: Unicode, rules: LineRules, content: string)
    ensures TokensOf(u, ProseText(rules, content)) == LineTokens(u, KeptLines(rules, LinesOf(content)))
  {
    TokensOfUnlines(u, KeptLines(rules, LinesOf(content)));
  }

  /** One more line appends its tokens when the filter keeps it, and nothing otherwise. */
  lemma KeptTokensStep(u: Unicode, rules: LineRules, lines: seq<string>, line: string)
    ensures LineTokens(u, KeptLines(rules, lines + [line])) ==
            var tokens := LineTokens(u, KeptLines(rules, lines));
            if Kept(rules, FenceAfter(rules, lines), line) then tokens + TokensOf(u, line) else tokens
    ensures FenceAfter(rules, lines + [line]) == (rules.isFence(line) != FenceAfter(rules, lines))
  {
    KeptStep(rules, lines, line);
    var kept := KeptLines(rules, lines);
    assert (kept + [line])[..|kept|] == kept;
  }

  /** Kept tokens only grow as lines follow. */
  lemma {:induction false} KeptTokensGrow(u: Unicode, rules: LineRules, lines: seq<string>, more: seq<string>)
    ensures LineTokens(u, KeptLines(rules, lines)) <= LineTokens(u, KeptLines(rules, lines + more))
  {
    hide LineTokens, KeptLines, FenceAfter, Kept, TokensOf;
    if more == [] {
      assert lines + more == lines;
    } else {
      var shorter := more[..|more| - 1];
      KeptTokensGrow(u, rules, lines, shorter);
      KeptTokensStep(u, rules, lines + shorter, Last(more));
      assert lines + shorter + [Last(more)] == lines + more;
    }
  }

  // ----- which lines look like code -----

  /** A keyword, in any case, that is the whole first word of the text. */
  ghost predicate KeywordFirst(u: Unicode, text: string, word: string, rest: string) {
    && text == word + rest
    && (forall c | c in word :: u.isAlphanumeric(c) || c == '_')
    && (rest == [] || !(u.isAlphanumeric(rest[0]) || rest[0] == '_'))
    && AsciiLower(word) in {
      "import", "from", "def", "class", "return", "if", "elif", "else", "for", "while", "try", "except", "with",
      "async", "await"}
  }

  /** A name, white space, the first such mark of the text, and anything. */
  ghost predicate NameThen(u: Unicode, text: string, mark: char, name: string, gap: string, rest: string) {
    && text == name + gap + [mark] + rest
    && mark !in name && mark !in gap
    && name != [] && (forall c | c in name :: u.isAlphanumeric(c) || c == '_')
    && !u.isWhitespace(name[0]) && !u.isWhitespace(name[|name| - 1]) && AllWhitespace(u, gap)
  }

  lemma FirstWord(u: Unicode, text: string)
    ensures (exists word, rest :: KeywordFirst(u, text, word, rest)) <==>
              AsciiLower(Before(text, EndsWord(u))) in CODE_KEYWORDS
  {
    hide AsciiLower;
    var first := Before(text, EndsWord(u));
    if AsciiLower(first) in CODE_KEYWORDS {
      assert KeywordFirst(u, text, first, text[|first|..]);
    }
    if word, rest :| KeywordFirst(u, text, word, rest) {
      BeforeUnique(word, rest, EndsWord(u));
    }
  }

  /** The name before a mark, if that is all there is before it. */
  lemma NameBefore(u: Unicode, text: string, mark: char)
    requires text == [] || !u.isWhitespace(text[0])
    ensures var target := Before(text, Is(mark));
            (exists gap, rest :: NameThen(u, text, mark, Trim(u, target), gap, rest)) <==>
              target != text && IsIdentifier(u, Trim(u, target))
    ensures forall name, gap, rest :: NameThen(u, text, mark, name, gap, rest) ==>
              name == Trim(u, Before(text, Is(mark)))
  {
    hide Trim;
    var target := Before(text, Is(mark));
    if target != text && IsIdentifier(u, Trim(u, target)) {
      NameFound(u, text, mark);
    }
    forall name, gap, rest | NameThen(u, text, mark, name, gap, rest)
      ensures name == Trim(u, target) && target == name + gap && target != text
    {
      NameTrimmed(u, text, mark, name, gap, rest);
    }
  }

  lemma NameFound(u: Unicode, text: string, mark: char)
    requires text == [] || !u.isWhitespace(text[0])
    requires var target := Before(text, Is(mark)); target != text && IsIdentifier(u, Trim(u, target))
    ensures exists gap, rest :: NameThen(u, text, mark, Trim(u, Before(text, Is(mark))), gap, rest)
  {
    var target := Before(text, Is(mark));
    var name := Trim(u, target);
    assert target == [] || target[0] == text[0];
    TrimmedPrefix(u, target);
    hide Trim, Before, NameThen;
    NameSplit(u, text, mark, target, name);
  }

  lemma NameSplit(u: Unicode, text: string, mark: char, target: string, name: string)
    requires target < text && text[|target|] == mark && mark !in target
    requires name <= target && IsIdentifier(u, name) && AllWhitespace(u, target[|name|..])
    requires !u.isWhitespace(name[0]) && !u.isWhitespace(name[|name| - 1])
    ensures exists gap, rest :: NameThen(u, text, mark, name, gap, rest)
  {
    var gap, rest := target[|name|..], text[|target| + 1..];
    assert name + gap == target;
    assert target + [mark] + rest == text;
    forall c | c in gap
      ensures c != mark
    {
      assert c in target;
    }
    assert mark !in name by {
      assert forall c | c in name :: c in target;
    }
    assert NameThen(u, text, mark, name, gap, rest);
  }

  /** Trimming a text that begins with no white space leaves a beginning of it. */
  lemma TrimmedPrefix(u: Unicode, s: string)
    requires s == [] || !u.isWhitespace(s[0])
    ensures Trim(u, s) <= s && AllWhitespace(u, s[|Trim(u, s)|..])
    ensures Trim(u, s) != [] ==> !u.isWhitespace(Trim(u, s)[0]) && !u.isWhitespace(Trim(u, s)[|Trim(u, s)| - 1])
  {
    TrimStartUnique(u, [], s);
    assert [] + s == s;
  }

  lemma NameTrimmed(u: Unicode, text: string, mark: char, name: string, gap: string, rest: string)
    requires NameThen(u, text, mark, name, gap, rest)
    ensures var target := Before(text, Is(mark)); target == name + gap && target != text && name == Trim(u, target)
  {
    assert text == (name + gap) + ([mark] + rest);
    BeforeUnique(name + gap, [mark] + rest, Is(mark));
    TrimStartUnique(u, [], name + gap);
    assert [] + (name + gap) == name + gap;
    TrimEndUnique(u, name, gap);
  }

  /**
   * Outside a fence a line looks like code exactly when it is indented by four spaces or a tab, or its text
   * after white space begins with a brace, a bracket, a closing tag, a hash or a keyword, or is a name followed
   * by an equals sign, the name beginning with a letter or an underscore, or a name followed by a parenthesis.
   */
  lemma CodeExactly(u: Unicode, indent: string, text: string)
    requires AllWhitespace(u, indent) && (text == [] || !u.isWhitespace(text[0]))
    ensures LooksLikeCode(u, indent + text) <==>
              || "    " <= indent + text || "\t" <= indent + text
              || "{" <= text || "[" <= text || "</" <= text || "#" <= text
              || (exists word, rest :: KeywordFirst(u, text, word, rest))
              || (exists name, gap, rest ::
                NameThen(u, text, '=', name, gap, rest) && (u.isAlphabetic(name[0]) || name[0] == '_'))
              || (exists name, gap, rest :: NameThen(u, text, '(', name, gap, rest))
  {
    hide Trim, AsciiLower, NameThen, KeywordFirst, Before;
    TrimStartUnique(u, indent, text);
    FirstWord(u, text);
    NameBefore(u, text, '=');
    NameBefore(u, text, '(');
  }

  /** A line is a fence exactly when three back-quotes follow its white space. */
  lemma FenceExactly(u: Unicode, indent: string, text: string)
    requires AllWhitespace(u, indent) && (text == [] || !u.isWhitespace(text[0]))
    ensures SourceRules(u).isFence(indent + text) <==> "```" <= text
  {
    TrimStartUnique(u, indent, text);
  }

  /** The fence lines of a text, by position. */
  function FenceLines(rules: LineRules, lines: seq<string>): set<nat> {
    set i: nat | i < |lines| && rules.isFence(lines[i])
  }

  /** A fence is open after an odd number of fence lines. */
  lemma {:induction false} OpenAfterOdd(rules: LineRules, lines: seq<string>)
    ensures FenceAfter(rules, lines) <==> |FenceLines(rules, lines)| % 2 == 1
  {
    if lines == [] {
      assert FenceLines(rules, lines) == {};
    } else {
      OpenAfterOdd(rules, Init(lines));
      var before := FenceLines(rules, Init(lines));
      if rules.isFence(Last(lines)) {
        assert FenceLines(rules, lines) == before + {|lines| - 1};
      } else {
        assert FenceLines(rules, lines) == before;
      }
    }
  }

  /**
   * A line is kept, in its place, exactly when it follows an even number of fence lines and is neither fence nor
   * code.
   */
  lemma KeptExactly(rules: LineRules, before: seq<string>, line: string)
    ensures KeptLines(rules, before + [line]) ==
              if |FenceLines(rules, before)| % 2 == 0 && !rules.isFence(line) && !rules.looksLikeCode(line)
              then KeptLines(rules, before) + [line]
              else KeptLines(rules, before)
  {
    OpenAfterOdd(rules, before);
    KeptStep(rules, before, line);
  }
}
