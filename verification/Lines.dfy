/** `str::lines`, and the pieces a text splits into at line feeds. */
module Lines {
  import opened Text

  /** Drop one carriage return at the end. */
  function StripCr(line: string): string {
    if line != [] && line[|line| - 1] == '\r' then line[..|line| - 1] else line
  }

  function IsLf(): char -> bool {
    c => c == '\n'
  }

  /** `str::lines`: split after each line feed, dropping the feed and one carriage return before it. */
  function LinesOf(s: string): seq<string>
    decreases |s|
  {
    if s == [] then []
    else
      var line := Before(s, IsLf());
      if line == s then [s] else [StripCr(line)] + LinesOf(s[|line| + 1..])
  }

  function Last<T>(s: seq<T>): T
    requires s != []
  {
    s[|s| - 1]
  }

  function Init<T>(s: seq<T>): seq<T>
    requires s != []
  {
    s[..|s| - 1]
  }

  /** The text from a position up to the next line feed (one item of `str::split('\n')`). */
  function PieceAt(s: string, from: nat): (piece: string)
    requires from <= |s|
    ensures '\n' !in piece
    ensures from + |piece| <= |s| && s[..from + |piece|] == s[..from] + piece
    ensures from + |piece| == |s| || s[from + |piece|] == '\n'
  {
    var piece := Before(s[from..], IsLf());
    assert s[..from + |piece|] == s[..from] + s[from..][..|piece|];
    piece
  }

  /** The text after the last line feed. */
  function PendingLine(s: string): string {
    if s == [] || Last(s) == '\n' then [] else PendingLine(Init(s)) + [Last(s)]
  }

  /** The lines a text has completed. */
  function CompleteLines(s: string): seq<string> {
    if s == [] then []
    else if Last(s) == '\n' then CompleteLines(Init(s)) + [StripCr(PendingLine(Init(s)))]
    else CompleteLines(Init(s))
  }

  lemma LinesAppend(s: string, c: char)
    ensures CompleteLines(s + [c]) ==
            if c == '\n' then CompleteLines(s) + [StripCr(PendingLine(s))] else CompleteLines(s)
    ensures PendingLine(s + [c]) == if c == '\n' then [] else PendingLine(s) + [c]
  {
    assert Init(s + [c]) == s;
  }

  lemma Snoc(s: string, more: string)
    requires more != []
    ensures s + more == s + Init(more) + [Last(more)]
  {
    assert more == Init(more) + [Last(more)];
  }

  /** Text without a line feed only extends the pending line. */
  lemma {:induction false} LinesExtend(s: string, more: string)
    requires '\n' !in more
    ensures CompleteLines(s + more) == CompleteLines(s)
    ensures PendingLine(s + more) == PendingLine(s) + more
  {
    if more == [] {
      assert s + more == s;
    } else {
      assert Last(more) in more;
      LinesExtend(s, Init(more));
      LinesAppend(s + Init(more), Last(more));
      Snoc(s, more);
      Snoc(PendingLine(s), more);
    }
  }

  /** Completed lines stay as text follows. */
  lemma {:induction false} CompleteLinesGrow(s: string, more: string)
    ensures CompleteLines(s) <= CompleteLines(s + more)
  {
    if more == [] {
      assert s + more == s;
    } else {
      CompleteLinesGrow(s, Init(more));
      LinesAppend(s + Init(more), Last(more));
      Snoc(s, more);
    }
  }

  /** A first line is closed by its line feed; what follows has lines of its own. */
  lemma {:induction false} LinesAfterFirst(line: string, rest: string)
    requires '\n' !in line
    ensures CompleteLines(line + ['\n'] + rest) == [StripCr(line)] + CompleteLines(rest)
    ensures PendingLine(line + ['\n'] + rest) == PendingLine(rest)
  {
    var first := line + ['\n'];
    if rest == [] {
      FirstLine(line);
      assert first + rest == first;
    } else {
      LinesAfterFirst(line, Init(rest));
      LinesAppend(first + Init(rest), Last(rest));
      Snoc(first, rest);
      LinesAppend(Init(rest), Last(rest));
      Snoc([], rest);
    }
  }

  lemma FirstLine(line: string)
    requires '\n' !in line
    ensures CompleteLines(line + ['\n']) == [StripCr(line)]
    ensures PendingLine(line + ['\n']) == []
  {
    LinesExtend([], line);
    assert [] + line == line;
    LinesAppend(line, '\n');
  }

  /** `str::lines` yields the completed lines and then the pending one, unless that is empty. */
  lemma {:induction false} LinesByFeeds(s: string)
    ensures LinesOf(s) == if PendingLine(s) == [] then CompleteLines(s) else CompleteLines(s) + [PendingLine(s)]
    decreases |s|
  {
    if s != [] {
      var line := Before(s, IsLf());
      if line == s {
        LinesExtend([], s);
        assert [] + s == s;
      } else {
        var rest := s[|line| + 1..];
        assert s == line + ['\n'] + rest;
        LinesByFeeds(rest);
        LinesAfterFirst(line, rest);
      }
    }
  }

  /** A line ends at a line feed, or at a carriage return and a line feed, and at the end of the text. */
  lemma LineEndings(line: string, rest: string)
    requires '\n' !in line && (line == [] || Last(line) != '\r')
    ensures LinesOf(line + "\n" + rest) == [line] + LinesOf(rest)
    ensures LinesOf(line + "\r\n" + rest) == [line] + LinesOf(rest)
    ensures LinesOf(line) == if line == [] then [] else [line]
  {
    LastLineOf(line);
    FirstLineOf(line, rest);
    hide LinesOf;
    CrLfEnding(line, rest);
  }

  lemma CrLfEnding(line: string, rest: string)
    requires '\n' !in line
    ensures LinesOf(line + "\r\n" + rest) == [line] + LinesOf(rest)
  {
    var ended := line + "\r";
    FirstLineOf(ended, rest);
    assert StripCr(ended) == line;
    hide LinesOf, StripCr;
    assert line + "\r\n" == ended + "\n";
  }

  lemma LastLineOf(line: string)
    requires '\n' !in line
    ensures LinesOf(line) == if line == [] then [] else [line]
  {
    assert Before(line, IsLf()) == line;
  }

  lemma {:induction false} BeforeLf(line: string, rest: string)
    requires '\n' !in line
    ensures Before(line + "\n" + rest, IsLf()) == line
  {
    var s := line + "\n" + rest;
    if line != [] {
      assert s[1..] == line[1..] + "\n" + rest;
      BeforeLf(line[1..], rest);
    }
  }

  lemma FirstLineOf(line: string, rest: string)
    requires '\n' !in line
    ensures LinesOf(line + "\n" + rest) == [StripCr(line)] + LinesOf(rest)
  {
    var s := line + "\n" + rest;
    BeforeLf(line, rest);
    assert s[|line| + 1..] == rest && line != s;
  }
}
