/** Markdown table cells: escaping, and what a reader of a table row gets back (GFM, section 4.10). */
module Markdown {
  import opened Text

  // ----- escaping -----

  /** `str::replace` of certain characters by a text. */
  function Replace(s: string, what: set<char>, substitute: string): string {
    if s == [] then [] else (if s[0] in what then substitute else [s[0]]) + Replace(s[1..], what, substitute)
  }

  /** Backslashes first, then pipes, back-quotes, and line ends. */
  function Escape(value: string): string {
    Replace(Replace(Replace(Replace(value, {'\\'}, "\\\\"), {'|'}, "\\|"), {'`'}, "\\`"), {'\r', '\n'}, " ")
  }

  function EscapedChar(): char -> string {
    (c: char) =>
      if c == '\\' then "\\\\" else if c == '|' then "\\|" else if c == '`' then "\\`"
      else if c == '\r' || c == '\n' then " " else [c]
  }

  lemma Regroup<T>(a: seq<T>, b: seq<T>, c: seq<T>)
    ensures a + (b + c) == a + b + c
  {
  }

  lemma ReplaceHead(s: string, what: set<char>, substitute: string)
    requires s != []
    ensures Replace(s, what, substitute) ==
              (if s[0] in what then substitute else [s[0]]) + Replace(s[1..], what, substitute)
  {
  }

  lemma {:induction false} ReplaceAppend(a: string, b: string, what: set<char>, substitute: string)
    ensures Replace(a + b, what, substitute) == Replace(a, what, substitute) + Replace(b, what, substitute)
  {
    if a == [] {
      assert a + b == b;
    } else {
      hide Replace;
      ReplaceHead(a, what, substitute);
      ReplaceHead(a + b, what, substitute);
      assert (a + b)[0] == a[0] && (a + b)[1..] == a[1..] + b;
      ReplaceAppend(a[1..], b, what, substitute);
      Regroup(if a[0] in what then substitute else [a[0]], Replace(a[1..], what, substitute),
        Replace(b, what, substitute));
    }
  }

  lemma EscapeAppend(a: string, b: string)
    ensures Escape(a + b) == Escape(a) + Escape(b)
  {
    hide Replace;
    ReplaceAppend(a, b, {'\\'}, "\\\\");
    var a1, b1 := Replace(a, {'\\'}, "\\\\"), Replace(b, {'\\'}, "\\\\");
    ReplaceAppend(a1, b1, {'|'}, "\\|");
    var a2, b2 := Replace(a1, {'|'}, "\\|"), Replace(b1, {'|'}, "\\|");
    ReplaceAppend(a2, b2, {'`'}, "\\`");
    ReplaceAppend(Replace(a2, {'`'}, "\\`"), Replace(b2, {'`'}, "\\`"), {'\r', '\n'}, " ");
  }

  lemma ReplaceOne(c: char, what: set<char>, substitute: string)
    ensures Replace([c], what, substitute) == if c in what then substitute else [c]
  {
    assert [c][1..] == [];
  }

  lemma ReplaceTwo(c: char, d: char, what: set<char>, substitute: string)
    requires c !in what && d !in what
    ensures Replace([c, d], what, substitute) == [c, d]
  {
    assert [c, d][1..] == [d];
    ReplaceOne(d, what, substitute);
  }

  lemma EscapeOne(c: char)
    ensures Escape([c]) == EscapedChar()(c)
  {
    hide Replace;
    ReplaceOne(c, {'\\'}, "\\\\");
    ReplaceOne(c, {'|'}, "\\|");
    ReplaceOne(c, {'`'}, "\\`");
    ReplaceOne(c, {'\r', '\n'}, " ");
    ReplaceTwo('\\', '\\', {'|'}, "\\|");
    ReplaceTwo('\\', '\\', {'`'}, "\\`");
    ReplaceTwo('\\', '\\', {'\r', '\n'}, " ");
    ReplaceTwo('\\', '|', {'`'}, "\\`");
    ReplaceTwo('\\', '|', {'\r', '\n'}, " ");
    ReplaceTwo('\\', '`', {'\r', '\n'}, " ");
  }

  /** The replacements in sequence act on every character on its own. */
  lemma {:induction false} EscapeIsMap(s: string)
    ensures Escape(s) == MapChars(EscapedChar(), s)
  {
    if s != [] {
      hide Escape;
      EscapeAppend([s[0]], s[1..]);
      EscapeOne(s[0]);
      EscapeIsMap(s[1..]);
      assert [s[0]] + s[1..] == s;
    }
  }

  /** Read left to right, a backslash stands for the character after it. */
  function Unescape(s: string): string {
    if s == [] then []
    else if s[0] == '\\' && |s| > 1 then [s[1]] + Unescape(s[2..])
    else [s[0]] + Unescape(s[1..])
  }

  /** A text on one line. */
  function OneLine(s: string): string {
    seq(|s|, i requires 0 <= i < |s| => if s[i] == '\r' || s[i] == '\n' then ' ' else s[i])
  }

  lemma UnescapeOne(c: char, rest: string)
    ensures Unescape(EscapedChar()(c) + rest) == OneLine([c]) + Unescape(rest)
  {
    var head := EscapedChar()(c);
    assert (head + rest)[|head|..] == rest;
  }

  /** Unescaping gives the value back, on one line. */
  lemma {:induction false} UnescapeEscape(s: string)
    ensures Unescape(Escape(s)) == OneLine(s)
  {
    EscapeIsMap(s);
    if s != [] {
      hide Escape, EscapedChar, Unescape;
      EscapeIsMap(s[1..]);
      UnescapeEscape(s[1..]);
      UnescapeOne(s[0], Escape(s[1..]));
      assert OneLine(s) == OneLine([s[0]]) + OneLine(s[1..]);
    }
  }

  // ----- rows -----

  /** Text a cell may hold: no line end, no pipe that is not escaped, no backslash at the end that escapes nothing. */
  predicate SafeCell(s: string) {
    if s == [] then true
    else if s[0] == '\\' then |s| > 1 && s[1] != '\r' && s[1] != '\n' && SafeCell(s[2..])
    else s[0] != '|' && s[0] != '\r' && s[0] != '\n' && SafeCell(s[1..])
  }

  lemma UnescapeHead(s: string)
    requires s != []
    ensures s[0] == '\\' && |s| > 1 ==> Unescape(s) == [s[1]] + Unescape(s[2..])
    ensures s[0] != '\\' ==> Unescape(s) == [s[0]] + Unescape(s[1..])
  {
  }

  /** Unescaping a safe text and what follows it are independent. */
  lemma {:induction false} UnescapeAppend(a: string, b: string)
    requires SafeCell(a)
    ensures Unescape(a + b) == Unescape(a) + Unescape(b)
    decreases |a|
  {
    if a == [] {
      assert a + b == b;
    } else {
      hide Unescape;
      var n := if a[0] == '\\' then 2 else 1;
      UnescapeHead(a);
      UnescapeHead(a + b);
      assert (a + b)[n..] == a[n..] + b;
      UnescapeAppend(a[n..], b);
      Regroup([a[n - 1]], Unescape(a[n..]), Unescape(b));
    }
  }

  lemma {:induction false} SafeAppend(a: string, b: string)
    requires SafeCell(a) && SafeCell(b)
    ensures SafeCell(a + b)
    decreases |a|
  {
    if a == [] {
      assert a + b == b;
    } else if a[0] == '\\' {
      SafeAppend(a[2..], b);
      assert (a + b)[2..] == a[2..] + b;
    } else {
      SafeAppend(a[1..], b);
      assert (a + b)[1..] == a[1..] + b;
    }
  }

  /** Whatever the value, its escaped form is safe in a cell. */
  lemma {:induction false} EscapeSafe(s: string)
    ensures SafeCell(Escape(s))
  {
    EscapeIsMap(s);
    if s != [] {
      hide Escape;
      EscapeIsMap(s[1..]);
      EscapeSafe(s[1..]);
      var head := EscapedChar()(s[0]);
      assert |head| == 2 ==> head[2..] == [];
      assert |head| == 1 ==> head[1..] == [];
      SafeAppend(head, Escape(s[1..]));
    }
  }

  /** A text without characters that mean something in a table. */
  predicate PlainCell(s: string) {
    forall i | 0 <= i < |s| :: s[i] !in {'\\', '|', '\r', '\n'}
  }

  lemma {:induction false} PlainSafe(s: string)
    requires PlainCell(s)
    ensures SafeCell(s)
  {
    if s != [] {
      PlainSafe(s[1..]);
    }
  }

  lemma {:induction false} PlainUnescape(s: string)
    requires PlainCell(s)
    ensures Unescape(s) == s
  {
    if s != [] {
      PlainUnescape(s[1..]);
      assert [s[0]] + s[1..] == s;
    }
  }

  lemma OneLineAppend(a: string, b: string)
    ensures OneLine(a + b) == OneLine(a) + OneLine(b)
  {
  }

  lemma {:induction false} JoinSafe(items: seq<string>, separator: string)
    requires (forall i | 0 <= i < |items| :: SafeCell(items[i])) && SafeCell(separator)
    ensures SafeCell(JoinWith(items, separator))
  {
    if |items| == 1 {
      assert SafeCell(items[0]);
    } else if |items| > 1 {
      JoinSafe(items[1..], separator);
      SafeAppend(items[0], separator);
      SafeAppend(items[0] + separator, JoinWith(items[1..], separator));
    }
  }

  /** A table row. */
  function Row(cells: seq<string>): string {
    "|" + Fenced(cells) + "\n"
  }

  /** Every cell with a space on either side and a pipe after it. */
  function Fenced(cells: seq<string>): string {
    if cells == [] then [] else " " + cells[0] + " |" + Fenced(cells[1..])
  }

  function Rows(rows: seq<seq<string>>): string {
    if rows == [] then [] else Row(rows[0]) + Rows(rows[1..])
  }

  // ----- reading -----

  /** The fields of a row between unescaped pipes; `current` is the field being read. */
  function Fields(s: string, current: string): seq<string>
    decreases |s|
  {
    if s == [] then [current]
    else if s[0] == '\\' && |s| > 1 then Fields(s[2..], current + s[..2])
    else if s[0] == '|' then [current] + Fields(s[1..], [])
    else Fields(s[1..], current + [s[0]])
  }

  lemma {:induction false} FieldsSafe(safe: string, rest: string, current: string)
    requires SafeCell(safe)
    ensures Fields(safe + rest, current) == Fields(rest, current + safe)
    decreases |safe|
  {
    if safe == [] {
      assert safe + rest == rest && current + safe == current;
    } else if safe[0] == '\\' {
      FieldsSafe(safe[2..], rest, current + safe[..2]);
      assert (safe + rest)[2..] == safe[2..] + rest && (safe + rest)[..2] == safe[..2];
      assert current + safe[..2] + safe[2..] == current + safe;
    } else {
      FieldsSafe(safe[1..], rest, current + [safe[0]]);
      assert (safe + rest)[1..] == safe[1..] + rest;
      assert current + [safe[0]] + safe[1..] == current + safe;
    }
  }

  /** A field's content: one space is dropped on either side. */
  function Content(field: string): string {
    if |field| >= 2 then field[1..|field| - 1] else []
  }

  function Contents(fields: seq<string>): seq<string> {
    seq(|fields|, i requires 0 <= i < |fields| => Content(fields[i]))
  }

  /** The cells of a row: what is between the first and the last unescaped pipe. */
  function ReadRow(row: string): seq<string> {
    var fields := Fields(row, []);
    if |fields| < 2 then [] else Contents(fields[1..|fields| - 1])
  }

  function Padded(cells: seq<string>): seq<string> {
    seq(|cells|, i requires 0 <= i < |cells| => " " + cells[i] + " ")
  }

  lemma FieldsPipe(rest: string, current: string)
    ensures Fields("|" + rest, current) == [current] + Fields(rest, [])
  {
    assert ("|" + rest)[1..] == rest;
  }

  lemma PaddedSafe(cell: string)
    requires SafeCell(cell)
    ensures SafeCell(" " + cell + " ")
  {
    PlainSafe(" ");
    SafeAppend(" ", cell);
    SafeAppend(" " + cell, " ");
  }

  lemma FencedStep(cells: seq<string>)
    requires cells != []
    ensures Fenced(cells) == (" " + cells[0] + " ") + ("|" + Fenced(cells[1..]))
  {
    var rest := Fenced(cells[1..]);
    hide Fenced;
    assert " |" == " " + "|";
  }

  lemma FirstField(cells: seq<string>)
    requires cells != [] && SafeCell(cells[0])
    ensures Fields(Fenced(cells), []) == [" " + cells[0] + " "] + Fields(Fenced(cells[1..]), [])
  {
    hide SafeCell, Fields, Fenced;
    var padded, rest := " " + cells[0] + " ", Fenced(cells[1..]);
    PaddedSafe(cells[0]);
    FencedStep(cells);
    FieldsSafe(padded, "|" + rest, []);
    FieldsPipe(rest, padded);
    assert [] + padded == padded;
  }

  lemma PaddedStep(cells: seq<string>)
    requires cells != []
    ensures Padded(cells) == [" " + cells[0] + " "] + Padded(cells[1..])
  {
  }

  lemma {:induction false} FencedFields(cells: seq<string>)
    requires forall i | 0 <= i < |cells| :: SafeCell(cells[i])
    ensures Fields(Fenced(cells), []) == Padded(cells) + [[]]
  {
    if cells != [] {
      hide SafeCell, Fields, Fenced, Padded;
      FirstField(cells);
      PaddedStep(cells);
      FencedFields(cells[1..]);
      Regroup([" " + cells[0] + " "], Padded(cells[1..]), [[]]);
    }
  }

  /** A row of safe cells has exactly one unescaped pipe more than cells, and its cells read back unchanged. */
  lemma RowReadsBack(cells: seq<string>)
    requires forall i | 0 <= i < |cells| :: SafeCell(cells[i])
    ensures var line := "|" + Fenced(cells);
            |Fields(line, [])| == |cells| + 2 && ReadRow(line) == cells
  {
    hide Fenced;
    var line := "|" + Fenced(cells);
    assert line[1..] == Fenced(cells);
    FencedFields(cells);
    var fields := Fields(line, []);
    assert fields == [[]] + (Padded(cells) + [[]]);
    assert fields[1..|fields| - 1] == Padded(cells);
    forall i | 0 <= i < |cells|
      ensures Content(Padded(cells)[i]) == cells[i]
    {
    }
  }

  /** The lines of a text; `current` is the line being read. */
  function LinesFrom(s: string, current: string): seq<string> {
    if s == [] then (if current == [] then [] else [current])
    else if s[0] == '\n' then [current] + LinesFrom(s[1..], [])
    else LinesFrom(s[1..], current + [s[0]])
  }

  predicate NoNewline(s: string) {
    forall i | 0 <= i < |s| :: s[i] != '\n'
  }

  lemma {:induction false} SafeNoNewline(s: string)
    requires SafeCell(s)
    ensures NoNewline(s)
    decreases |s|
  {
    if s != [] {
      SafeNoNewline(s[if s[0] == '\\' then 2 else 1..]);
    }
  }

  lemma {:induction false} FencedNoNewline(cells: seq<string>)
    requires forall i | 0 <= i < |cells| :: SafeCell(cells[i])
    ensures NoNewline(Fenced(cells))
  {
    if cells != [] {
      assert SafeCell(cells[0]);
      SafeNoNewline(cells[0]);
      FencedNoNewline(cells[1..]);
    }
  }

  lemma {:induction false} FirstLine(line: string, rest: string, current: string)
    requires NoNewline(line)
    ensures LinesFrom(line + "\n" + rest, current) == [current + line] + LinesFrom(rest, [])
    decreases |line|
  {
    var s := line + "\n" + rest;
    if line == [] {
      assert s[1..] == rest && current + line == current;
    } else {
      assert s[1..] == line[1..] + "\n" + rest;
      FirstLine(line[1..], rest, current + [line[0]]);
      assert current + [line[0]] + line[1..] == current + line;
    }
  }

  function ReadLines(lines: seq<string>): seq<seq<string>> {
    seq(|lines|, i requires 0 <= i < |lines| => ReadRow(lines[i]))
  }

  predicate SafeRows(rows: seq<seq<string>>) {
    forall i | 0 <= i < |rows| :: forall j | 0 <= j < |rows[i]| :: SafeCell(rows[i][j])
  }

  /** The rows a reader finds in the body of a table. */
  function ReadTable(body: string): seq<seq<string>> {
    ReadLines(LinesFrom(body, []))
  }

  /** A table body reads back row by row and cell by cell: one line for each row, and exactly its cells on that line. */
  lemma {:induction false} RowsReadBack(rows: seq<seq<string>>)
    requires SafeRows(rows)
    ensures ReadTable(Rows(rows)) == rows
  {
    if rows != [] {
      hide Fenced, ReadRow, Fields, LinesFrom, SafeCell;
      var cells, rest := rows[0], Rows(rows[1..]);
      var line := "|" + Fenced(cells);
      FencedNoNewline(cells);
      RowReadsBack(cells);
      assert Rows(rows) == line + "\n" + rest;
      FirstLine(line, rest, []);
      RowsReadBack(rows[1..]);
      var lines := LinesFrom(rest, []);
      assert [] + line == line && LinesFrom(Rows(rows), []) == [line] + lines;
      assert ReadLines([line] + lines) == [cells] + ReadLines(lines);
    }
  }

  lemma {:induction false} RowsAppend(rows: seq<seq<string>>, cells: seq<string>)
    ensures Rows(rows + [cells]) == Rows(rows) + Row(cells)
  {
    hide Row;
    if rows == [] {
      assert Rows([cells]) == Row(cells) + Rows([]);
    } else {
      RowsAppend(rows[1..], cells);
      assert (rows + [cells])[1..] == rows[1..] + [cells];
    }
  }

  /** What each character becomes. */
  lemma EscapeSpelled(c: char, rest: string)
    ensures Escape([]) == []
    ensures Escape(['\\'] + rest) == "\\\\" + Escape(rest)
    ensures Escape(['|'] + rest) == "\\|" + Escape(rest)
    ensures Escape(['`'] + rest) == "\\`" + Escape(rest)
    ensures Escape(['\n'] + rest) == " " + Escape(rest) && Escape(['\r'] + rest) == " " + Escape(rest)
    ensures c !in "\\|`\n\r" ==> Escape([c] + rest) == [c] + Escape(rest)
  {
    EscapeIsMap([]);
    hide Escape;
    forall d
      ensures Escape([d] + rest) == EscapedChar()(d) + Escape(rest)
    {
      EscapeAppend([d], rest);
      EscapeOne(d);
    }
  }
}
