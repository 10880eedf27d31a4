/** The terminal grid rebuilt from an escape-sequence stream (`ScreenTracker` in `tui_client.py`). */
module Screen {
  import opened Wrappers
  import opened Decimals
  import opened Text

  const SCREEN_ROWS: nat := 24
  const SCREEN_COLS: nat := 100
  const ESC := 0x1b as char

  function Max(a: int, b: int): int {
    if a < b then b else a
  }

  function Min(a: int, b: int): int {
    if a < b then a else b
  }

  // ----- control sequences -----

  function IsParameter(): char -> bool {
    (c: char) => 0x30 as char <= c <= 0x3f as char
  }

  function IsIntermediate(): char -> bool {
    (c: char) => 0x20 as char <= c <= 0x2f as char
  }

  predicate IsFinal(c: char) {
    '@' <= c <= '~'
  }

  /** Where the run of class members that starts at `i` ends. */
  function SpanEnd(s: string, i: nat, member: char -> bool): (end: nat)
    requires i <= |s|
    ensures i <= end <= |s|
    ensures forall k | i <= k < end :: member(s[k])
    ensures end == |s| || !member(s[end])
    decreases |s| - i
  {
    if i < |s| && member(s[i]) then SpanEnd(s, i + 1, member) else i
  }

  datatype ControlSequence = ControlSequence(params: string, final: char, length: nat)

  /** A complete control sequence at the start of the text: introducer, parameters, intermediates, final byte. */
  function MatchCsi(s: string): (r: Option<ControlSequence>)
    ensures r.Some? ==> 3 <= r.value.length <= |s|
  {
    if |s| >= 2 && s[0] == ESC && s[1] == '[' then
      var params := SpanEnd(s, 2, IsParameter());
      var intermediates := SpanEnd(s, params, IsIntermediate());
      if intermediates < |s| && IsFinal(s[intermediates]) then
        Some(ControlSequence(s[2..params], s[intermediates], intermediates + 1))
      else None
    else None
  }

  /** Text that may still become a control sequence. */
  predicate IsIncomplete(s: string) {
    s == [ESC] || (|s| >= 2 && s[0] == ESC && s[1] == '[' && forall i | 2 <= i < |s| :: !IsFinal(s[i]))
  }

  datatype Item =
    | Waiting
    | Sequence(params: string, final: char, length: nat)
    | CarriageReturn
    | LineFeed
    | Printable(c: char)
    | Ignored

  function Length(item: Item): nat {
    match item
    case Waiting => 0
    case Sequence(_, _, length) => length
    case _ => 1
  }

  /** What the text starts with. */
  function NextItem(s: string): (item: Item)
    requires s != []
    ensures Length(item) <= |s|
    ensures item.Waiting? <==> Length(item) == 0
    ensures item.Waiting? <==> IsIncomplete(s)
  {
    var c := s[0];
    if c == ESC then
      match MatchCsi(s)
      case Some(csi) => Sequence(csi.params, csi.final, csi.length)
      case None => if IsIncomplete(s) then Waiting else Ignored
    else if c == '\r' then CarriageReturn
    else if c == '\n' then LineFeed
    else if c >= ' ' then Printable(c)
    else Ignored
  }

  // ----- what an item does -----

  datatype State = State(rows: seq<seq<char>>, x: int, y: int)

  /** A grid of the screen's size with the cursor on a row and not left of the first column. */
  predicate InShape(st: State) {
    && |st.rows| == SCREEN_ROWS
    && (forall i | 0 <= i < |st.rows| :: |st.rows[i]| == SCREEN_COLS)
    && 0 <= st.y < SCREEN_ROWS
    && 0 <= st.x
  }

  function Blank(): seq<char> {
    seq(SCREEN_COLS, _ => ' ')
  }

  /** A row erased from a column to its end. */
  function Erased(row: seq<char>, from: nat): seq<char> {
    seq(|row|, i requires 0 <= i < |row| => if i >= from then ' ' else row[i])
  }

  predicate IsNumber(piece: string) {
    piece != [] && AllDigits(piece)
  }

  /** The decimal pieces, in order; all others are dropped. */
  function NumbersIn(pieces: seq<string>): seq<nat> {
    if pieces == [] then []
    else if IsNumber(pieces[0]) then [FromDecimal(pieces[0])] + NumbersIn(pieces[1..])
    else NumbersIn(pieces[1..])
  }

  function Numbers(params: string): seq<nat> {
    NumbersIn(Split(params, ';'))
  }

  /** The number at a position; one when it is missing. */
  function NumberAt(numbers: seq<nat>, k: nat): int {
    if k < |numbers| then numbers[k] else 1
  }

  function Moved(st: State, final: char, count: int): State {
    match final
    case 'A' => st.(y := Max(0, st.y - count))
    case 'B' => st.(y := Min(SCREEN_ROWS - 1, st.y + count))
    case 'C' => st.(x := Min(SCREEN_COLS - 1, st.x + count))
    case 'D' => st.(x := Max(0, st.x - count))
    case _ => st
  }

  /** What a control sequence does to the screen. */
  function Obeyed(st: State, params: string, final: char): (r: State)
    requires InShape(st)
    ensures InShape(r)
  {
    var numbers := Numbers(params);
    match final
    case 'H' =>
      var row := NumberAt(numbers, 0) - 1;
      var col := NumberAt(numbers, 1) - 1;
      st.(y := Max(0, Min(SCREEN_ROWS - 1, row)), x := Max(0, Min(SCREEN_COLS - 1, col)))
    case 'K' => st.(rows := st.rows[st.y := Erased(st.rows[st.y], st.x)])
    case 'J' =>
      st.(rows := seq(SCREEN_ROWS, i requires 0 <= i < SCREEN_ROWS =>
            if i < st.y then st.rows[i] else if i == st.y then Erased(st.rows[i], st.x) else Blank()))
    case _ => Moved(st, final, NumberAt(numbers, 0))
  }

  /** What one item does to the screen. */
  function Applied(st: State, item: Item): (r: State)
    requires InShape(st)
    ensures InShape(r)
  {
    match item
    case Waiting => st
    case Sequence(params, final, _) => Obeyed(st, params, final)
    case CarriageReturn => st.(x := 0)
    case LineFeed => st.(y := Min(SCREEN_ROWS - 1, st.y + 1))
    case Printable(c) =>
      var rows := if st.x < SCREEN_COLS then st.rows[st.y := st.rows[st.y][st.x := c]] else st.rows;
      State(rows, st.x + 1, st.y)
    case Ignored => st
  }

  /** The screen after a text, and the end of the text that is still incomplete. */
  function Run(st: State, s: string): (r: (State, string))
    requires InShape(st)
    ensures InShape(r.0)
    ensures r.1 == [] || IsIncomplete(r.1)
    decreases |s|
  {
    if s == [] || NextItem(s).Waiting? then (st, s)
    else
      var item := NextItem(s);
      Run(Applied(st, item), s[Length(item)..])
  }

  // ----- chunking -----

  /** A run in a prefix ends where it ends in the whole text, or at the end of the prefix. */
  lemma {:induction false} SpanInPrefix(a: string, b: string, i: nat, member: char -> bool)
    requires i <= |a|
    ensures SpanEnd(a, i, member) == Min(|a|, SpanEnd(a + b, i, member))
    decreases |a| - i
  {
    if i < |a| && member(a[i]) {
      SpanInPrefix(a, b, i + 1, member);
    }
  }

  /** A complete control sequence stays what it is when more text arrives. */
  lemma MatchStable(a: string, b: string)
    requires |a| >= 2 && a[0] == ESC && a[1] == '[' && !IsIncomplete(a)
    ensures MatchCsi(a + b) == MatchCsi(a)
  {
    var f :| 2 <= f < |a| && IsFinal(a[f]);
    var params := SpanEnd(a + b, 2, IsParameter());
    assert (a + b)[f] == a[f];
    assert params <= f;
    var intermediates := SpanEnd(a + b, params, IsIntermediate());
    assert intermediates <= f;
    SpanInPrefix(a, b, 2, IsParameter());
    SpanInPrefix(a, b, params, IsIntermediate());
    assert (a + b)[2..params] == a[2..params];
  }

  /** Once the start of a text can be read, more text does not change the reading. */
  lemma ItemStable(a: string, b: string)
    requires a != [] && !NextItem(a).Waiting?
    ensures NextItem(a + b) == NextItem(a)
  {
    if a[0] == ESC {
      assert !IsIncomplete(a);
      assert |a| >= 2 && (a + b)[1] == a[1];
      if a[1] == '[' {
        MatchStable(a, b);
        var f :| 2 <= f < |a| && IsFinal(a[f]);
        assert (a + b)[f] == a[f];
      }
    }
  }

  /** Running a text and then more, with what was left over, is running both together. */
  lemma {:induction false} RunConcat(st: State, a: string, b: string)
    requires InShape(st)
    ensures var (mid, rest) := Run(st, a);
            Run(mid, rest + b) == Run(st, a + b)
    decreases |a|
  {
    if a != [] && !NextItem(a).Waiting? {
      var item := NextItem(a);
      ItemStable(a, b);
      assert (a + b)[Length(item)..] == a[Length(item)..] + b;
      RunConcat(Applied(st, item), a[Length(item)..], b);
    }
  }

  function Concat(chunks: seq<string>): string {
    if chunks == [] then [] else chunks[0] + Concat(chunks[1..])
  }

  /** Feed chunk after chunk. */
  function RunChunks(st: State, pending: string, chunks: seq<string>): (State, string)
    requires InShape(st)
    decreases |chunks|
  {
    if chunks == [] then (st, pending)
    else
      var (next, rest) := Run(st, pending + chunks[0]);
      RunChunks(next, rest, chunks[1..])
  }

  lemma RunHeldBack(st: State, pending: string)
    requires InShape(st) && (pending == [] || IsIncomplete(pending))
    ensures Run(st, pending) == (st, pending)
  {
  }

  /**
   * The screen does not depend on chunking: however a text is cut, feeding the pieces one by one leaves the grid,
   * the cursor and the pending text that feeding it whole leaves.
   */
  lemma {:induction false} ChunksDoNotMatter(st: State, pending: string, chunks: seq<string>)
    requires InShape(st) && (pending == [] || IsIncomplete(pending))
    ensures RunChunks(st, pending, chunks) == Run(st, pending + Concat(chunks))
    decreases |chunks|
  {
    hide Applied, InShape, IsIncomplete, Run;
    if chunks == [] {
      assert pending + [] == pending;
      RunHeldBack(st, pending);
    } else {
      var (next, rest) := Run(st, pending + chunks[0]);
      ChunksDoNotMatter(next, rest, chunks[1..]);
      RunConcat(st, pending + chunks[0], Concat(chunks[1..]));
      assert pending + chunks[0] + Concat(chunks[1..]) == pending + Concat(chunks);
    }
  }

  // ----- what sequences mean -----

  /** A well-formed control sequence. */
  function CsiText(params: string, intermediates: string, final: char): string {
    [ESC, '['] + params + intermediates + [final]
  }

  predicate WellFormed(params: string, intermediates: string, final: char) {
    && (forall c | c in params :: IsParameter()(c))
    && (forall c | c in intermediates :: IsIntermediate()(c))
    && IsFinal(final)
  }

  lemma {:induction false} SpanAll(s: string, i: nat, end: nat, member: char -> bool)
    requires i <= end <= |s| && (forall k | i <= k < end :: member(s[k])) && (end == |s| || !member(s[end]))
    ensures SpanEnd(s, i, member) == end
    decreases end - i
  {
    if i < end {
      SpanAll(s, i + 1, end, member);
    }
  }

  /** Every well-formed control sequence is read as one item with exactly its parameters and final byte. */
  lemma ReadsWellFormed(params: string, intermediates: string, final: char, rest: string)
    requires WellFormed(params, intermediates, final)
    ensures var text := CsiText(params, intermediates, final);
            NextItem(text + rest) == Sequence(params, final, |text|)
  {
    var text := CsiText(params, intermediates, final) + rest;
    var i := 2 + |params|;
    var j := i + |intermediates|;
    forall k | 2 <= k < i
      ensures IsParameter()(text[k])
    {
      assert text[k] == params[k - 2];
    }
    forall k | i <= k < j
      ensures IsIntermediate()(text[k]) && !IsParameter()(text[k])
    {
      assert text[k] == intermediates[k - i];
    }
    assert text[j] == final;
    SpanAll(text, 2, i, IsParameter());
    SpanAll(text, i, j, IsIntermediate());
    assert text[2..i] == params;
  }

  /** Styling and private modes leave no trace: a sequence the tracker does not know is consumed and changes nothing. */
  lemma UnknownSequencesInvisible(st: State, params: string, intermediates: string, final: char, rest: string)
    requires InShape(st) && WellFormed(params, intermediates, final) && final !in "HKJABCD"
    ensures Run(st, CsiText(params, intermediates, final) + rest) == Run(st, rest)
  {
    var text := CsiText(params, intermediates, final);
    ReadsWellFormed(params, intermediates, final, rest);
    assert (text + rest)[|text|..] == rest;
    assert Applied(st, Sequence(params, final, |text|)) == st by {
      assert forall c | c in {'H', 'K', 'J', 'A', 'B', 'C', 'D'} :: c in "HKJABCD";
    }
  }

  /** Text that is shown as it is. */
  predicate Plain(s: string) {
    forall c | c in s :: c >= ' '
  }

  /** Plain text that fits on the cursor's row overwrites exactly its cells and moves the cursor past it. */
  lemma {:induction false} PlainTextPrinted(st: State, s: string)
    requires InShape(st) && Plain(s) && st.x + |s| <= SCREEN_COLS
    ensures var row := st.rows[st.y];
            Run(st, s) == (State(st.rows[st.y := row[..st.x] + s + row[st.x + |s|..]], st.x + |s|, st.y), [])
    decreases |s|
  {
    var row := st.rows[st.y];
    assert |row| == SCREEN_COLS;
    if s == [] {
      assert row[..st.x] + s + row[st.x + |s|..] == row;
      assert st.rows[st.y := row] == st.rows;
      assert Run(st, s) == (st, []);
    } else {
      assert s[0] in s;
      assert forall c | c in s[1..] :: c in s;
      var next := Applied(st, Printable(s[0]));
      var overwritten := row[st.x := s[0]];
      assert next.rows == st.rows[st.y := overwritten];
      Overwrites(row, st.x, s);
      RunPlain(st, s);
      hide Run, InShape;
      PlainTextPrinted(next, s[1..]);
      assert next.rows[st.y := overwritten[..st.x + 1] + s[1..] + overwritten[st.x + |s|..]] ==
             st.rows[st.y := row[..st.x] + s + row[st.x + |s|..]];
    }
  }

  lemma RunPlain(st: State, s: string)
    requires InShape(st) && s != [] && s[0] >= ' '
    ensures Run(st, s) == Run(Applied(st, Printable(s[0])), s[1..])
  {
    hide Applied, InShape, IsIncomplete, MatchCsi;
  }

  lemma Overwrites(row: seq<char>, x: nat, s: string)
    requires s != [] && x + |s| <= |row|
    ensures var overwritten := row[x := s[0]];
            overwritten[..x + 1] + s[1..] + overwritten[x + |s|..] == row[..x] + s + row[x + |s|..]
  {
  }

  // ----- parameters by position -----

  /** A parameter read by its position, as section 5.4 of ECMA-48 has it: one when it is missing or not a number. */
  function Positional(pieces: seq<string>, k: nat): int {
    if k < |pieces| && IsNumber(pieces[k]) then FromDecimal(pieces[k]) else 1
  }

  /** The tracker reads every parameter at its position. */
  ghost predicate ReadByPosition(pieces: seq<string>) {
    forall k: nat :: NumberAt(NumbersIn(pieces), k) == Positional(pieces, k)
  }

  /** Every number that follows a piece that is not a number is one. */
  predicate OnesAfterGap(pieces: seq<string>) {
    forall i, j | 0 <= i < j < |pieces| && !IsNumber(pieces[i]) && IsNumber(pieces[j]) :: FromDecimal(pieces[j]) == 1
  }

  /** A number comes from a piece at its own index or later. */
  lemma {:induction false} NumberFrom(pieces: seq<string>, m: nat) returns (i: nat)
    requires m < |NumbersIn(pieces)|
    ensures m <= i < |pieces| && IsNumber(pieces[i]) && FromDecimal(pieces[i]) == NumbersIn(pieces)[m]
    decreases |pieces|
  {
    if IsNumber(pieces[0]) && m == 0 {
      i := 0;
    } else {
      var j := NumberFrom(pieces[1..], if IsNumber(pieces[0]) then m - 1 else m);
      i := j + 1;
    }
  }

  /** When each parameter is found one place too late, all of them are one. */
  lemma {:induction false} ShiftedAreOnes(pieces: seq<string>, j: nat)
    requires forall k: nat :: NumberAt(NumbersIn(pieces), k + 1) == Positional(pieces, k)
    ensures Positional(pieces, j) == 1
    decreases if j < |pieces| then |pieces| - j else 0
  {
    if j < |pieces| {
      assert NumberAt(NumbersIn(pieces), j + 1) == Positional(pieces, j);
      if j + 1 < |NumbersIn(pieces)| {
        var i := NumberFrom(pieces, j + 1);
        ShiftedAreOnes(pieces, i);
      }
    }
  }

  lemma GapShifts(pieces: seq<string>)
    requires pieces != [] && !IsNumber(pieces[0]) && ReadByPosition(pieces)
    ensures OnesAfterGap(pieces)
  {
    var rest := pieces[1..];
    forall k: nat
      ensures NumberAt(NumbersIn(rest), k + 1) == Positional(rest, k)
    {
      assert NumberAt(NumbersIn(pieces), k + 1) == Positional(pieces, k + 1);
    }
    forall j | 0 < j < |pieces| && IsNumber(pieces[j])
      ensures FromDecimal(pieces[j]) == 1
    {
      ShiftedAreOnes(rest, j - 1);
    }
  }

  lemma GapOfOnes(pieces: seq<string>)
    requires pieces != [] && !IsNumber(pieces[0]) && OnesAfterGap(pieces)
    ensures ReadByPosition(pieces)
  {
    forall k: nat
      ensures NumberAt(NumbersIn(pieces), k) == 1 == Positional(pieces, k)
    {
      if k < |NumbersIn(pieces)| {
        var i := NumberFrom(pieces, k);
      }
    }
  }

  lemma NumberFirst(pieces: seq<string>)
    requires pieces != [] && IsNumber(pieces[0])
    ensures ReadByPosition(pieces) <==> ReadByPosition(pieces[1..])
    ensures OnesAfterGap(pieces) <==> OnesAfterGap(pieces[1..])
  {
    var rest := pieces[1..];
    forall k: nat
      ensures NumberAt(NumbersIn(pieces), k + 1) == NumberAt(NumbersIn(rest), k)
      ensures Positional(pieces, k + 1) == Positional(rest, k)
    {
    }
    if ReadByPosition(rest) {
      forall k: nat
        ensures NumberAt(NumbersIn(pieces), k) == Positional(pieces, k)
      {
        if k > 0 {
          assert NumberAt(NumbersIn(rest), k - 1) == Positional(rest, k - 1);
        }
      }
    }
    if ReadByPosition(pieces) {
      forall k: nat
        ensures NumberAt(NumbersIn(rest), k) == Positional(rest, k)
      {
        assert NumberAt(NumbersIn(pieces), k + 1) == Positional(pieces, k + 1);
      }
    }
    if OnesAfterGap(pieces) {
      forall i, j | 0 <= i < j < |rest| && !IsNumber(rest[i]) && IsNumber(rest[j])
        ensures FromDecimal(rest[j]) == 1
      {
        assert pieces[i + 1] == rest[i] && pieces[j + 1] == rest[j];
      }
    }
  }

  /**
   * The tracker drops pieces that are not numbers before it counts positions.  It reads every parameter at its position
   * exactly when every number after the first such piece is one.
   */
  lemma {:induction false} PositionalExactly(pieces: seq<string>)
    ensures ReadByPosition(pieces) <==> OnesAfterGap(pieces)
  {
    if pieces != [] {
      if IsNumber(pieces[0]) {
        NumberFirst(pieces);
        PositionalExactly(pieces[1..]);
      } else if ReadByPosition(pieces) {
        GapShifts(pieces);
      } else if OnesAfterGap(pieces) {
        GapOfOnes(pieces);
      }
    }
  }

  /** A cursor move with parameters read by position. */
  function MovedTo(st: State, pieces: seq<string>): State {
    var row, col := Positional(pieces, 0) - 1, Positional(pieces, 1) - 1;
    st.(y := Max(0, Min(SCREEN_ROWS - 1, row)), x := Max(0, Min(SCREEN_COLS - 1, col)))
  }

  /** Then a cursor move goes to the row and column given. */
  lemma CursorMovePositional(st: State, params: string)
    requires InShape(st) && OnesAfterGap(Split(params, ';'))
    ensures Obeyed(st, params, 'H') == MovedTo(st, Split(params, ';'))
  {
    PositionalExactly(Split(params, ';'));
    hide Split, NumbersIn, Positional;
    assert NumberAt(Numbers(params), 0) == Positional(Split(params, ';'), 0);
    assert NumberAt(Numbers(params), 1) == Positional(Split(params, ';'), 1);
  }

  lemma EmptyRowPieces()
    ensures Split(";5", ';') == ["", "5"]
  {
    assert JoinWith(["", "5"], [';']) == ";5" by {
      assert ["", "5"][1..] == ["5"];
    }
    SplitJoinWith(["", "5"], ';');
  }

  lemma EmptyRowNumbers()
    ensures !IsNumber("") && IsNumber("5") && FromDecimal("5") == 5 && NumbersIn(["", "5"]) == [5]
  {
    assert "5"[..0] == "" && FromDecimal("") == 0;
    assert ["", "5"][1..] == ["5"] && ["5"][1..] == [];
    assert NumbersIn(["5"]) == [5] + NumbersIn([]);
  }

  /** A column without a row is taken for the row. */
  lemma ColumnTakenForRow(st: State)
    requires InShape(st)
    ensures Split(";5", ';') == ["", "5"] && !OnesAfterGap(["", "5"])
    ensures Obeyed(st, ";5", 'H') == st.(y := 4, x := 0)
    ensures MovedTo(st, ["", "5"]) == st.(y := 0, x := 4)
  {
    EmptyRowPieces();
    EmptyRowNumbers();
    hide Split, NumbersIn, FromDecimal, IsNumber;
    var pieces := ["", "5"];
    assert pieces[0] == "" && pieces[1] == "5";
    assert Numbers(";5") == [5];
    assert NumberAt([5], 0) == 5 && NumberAt([5], 1) == 1;
    assert Positional(pieces, 0) == 1 && Positional(pieces, 1) == 5;
  }

  // ----- the tracker -----

  class ScreenTracker {
    var rows: seq<seq<char>>
    var x: int
    var y: int
    var pending: string

    ghost function Shown(): State
      reads this
    {
      State(rows, x, y)
    }

    /** The grid keeps its size, the cursor its bounds, and only an incomplete sequence is held back. */
    ghost predicate Valid()
      reads this
    {
      InShape(Shown()) && (pending == [] || IsIncomplete(pending))
    }

    constructor ()
      ensures Valid() && Shown() == State(seq(SCREEN_ROWS, _ => Blank()), 0, 0) && pending == []
    {
      rows := seq(SCREEN_ROWS, _ => Blank());
      x := 0;
      y := 0;
      pending := [];
    }

    method EraseLine()
      requires InShape(Shown())
      modifies this`rows
      ensures rows == old(rows)[y := Erased(old(rows)[y], x)]
    {
      var column := x;
      ghost var row := rows[y];
      while column < SCREEN_COLS
        invariant x <= column && |rows| == SCREEN_ROWS
        invariant rows == old(rows)[y := rows[y]] && |rows[y]| == SCREEN_COLS
        invariant forall i | 0 <= i < SCREEN_COLS :: rows[y][i] == if x <= i < column then ' ' else row[i]
      {
        rows := rows[y := rows[y][column := ' ']];
        column := column + 1;
      }
      assert rows[y] == Erased(row, x);
    }

    method EraseBelow()
      requires InShape(Shown())
      modifies this`rows
      ensures |rows| == SCREEN_ROWS
      ensures forall i | 0 <= i < SCREEN_ROWS :: rows[i] == if i <= y then old(rows)[i] else Blank()
    {
      var row := y + 1;
      while row < SCREEN_ROWS
        invariant y < row <= SCREEN_ROWS && |rows| == SCREEN_ROWS
        invariant forall i | 0 <= i < SCREEN_ROWS :: rows[i] == if y < i < row then Blank() else old(rows)[i]
      {
        rows := rows[row := Blank()];
        row := row + 1;
      }
    }

    method Move(final: char, count: int)
      modifies this`x, this`y
      ensures Shown() == Moved(old(Shown()), final, count)
    {
      if final == 'A' {
        y := Max(0, y - count);
      } else if final == 'B' {
        y := Min(SCREEN_ROWS - 1, y + count);
      } else if final == 'C' {
        x := Min(SCREEN_COLS - 1, x + count);
      } else if final == 'D' {
        x := Max(0, x - count);
      }
    }

    method Csi(params: string, final: char)
      requires InShape(Shown())
      modifies this`rows, this`x, this`y
      ensures Shown() == Obeyed(old(Shown()), params, final)
    {
      var numbers := Numbers(params);
      if final == 'H' {
        var row := NumberAt(numbers, 0) - 1;
        var col := NumberAt(numbers, 1) - 1;
        y := Max(0, Min(SCREEN_ROWS - 1, row));
        x := Max(0, Min(SCREEN_COLS - 1, col));
      } else if final == 'K' {
        EraseLine();
      } else if final == 'J' {
        EraseBelow();
        EraseLine();
        assert rows == Obeyed(old(Shown()), params, final).rows;
      } else {
        Move(final, NumberAt(numbers, 0));
      }
    }

    /** Consume the first item of the pending text, unless it is still incomplete. */
    method Consume() returns (waiting: bool)
      requires InShape(Shown()) && pending != []
      modifies this
      ensures waiting <==> NextItem(old(pending)).Waiting?
      ensures waiting ==> Shown() == old(Shown()) && pending == old(pending)
      ensures Shown() == Applied(old(Shown()), NextItem(old(pending)))
      ensures pending == old(pending)[Length(NextItem(old(pending)))..]
    {
      hide Obeyed, Erased, MatchCsi;
      waiting := false;
      var next := pending[0];
      if next == ESC {
        var csi := MatchCsi(pending);
        if csi.None? {
          if IsIncomplete(pending) {
            return true;
          }
          pending := pending[1..];
        } else {
          pending := pending[csi.value.length..];
          Csi(csi.value.params, csi.value.final);
        }
      } else if next == '\r' {
        pending := pending[1..];
        x := 0;
      } else if next == '\n' {
        pending := pending[1..];
        y := Min(SCREEN_ROWS - 1, y + 1);
      } else if next >= ' ' {
        pending := pending[1..];
        if y < SCREEN_ROWS && x < SCREEN_COLS {
          rows := rows[y := rows[y][x := next]];
        }
        x := x + 1;
      } else {
        pending := pending[1..];
      }
    }

    /** Feed decoded text: the tracker ends as running the held-back text and the new text together ends. */
    method Feed(text: string)
      requires Valid()
      modifies this
      ensures Valid()
      ensures (Shown(), pending) == Run(old(Shown()), old(pending) + text)
    {
      hide Applied, InShape, NextItem, IsIncomplete;
      pending := pending + text;
      while pending != []
        invariant InShape(Shown())
        invariant Run(Shown(), pending) == Run(old(Shown()), old(pending) + text)
        decreases |pending|
      {
        var waiting := Consume();
        if waiting {
          return;
        }
      }
    }
  }
}
