/** What single control characters and control sequences do to the screen, on the text that is fed. */
module ScreenFacts {
  import opened Wrappers
  import opened Text
  import opened Decimals
  import opened Screen

  // ----- parameters -----

  /** A parameter as it is written: a numeral, or nothing when it is missing. */
  function Written(n: Option<nat>): string {
    if n.Some? then ToDecimal(n.value) else ""
  }

  lemma DigitsAreParameters(s: string)
    requires AllDigits(s)
    ensures (forall c | c in s :: IsParameter()(c)) && ';' !in s
  {
  }

  lemma OnePiece(s: string)
    requires ';' !in s
    ensures Split(s, ';') == [s]
  {
    SplitJoinWith([s], ';');
  }

  /** A written parameter is read back; a missing one is one. */
  lemma WrittenReadsBack(n: Option<nat>)
    ensures NumberAt(Numbers(Written(n)), 0) == if n.Some? then n.value else 1
    ensures WellFormed(Written(n), [], 'A') && WellFormed(Written(n), [], 'B')
    ensures WellFormed(Written(n), [], 'C') && WellFormed(Written(n), [], 'D')
  {
    var s := Written(n);
    DigitsAreParameters(s);
    OnePiece(s);
    assert [s][1..] == [];
    if n.Some? {
      DecimalRoundTrip(n.value);
    }
  }

  /** Feeding a well-formed sequence does what the sequence says and goes on. */
  lemma SequenceThen(st: State, params: string, final: char, rest: string)
    requires InShape(st) && WellFormed(params, [], final)
    ensures Run(st, CsiText(params, [], final) + rest) == Run(Obeyed(st, params, final), rest)
  {
    hide Obeyed;
    var text := CsiText(params, [], final);
    ReadsWellFormed(params, [], final, rest);
    assert (text + rest)[|text|..] == rest;
  }

  // ----- moves -----

  lemma MovesExact(st: State, params: string, n: nat)
    requires InShape(st) && NumberAt(Numbers(params), 0) == n
    ensures Obeyed(st, params, 'A') == st.(y := if n > st.y then 0 else st.y - n)
    ensures Obeyed(st, params, 'B') == st.(y := if st.y + n > 23 then 23 else st.y + n)
    ensures Obeyed(st, params, 'C') == st.(x := if st.x + n > 99 then 99 else st.x + n)
    ensures Obeyed(st, params, 'D') == st.(x := if n > st.x then 0 else st.x - n)
  {
    hide Numbers, NumberAt;
  }

  /** A is up, B is down, C is right and D is left, by the number given or one, and never off the grid. */
  lemma RelativeMoves(st: State, count: Option<nat>, rest: string)
    requires InShape(st)
    ensures var n := if count.Some? then count.value else 1;
            && Run(st, CsiText(Written(count), [], 'A') + rest) == Run(st.(y := if n > st.y then 0 else st.y - n), rest)
            && Run(st, CsiText(Written(count), [], 'B') + rest) ==
              Run(st.(y := if st.y + n > 23 then 23 else st.y + n), rest)
            && Run(st, CsiText(Written(count), [], 'C') + rest) ==
              Run(st.(x := if st.x + n > 99 then 99 else st.x + n), rest)
            && Run(st, CsiText(Written(count), [], 'D') + rest) == Run(st.(x := if n > st.x then 0 else st.x - n), rest)
  {
    hide Run, InShape, NumberAt, Numbers, Obeyed, CsiText;
    WrittenReadsBack(count);
    MovesExact(st, Written(count), if count.Some? then count.value else 1);
    SequenceThen(st, Written(count), 'A', rest);
    SequenceThen(st, Written(count), 'B', rest);
    SequenceThen(st, Written(count), 'C', rest);
    SequenceThen(st, Written(count), 'D', rest);
  }

  lemma TwoNumbers(a: nat, b: nat)
    ensures var params := ToDecimal(a) + ";" + ToDecimal(b);
            && NumberAt(Numbers(params), 0) == a && NumberAt(Numbers(params), 1) == b
            && WellFormed(params, [], 'H')
  {
    var pieces := [ToDecimal(a), ToDecimal(b)];
    DigitsAreParameters(ToDecimal(a));
    DigitsAreParameters(ToDecimal(b));
    SplitJoinWith(pieces, ';');
    assert pieces[1..] == [ToDecimal(b)];
    assert JoinWith(pieces, [';']) == ToDecimal(a) + ";" + ToDecimal(b);
    DecimalRoundTrip(a);
    DecimalRoundTrip(b);
    hide ToDecimal, FromDecimal, AllDigits;
    NumbersOfTwo(pieces[0], pieces[1]);
  }

  lemma NumbersOfTwo(a: string, b: string)
    requires IsNumber(a) && IsNumber(b)
    ensures NumbersIn([a, b]) == [FromDecimal(a), FromDecimal(b)]
  {
    assert [a, b][1..] == [b] && [b][1..] == [];
    assert NumbersIn([b]) == [FromDecimal(b)] + NumbersIn([]);
  }

  /** H goes to the row and column given, both counted from one, or to the nearest cell of the grid. */
  lemma AbsoluteMove(st: State, row: nat, column: nat, rest: string)
    requires InShape(st)
    ensures Run(st, CsiText(ToDecimal(row) + ";" + ToDecimal(column), [], 'H') + rest) ==
              Run(st.(y := if row == 0 then 0 else if row > 24 then 23 else row - 1,
                      x := if column == 0 then 0 else if column > 100 then 99 else column - 1), rest)
  {
    hide Run, InShape, NumberAt, Numbers, ToDecimal;
    var params := ToDecimal(row) + ";" + ToDecimal(column);
    TwoNumbers(row, column);
    SequenceThen(st, params, 'H', rest);
    assert Obeyed(st, params, 'H').y == if row == 0 then 0 else if row > 24 then 23 else row - 1;
    assert Obeyed(st, params, 'H').x == if column == 0 then 0 else if column > 100 then 99 else column - 1;
  }

  /** H without parameters goes to the first cell. */
  lemma HomeMove(st: State, rest: string)
    requires InShape(st)
    ensures Run(st, CsiText([], [], 'H') + rest) == Run(st.(y := 0, x := 0), rest)
  {
    hide Run, InShape;
    OnePiece([]);
    assert [""][1..] == [] && Numbers([]) == [];
    SequenceThen(st, [], 'H', rest);
  }

  // ----- control characters -----

  /** CR goes to the first column, LF down one row unless on the last, and other control characters do nothing. */
  lemma ControlCharacters(st: State, c: char, rest: string)
    requires InShape(st) && c < ' ' && c != ESC
    ensures Run(st, [c] + rest) ==
              if c == '\r' then Run(st.(x := 0), rest)
              else if c == '\n' then Run(st.(y := if st.y == 23 then 23 else st.y + 1), rest)
              else Run(st, rest)
  {
    hide Obeyed, MatchCsi;
    var s := [c] + rest;
    assert s[1..] == rest && !IsIncomplete(s);
    assert Run(st, s) == Run(Applied(st, NextItem(s)), rest);
  }

  /** An escape that starts no control sequence is dropped alone. */
  lemma EscapeDropped(st: State, c: char, rest: string)
    requires InShape(st) && c != '['
    ensures Run(st, [ESC, c] + rest) == Run(st, [c] + rest)
  {
    hide InShape, Obeyed;
    var s := [ESC, c] + rest;
    assert s[1..] == [c] + rest && !IsIncomplete(s) && MatchCsi(s).None?;
  }

  // ----- erasing -----

  /** A cell of the grid. */
  function Cell(st: State, row: nat, column: nat): char
    requires InShape(st) && row < SCREEN_ROWS && column < SCREEN_COLS
  {
    st.rows[row][column]
  }

  /** One screen has the cells of another, except that those of a region are blank; the cursor is the same. */
  ghost predicate BlankedOnly(before: State, after: State, region: (nat, nat) -> bool)
    requires InShape(before) && InShape(after)
  {
    && after.x == before.x && after.y == before.y
    && forall row: nat, column: nat | row < SCREEN_ROWS && column < SCREEN_COLS ::
         Cell(after, row, column) == if region(row, column) then ' ' else Cell(before, row, column)
  }

  /** K blanks exactly the cells from the cursor to the end of its row. */
  lemma EraseToEndOfRow(st: State, params: string)
    requires InShape(st) && WellFormed(params, [], 'K')
    ensures Run(st, CsiText(params, [], 'K')).1 == []
    ensures BlankedOnly(st, Run(st, CsiText(params, [], 'K')).0, (row, column) => row == st.y && column >= st.x)
  {
    SequenceThen(st, params, 'K', []);
    assert CsiText(params, [], 'K') + [] == CsiText(params, [], 'K');
  }

  /** J blanks these and exactly the rows below. */
  lemma EraseToEndOfScreen(st: State, params: string)
    requires InShape(st) && WellFormed(params, [], 'J')
    ensures Run(st, CsiText(params, [], 'J')).1 == []
    ensures BlankedOnly(st, Run(st, CsiText(params, [], 'J')).0,
              (row, column) => row > st.y || (row == st.y && column >= st.x))
  {
    SequenceThen(st, params, 'J', []);
    assert CsiText(params, [], 'J') + [] == CsiText(params, [], 'J');
  }

  /** A new tracker shows a blank screen with the cursor in the first cell. */
  method Fresh() returns (tracker: ScreenTracker)
    ensures tracker.Valid() && fresh(tracker)
    ensures tracker.Shown().x == 0 && tracker.Shown().y == 0 && tracker.pending == []
    ensures forall row: nat, column: nat | row < 24 && column < 100 :: Cell(tracker.Shown(), row, column) == ' '
  {
    tracker := new ScreenTracker();
  }

  /** The bytes of a control sequence, as section 5.4 of ECMA-48 gives them. */
  lemma SequenceBytes(c: char)
    ensures IsParameter()(c) <==> 0x30 <= c as int <= 0x3f
    ensures IsIntermediate()(c) <==> 0x20 <= c as int <= 0x2f
    ensures IsFinal(c) <==> 0x40 <= c as int <= 0x7e
    ensures ESC as int == 27
  {
  }
}
