/** Showing a long line on one row: the branch of rl_redisplay in
    libs/readline/display.c that scrolls the line horizontally.  It is taken on
    terminals that cannot move up, and on others if the user asks for it. */
module Scroll {
  import opened Terminal
  import opened Display

  datatype Maybe<T> = None | Some(value: T)

  /** The place in the line where the row begins; None: a division by zero. */
  function Margin(cPos: nat, last: nat, width: nat): Maybe<nat> {
    var t := width / 3;
    if cPos - last > width - 2 then Some(if cPos < 2 * t then 0 else cPos - 2 * t)
    else if cPos < width - 2 then Some(0)
    else if cPos - last >= 1 then Some(last)
    else if t == 0 then None
    else Some(if cPos == 0 then 0 else (cPos - 1) / t * t)
  }

  /** The line with `<` and `>` where it goes on beyond the row. */
  function Marked(line: seq<char>, margin: nat, width: nat): (r: seq<char>)
    ensures |r| == |line|
  {
    seq(|line|, i requires 0 <= i < |line| =>
      if margin + width < |line| && i == margin + width - 1 then '>'
      else if 0 < margin == i then '<'
      else line[i])
  }

  /** The part of a line that is shown from a margin on. */
  function From(line: seq<char>, margin: nat, width: nat): Line
    requires margin <= |line|
  {
    Line(line[margin..], width)
  }

  function ScrollScript(caps: Caps, width: nat, col: nat, visible: seq<char>, last: nat,
                        line: seq<char>, margin: nat, cPos: nat): Update
    requires '\0' !in visible && '\0' !in line && last <= |visible| && margin <= cPos <= |line|
  {
    var wanted := From(Marked(line, margin, width), margin, width);
    FromIsValid(visible, last, width);
    MarkedIsValid(line, margin, width);
    var u := UpdateScript(caps, width, col, From(visible, last, width), wanted);
    Update(u.cmds + MoveScript(caps, u.col, cPos - margin, wanted.text), cPos - margin)
  }

  lemma FromIsValid(line: seq<char>, margin: nat, width: nat)
    requires '\0' !in line && margin <= |line|
    ensures From(line, margin, width).Valid()
  {
  }

  lemma MarkedIsValid(line: seq<char>, margin: nat, width: nat)
    requires '\0' !in line && margin <= |line|
    ensures '\0' !in Marked(line, margin, width) && From(Marked(line, margin, width), margin, width).Valid()
  {
    FromIsValid(Marked(line, margin, width), margin, width);
  }

  // --------------------------------------------------------- where the margin is

  /** The margin is inside the line and the cursor inside the row. */
  predicate Fits(m: Maybe<nat>, cPos: nat, length: nat, width: nat) {
    m.Some? && (m.value == 0 || m.value < length) && m.value <= cPos < m.value + width
  }

  /** The cursor stands on a character of the line, not on one of the marks. */
  predicate Seen(m: Maybe<nat>, cPos: nat, length: nat, width: nat) {
    && Fits(m, cPos, length, width)
    && (m.value > 0 ==> cPos > m.value)
    && (m.value + width < length ==> cPos < m.value + width - 1)
  }

  lemma MarginFits(cPos: nat, last: nat, length: nat, width: nat)
    requires width >= 3 && cPos <= length
    ensures Fits(Margin(cPos, last, width), cPos, length, width)
    ensures width >= 4 ==> Seen(Margin(cPos, last, width), cPos, length, width)
  {
    var t := width / 3;
    if cPos > 0 {
      RoundedDown(cPos - 1, t);
    }
  }

  lemma RoundedDown(x: nat, t: nat)
    requires t > 0
    ensures x - t < x / t * t <= x
  {
    assert x == x / t * t + x % t;
  }

  /** The cursor is off the row, the code divides by zero, the cursor is on the mark. */
  lemma TooNarrow()
    ensures !Fits(Margin(1, 0, 0), 1, 1, 0) && !Fits(Margin(1, 0, 1), 1, 1, 1)
    ensures Margin(0, 0, 2) == None
    ensures Fits(Margin(2, 0, 3), 2, 4, 3) && !Seen(Margin(2, 0, 3), 2, 4, 3)
  {
  }

  /** The margin is right for all lines exactly on screens of three columns or more. */
  lemma MarginFitsIff(width: nat)
    ensures (forall cPos: nat, last: nat, length: nat | cPos <= length ::
              Fits(Margin(cPos, last, width), cPos, length, width))
            <==> width >= 3
  {
    if width >= 3 {
      forall cPos: nat, last: nat, length: nat | cPos <= length
        ensures Fits(Margin(cPos, last, width), cPos, length, width)
      {
        MarginFits(cPos, last, length, width);
      }
    } else {
      assert width == 2 ==> !Fits(Margin(0, 0, width), 0, 0, width);
      assert width < 2 ==> !Fits(Margin(1, 0, width), 1, 1, width);
    }
  }

  /** The cursor is never on a mark exactly on screens of four columns or more. */
  lemma CursorIsSeenIff(width: nat)
    ensures (forall cPos: nat, last: nat, length: nat | cPos <= length ::
              Seen(Margin(cPos, last, width), cPos, length, width))
            <==> width >= 4
  {
    if width >= 4 {
      forall cPos: nat, last: nat, length: nat | cPos <= length
        ensures Seen(Margin(cPos, last, width), cPos, length, width)
      {
        MarginFits(cPos, last, length, width);
      }
    } else if width == 3 {
      assert !Seen(Margin(2, 0, 3), 2, 4, 3);
    } else {
      assert width == 2 ==> !Seen(Margin(0, 0, width), 0, 0, width);
      assert width < 2 ==> !Seen(Margin(1, 0, width), 1, 1, width);
    }
  }

  /** The margin stays exactly as long as the cursor is on the row, neither in its first
      column nor in its last, and the beginning of the line would not do; at the beginning
      of the line the first column will do too, and on three columns the last one. */
  lemma MarginStaysIff(cPos: nat, last: nat, width: nat)
    requires width >= 3
    ensures Margin(cPos, last, width) == Some(last) <==>
      || (last == 0 && cPos <= width - 2)
      || (last > 0 && last < cPos <= last + width - 2 && width - 2 <= cPos)
      || (width == 3 && cPos == last + 2)
  {
    if cPos > 0 {
      RoundedDown(cPos - 1, width / 3);
    }
  }

  /** A redisplay repeated for the same line and cursor keeps the margin. */
  lemma MarginIsStable(cPos: nat, last: nat, width: nat)
    requires width >= 3
    ensures var m := Margin(cPos, last, width);
      m.Some? && Margin(cPos, m.value, width) == m
  {
    if cPos > 0 {
      RoundedDown(cPos - 1, width / 3);
    }
  }

  /** Moving the cursor from one column to another, both inside, keeps the margin. */
  lemma MotionKeepsMargin(cPos: nat, to: nat, last: nat, width: nat)
    requires width >= 3
    requires var m := Margin(cPos, last, width);
      m.Some? && m.value < to <= m.value + width - 2 && (m.value == 0 || width - 2 <= to)
    ensures Margin(to, Margin(cPos, last, width).value, width) == Margin(cPos, last, width)
  {
    MarginStaysIff(to, Margin(cPos, last, width).value, width);
  }

  /** Scrolling to the right leaves the cursor two thirds of the row from its start, or
      shows the beginning of the line; scrolling to the left goes by thirds of a row and
      leaves the cursor in the first one. */
  lemma ScrollsByThirds(cPos: nat, last: nat, width: nat)
    requires width >= 3
    ensures var m, third := Margin(cPos, last, width).value, width / 3;
      && (cPos > last + width - 2 ==> m == 0 || cPos == m + 2 * third)
      && (0 < cPos <= last && width - 2 <= cPos ==> m % third == 0 && m < cPos <= m + third)
  {
    var third := width / 3;
    if cPos > 0 {
      RoundedDown(cPos - 1, third);
      Multiple((cPos - 1) / third, third);
    }
  }

  lemma Multiple(q: nat, t: nat)
    requires t > 0
    ensures q * t % t == 0
  {
    var m := q * t;
    var p, r := m / t, m % t;
    assert m == p * t + r;
    if p < q {
      LessTimes(p, q, t);
    } else if q < p {
      LessTimes(q, p, t);
    }
  }

  lemma LessTimes(a: nat, b: nat, t: nat)
    requires a < b
    ensures a * t + t <= b * t
  {
    assert (a + 1) * t <= b * t;
  }

  // --------------------------------------------------------------- what is shown

  /** The row shows the line from the margin on, and nothing else. */
  predicate ShowsFrom(row: Row, line: seq<char>, margin: nat, width: nat) {
    && '\0' !in line && margin <= |line| && row.col <= width < |row.cells|
    && row == Row(Pad(From(line, margin, width).Window(), |row.cells|), row.col, false)
  }

  /** Which cells those are: the line from the margin on, with a mark in the first column
      when there is something before it and in the last when there is something behind. */
  lemma MarkedCells(row: Row, line: seq<char>, m: nat, width: nat)
    requires ShowsFrom(row, Marked(line, m, width), m, width) && m <= |line| && width >= 2
    ensures forall i: nat | i < |row.cells| ::
      row.cells[i] ==
      if i == 0 && m > 0 && m < |line| then '<'
      else if i == width - 1 && m + width < |line| then '>'
      else if i < width && m + i < |line| then line[m + i]
      else ' '
  {
  }

  lemma ShownIs(row: Row, line: seq<char>, margin: nat, width: nat)
    requires ShowsFrom(row, line, margin, width)
    ensures '\0' !in line && margin <= |line|
  {
  }

  /** One redisplay: the row shows the new line from its margin on, marked where it
      goes on, and the cursor is at the editing position. */
  lemma ScrollShows(caps: Caps, shifts: bool, width: nat, t: Row, visible: seq<char>, last: nat,
                    line: seq<char>, cPos: nat)
    requires Adequate(caps, shifts) && width >= 3
    requires ShowsFrom(t, visible, last, width) && '\0' !in line && cPos <= |line|
    ensures var m := Margin(cPos, last, width);
      && Fits(m, cPos, |line|, width)
      && var u := ScrollScript(caps, width, t.col, visible, last, line, m.value, cPos);
         var t' := Run(shifts, t, u.cmds);
         ShowsFrom(t', Marked(line, m.value, width), m.value, width) && u.col == t'.col == cPos - m.value
         && |t'.cells| == |t.cells|
  {
    hide ScrollScript, Marked, Margin, Adequate, Run, ShowsFrom;
    MarginFits(cPos, last, |line|, width);
    var m := Margin(cPos, last, width).value;
    ShownIs(t, visible, last, width);
    DrawsFrom(caps, shifts, width, t, visible, last, line, m, cPos);
  }

  /** Drawing the line from any margin that fits. */
  lemma DrawsFrom(caps: Caps, shifts: bool, width: nat, t: Row, visible: seq<char>, last: nat,
                  line: seq<char>, m: nat, cPos: nat)
    requires Adequate(caps, shifts) && '\0' !in line && m <= cPos <= |line| && cPos - m < width
    requires ShowsFrom(t, visible, last, width) && '\0' !in visible && last <= |visible|
    ensures var u := ScrollScript(caps, width, t.col, visible, last, line, m, cPos);
      var t' := Run(shifts, t, u.cmds);
      && ShowsFrom(t', Marked(line, m, width), m, width) && u.col == t'.col == cPos - m
      && |t'.cells| == |t.cells|
  {
    hide UpdateScript, MoveScript, Marked, Adequate, Run;
    FromIsValid(visible, last, width);
    MarkedIsValid(line, m, width);
    var shown, wanted := From(visible, last, width), From(Marked(line, m, width), m, width);
    UpdateShowsWindow(caps, shifts, width, shown, wanted, t);
    var u := UpdateScript(caps, width, t.col, shown, wanted);
    var t1 := Run(shifts, t, u.cmds);
    MovesInWindow(caps, shifts, width, t1, wanted, cPos - m);
    RunAppend(shifts, t, u.cmds, MoveScript(caps, u.col, cPos - m, wanted.text));
  }

  /** The cursor motion on a row that shows a window. */
  lemma MovesInWindow(caps: Caps, shifts: bool, width: nat, t: Row, wanted: Line, to: nat)
    requires Adequate(caps, shifts) && to <= |wanted.text| && to < width == wanted.max && t.col <= width < |t.cells|
    requires t == Row(Pad(wanted.Window(), |t.cells|), t.col, false)
    ensures Run(shifts, t, MoveScript(caps, t.col, to, wanted.text)) == t.(col := to)
  {
    assert t.cells[..to] == wanted.text[..to];
    MoveMoves(caps, shifts, t, to, wanted.text);
  }

  /** A run of redisplays: the margins, and what is on the row in the end. */
  function AfterAll(caps: Caps, shifts: bool, width: nat, t: Row, visible: seq<char>, last: nat,
                    edits: seq<(seq<char>, nat)>): (Row, seq<char>, nat)
    requires width >= 3 && '\0' !in visible && last <= |visible|
    requires forall e | e in edits :: '\0' !in e.0 && e.1 <= |e.0|
    decreases |edits|
  {
    if edits == [] then (t, visible, last)
    else
      var (line, cPos) := edits[0];
      assert edits[0] in edits;
      MarginFits(cPos, last, |line|, width);
      var m := Margin(cPos, last, width).value;
      MarkedIsValid(line, m, width);
      var u := ScrollScript(caps, width, t.col, visible, last, line, m, cPos);
      AfterAll(caps, shifts, width, Run(shifts, t, u.cmds), Marked(line, m, width), m, edits[1..])
  }

  /** However the line is edited and the cursor moved, the row shows what it should
      after every redisplay. */
  lemma {:induction false} AllScrollsShow(caps: Caps, shifts: bool, width: nat, t: Row, visible: seq<char>, last: nat,
                                          edits: seq<(seq<char>, nat)>)
    requires Adequate(caps, shifts) && width >= 3 && ShowsFrom(t, visible, last, width)
    requires forall e | e in edits :: '\0' !in e.0 && e.1 <= |e.0|
    ensures var (t', visible', last') := AfterAll(caps, shifts, width, t, visible, last, edits);
      && ShowsFrom(t', visible', last', width)
      && (edits != [] ==>
            var (line, cPos) := edits[|edits| - 1];
            visible' == Marked(line, last', width) && last' + t'.col == cPos)
    decreases |edits|
  {
    hide ScrollScript, ShowsFrom, Marked, Margin, Adequate, Run;
    ShownIs(t, visible, last, width);
    if edits != [] {
      var (line, cPos) := edits[0];
      assert edits[0] in edits;
      ScrollShows(caps, shifts, width, t, visible, last, line, cPos);
      var m := Margin(cPos, last, width).value;
      var u := ScrollScript(caps, width, t.col, visible, last, line, m, cPos);
      AllScrollsShow(caps, shifts, width, Run(shifts, t, u.cmds), Marked(line, m, width), m, edits[1..]);
      assert |edits| > 1 ==> edits[1..][|edits| - 2] == edits[|edits| - 1];
    }
  }
}
