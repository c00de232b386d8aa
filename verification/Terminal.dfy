/** One row of a character terminal and the commands termcap can send to it.
    The display code of libs/readline/display.c is judged by what these
    commands leave on the row. */
module Terminal {

  /** A termcap string as the C code sees it: a null pointer, the empty string,
      or a sequence that really does what its name says. */
  datatype Cap = Absent | Empty | Code

  /** The capabilities display.c consults, by their termcap names. */
  datatype Caps = Caps(
    cr: Cap, le: Cap, ce: Cap,  // carriage return, backspace, clear to end of line
    IC: Cap, ic: Cap,           // open N blanks, open one blank
    im: Cap, ei: Cap,           // enter and leave insert mode
    DC: Cap, dc: Cap,           // delete N characters, delete one
    up: Cap)                    // cursor up

  datatype Cmd =
    | Put(c: char) | Return | Back | ClearEol
    | OpenN(n: nat) | Open1 | EnterInsert | LeaveInsert
    | DeleteN(n: nat) | Delete1

  /** `pushing`: a printed character shifts the rest of the row to the right. */
  datatype Row = Row(cells: seq<char>, col: nat, pushing: bool)

  function Blanks(n: nat): (s: seq<char>)
  {
    seq(n, _ => ' ')
  }

  /** The row that shows `s` and nothing else. */
  function Pad(s: seq<char>, width: nat): (r: seq<char>)
    requires |s| <= width
    ensures |r| == width && s <= r
  {
    s + Blanks(width - |s|)
  }

  /** `n` blanks opened at `col`; what is pushed past the right edge is lost. */
  function OpenGap(cells: seq<char>, col: nat, n: nat): (r: seq<char>)
  {
    seq(|cells|, i requires 0 <= i < |cells| =>
      if i < col then cells[i] else if i < col + n then ' ' else cells[i - n])
  }

  /** `n` characters removed at `col`; blanks enter from the right. */
  function CloseGap(cells: seq<char>, col: nat, n: nat): (r: seq<char>)
  {
    seq(|cells|, i requires 0 <= i < |cells| =>
      if i < col then cells[i] else if i + n < |cells| then cells[i + n] else ' ')
  }

  /** `s` written over the cells from `col` on. */
  function Overwrite(cells: seq<char>, col: nat, s: seq<char>): (r: seq<char>)
  {
    seq(|cells|, i requires 0 <= i < |cells| =>
      if col <= i < col + |s| then s[i - col] else cells[i])
  }

  /** `s` pushed in at `col`. */
  function Insert(cells: seq<char>, col: nat, s: seq<char>): (r: seq<char>)
  {
    Overwrite(OpenGap(cells, col, |s|), col, s)
  }

  /** What one command does.  `shifts` is a property of the terminal: whether
      its insert mode makes printing push the rest of the row (as opposed to
      merely enabling `ic`).  At the right margin printing has no effect here:
      the lines display.c draws never reach it. */
  function Step(shifts: bool, t: Row, c: Cmd): (r: Row)
    ensures |r.cells| == |t.cells|
    ensures t.col < |t.cells| ==> r.col <= |t.cells|
  {
    if t.col >= |t.cells| then t else
    match c
    case Put(ch) =>
      var base := if t.pushing then OpenGap(t.cells, t.col, 1) else t.cells;
      t.(cells := base[t.col := ch], col := t.col + 1)
    case Return => t.(col := 0)
    case Back => if t.col == 0 then t else t.(col := t.col - 1)
    case ClearEol => t.(cells := t.cells[..t.col] + Blanks(|t.cells| - t.col))
    case OpenN(n) => t.(cells := OpenGap(t.cells, t.col, n))
    case Open1 => t.(cells := OpenGap(t.cells, t.col, 1))
    case EnterInsert => t.(pushing := shifts)
    case LeaveInsert => t.(pushing := false)
    case DeleteN(n) => t.(cells := CloseGap(t.cells, t.col, n))
    case Delete1 => t.(cells := CloseGap(t.cells, t.col, 1))
  }

  function Run(shifts: bool, t: Row, cmds: seq<Cmd>): (r: Row)
    decreases |cmds|
  {
    if cmds == [] then t else Run(shifts, Step(shifts, t, cmds[0]), cmds[1..])
  }

  function Puts(s: seq<char>): (cmds: seq<Cmd>)
  {
    seq(|s|, i requires 0 <= i < |s| => Put(s[i]))
  }

  function Repeat(c: Cmd, n: nat): (cmds: seq<Cmd>)
  {
    seq(n, _ => c)
  }

  // ---------------------------------------------------------------- lemmas

  lemma {:induction false} RunAppend(shifts: bool, t: Row, a: seq<Cmd>, b: seq<Cmd>)
    ensures Run(shifts, t, a + b) == Run(shifts, Run(shifts, t, a), b)
    decreases |a|
  {
    if a == [] {
      assert a + b == b;
    } else {
      assert (a + b)[1..] == a[1..] + b;
      RunAppend(shifts, Step(shifts, t, a[0]), a[1..], b);
    }
  }

  /** Printing without insert mode overwrites. */
  lemma {:induction false} RunPuts(shifts: bool, t: Row, s: seq<char>)
    requires !t.pushing && t.col + |s| < |t.cells|
    ensures Run(shifts, t, Puts(s)) == Row(Overwrite(t.cells, t.col, s), t.col + |s|, false)
    decreases |s|
  {
    if s == [] {
      assert Overwrite(t.cells, t.col, s) == t.cells;
    } else {
      assert Puts(s)[1..] == Puts(s[1..]);
      var t' := Step(shifts, t, Put(s[0]));
      RunPuts(shifts, t', s[1..]);
      assert Overwrite(t'.cells, t'.col, s[1..]) == Overwrite(t.cells, t.col, s);
    }
  }

  lemma InsertFirst(cells: seq<char>, col: nat, s: seq<char>)
    requires s != [] && col < |cells|
    ensures Insert(OpenGap(cells, col, 1)[col := s[0]], col + 1, s[1..]) == Insert(cells, col, s)
  {
    var a, b := Insert(OpenGap(cells, col, 1)[col := s[0]], col + 1, s[1..]), Insert(cells, col, s);
    forall i | 0 <= i < |cells|
      ensures a[i] == b[i]
    {
    }
  }

  /** Printing in a pushing insert mode inserts. */
  lemma {:induction false} RunPutsPushing(shifts: bool, t: Row, s: seq<char>)
    requires t.pushing && t.col + |s| < |t.cells|
    ensures Run(shifts, t, Puts(s)) == Row(Insert(t.cells, t.col, s), t.col + |s|, true)
    decreases |s|
  {
    if s == [] {
      assert Insert(t.cells, t.col, s) == t.cells;
    } else {
      assert Puts(s)[1..] == Puts(s[1..]);
      var t' := Step(shifts, t, Put(s[0]));
      InsertFirst(t.cells, t.col, s);
      RunPutsPushing(shifts, t', s[1..]);
    }
  }

  lemma {:induction false} RunBacks(shifts: bool, t: Row, n: nat)
    requires n <= t.col < |t.cells|
    ensures Run(shifts, t, Repeat(Back, n)) == t.(col := t.col - n)
    decreases n
  {
    if n > 0 {
      assert Repeat(Back, n)[1..] == Repeat(Back, n - 1);
      RunBacks(shifts, t.(col := t.col - 1), n - 1);
    }
  }

  /** Opening one blank n times is opening n blanks. */
  lemma {:induction false} RunOpen1s(shifts: bool, t: Row, n: nat)
    requires t.col < |t.cells|
    ensures Run(shifts, t, Repeat(Open1, n)) == Step(shifts, t, OpenN(n))
    decreases n
  {
    if n == 0 {
      assert OpenGap(t.cells, t.col, 0) == t.cells;
    } else {
      assert Repeat(Open1, n)[1..] == Repeat(Open1, n - 1);
      var t' := Step(shifts, t, Open1);
      RunOpen1s(shifts, t', n - 1);
      assert OpenGap(t'.cells, t.col, n - 1) == OpenGap(t.cells, t.col, n);
    }
  }

  /** Deleting one character n times is deleting n characters. */
  lemma {:induction false} RunDelete1s(shifts: bool, t: Row, n: nat)
    requires t.col < |t.cells|
    ensures Run(shifts, t, Repeat(Delete1, n)) == Step(shifts, t, DeleteN(n))
    decreases n
  {
    if n == 0 {
      assert CloseGap(t.cells, t.col, 0) == t.cells;
    } else {
      assert Repeat(Delete1, n)[1..] == Repeat(Delete1, n - 1);
      var t' := Step(shifts, t, Delete1);
      RunDelete1s(shifts, t', n - 1);
      assert CloseGap(t'.cells, t.col, n - 1) == CloseGap(t.cells, t.col, n);
    }
  }
}
