/** Redrawing one screen line: update_line of libs/readline/display.c and the
    routines it calls, for lines without invisible prompt characters on a
    terminal without automatic margins.  Each routine is a method that appends
    commands to the output; the `...Script` functions say which commands, and
    the lemmas say what those commands do to the row. */
module Display {
  import opened Terminal

  /** A line handed to update_line: the characters from its pointer up to the
      next NUL of the buffer, and the length its caller allows it. */
  datatype Line = Line(text: seq<char>, max: nat)
  {
    predicate Valid() { '\0' !in text }

    function Window(): seq<char> {
      if |text| <= max then text else text[..max]
    }
  }

  /** Reading a C string. */
  function At(s: seq<char>, i: nat): char {
    if i < |s| then s[i] else '\0'
  }

  // ------------------------------------------------- comparing the two lines

  function FirstDiff(shown: Line, wanted: Line, k: nat): (d: nat)
    requires k <= |shown.Window()|
    ensures k <= d <= |shown.Window()|
    decreases |shown.text| - k
  {
    if k < shown.max && At(shown.text, k) != '\0' && At(shown.text, k) == At(wanted.text, k)
    then FirstDiff(shown, wanted, k + 1) else k
  }

  /** Where the scan for the end of the new line stops: at the end of its
      window, or at the first difference when that lies further right. */
  function NewEnd(wanted: Line, d: nat): (ne: nat)
    ensures d <= ne
  {
    if d <= |wanted.Window()| then |wanted.Window()| else d
  }

  function SkipSame(shown: seq<char>, wanted: seq<char>, d: nat, ols: int, nls: int, ws: bool): (r: (int, int, bool))
    requires ols < |shown| && nls < |wanted|
    decreases ols
  {
    if ols > d && nls > d && shown[ols] == wanted[nls]
    then SkipSame(shown, wanted, d, ols - 1, nls - 1, ws && shown[ols] == ' ')
    else (ols, nls, ws)
  }

  /** The starts, in both lines, of the tail they share. */
  function TailStart(shown: seq<char>, wanted: seq<char>, d: nat, oe: nat, ne: nat): (r: (nat, nat))
    requires d <= oe <= |shown| && d <= ne <= |wanted|
    requires d < oe && d < ne ==> shown[d] != wanted[d]
  {
    var (ols, nls, ws) := SkipSame(shown, wanted, d, oe - 1, ne - 1, true);
    SkipSameMeans(shown, wanted, d, oe, ne, oe - 1, ne - 1, true);
    if ws then (oe, ne)
    else if shown[ols] != wanted[nls] then
      (if shown[ols] != '\0' then ols + 1 else ols, if wanted[nls] != '\0' then nls + 1 else nls)
    else (ols, nls)
  }

  lemma {:induction false} SkipSameMeans(shown: seq<char>, wanted: seq<char>, d: nat, oe: nat, ne: nat, ols: int,
                                         nls: int, ws: bool)
    requires d <= oe <= |shown| && d <= ne <= |wanted|
    requires d - 1 <= ols < oe && d - 1 <= nls < ne
    requires oe - ols == ne - nls && shown[ols + 1..oe] == wanted[nls + 1..ne]
    requires !ws ==> d <= ols && d <= nls
    ensures var (o, n, w) := SkipSame(shown, wanted, d, ols, nls, ws);
            && d - 1 <= o < oe && d - 1 <= n < ne
            && oe - o == ne - n && shown[o + 1..oe] == wanted[n + 1..ne]
            && (!w ==> d <= o && d <= n && (o == d || n == d || shown[o] != wanted[n]))
    decreases ols
  {
    if ols > d && nls > d && shown[ols] == wanted[nls] {
      OneMoreShared(shown, wanted, oe, ne, ols, nls);
      SkipSameMeans(shown, wanted, d, oe, ne, ols - 1, nls - 1, ws && shown[ols] == ' ');
    }
  }

  lemma OneMoreShared(shown: seq<char>, wanted: seq<char>, oe: nat, ne: nat, o: nat, n: nat)
    requires o < oe <= |shown| && n < ne <= |wanted| && shown[o] == wanted[n]
    requires shown[o + 1..oe] == wanted[n + 1..ne]
    ensures shown[o..oe] == wanted[n..ne]
  {
    assert shown[o..oe] == [shown[o]] + shown[o + 1..oe];
    assert wanted[n..ne] == [wanted[n]] + wanted[n + 1..ne];
  }

  lemma TailIsShared(shown: seq<char>, wanted: seq<char>, d: nat, oe: nat, ne: nat)
    requires d <= oe <= |shown| && d <= ne <= |wanted|
    requires d < oe && d < ne ==> shown[d] != wanted[d]
    requires '\0' !in shown && '\0' !in wanted
    ensures var (ols, nls) := TailStart(shown, wanted, d, oe, ne);
            && d <= ols <= oe && d <= nls <= ne
            && oe - ols == ne - nls && shown[ols..oe] == wanted[nls..ne]
  {
    SkipSameMeans(shown, wanted, d, oe, ne, oe - 1, ne - 1, true);
    var (o, n, w) := SkipSame(shown, wanted, d, oe - 1, ne - 1, true);
    if !w {
      assert shown[o] in shown && wanted[n] in wanted;
      assert shown[o..oe] == [shown[o]] + shown[o + 1..oe];
      assert wanted[n..ne] == [wanted[n]] + wanted[n + 1..ne];
    }
  }

  /** A tail both lines share behind the first difference. */
  predicate Shares(shown: seq<char>, wanted: seq<char>, d: nat, oe: nat, ne: nat, m: nat)
    requires d <= oe <= |shown| && d <= ne <= |wanted|
  {
    d + m < oe && d + m < ne && shown[oe - m..oe] == wanted[ne - m..ne]
  }

  /** No longer tail is shared, unless all that is shared are blanks; these are drawn
      again. */
  lemma TailIsLongest(shown: seq<char>, wanted: seq<char>, d: nat, oe: nat, ne: nat, m: nat)
    requires d <= oe <= |shown| && d <= ne <= |wanted|
    requires d < oe && d < ne ==> shown[d] != wanted[d]
    requires '\0' !in shown && '\0' !in wanted && Shares(shown, wanted, d, oe, ne, m)
    ensures var (ols, nls) := TailStart(shown, wanted, d, oe, ne);
      m <= oe - ols || forall i | oe - m <= i < oe :: shown[i] == ' '
  {
    hide SkipSame;
    SkipSameMeans(shown, wanted, d, oe, ne, oe - 1, ne - 1, true);
    SkipSameBlanks(shown, wanted, d, oe - 1, ne - 1, true);
    var a, b := shown[oe - m..oe], wanted[ne - m..ne];
    assert forall k | 0 <= k < m :: a[k] == b[k];
    assert forall k | oe - m <= k < oe :: shown[k] == a[k - (oe - m)];
    assert forall k | ne - m <= k < ne :: wanted[k] == b[k - (ne - m)];
  }

  lemma {:induction false} SkipSameBlanks(shown: seq<char>, wanted: seq<char>, d: nat, ols: int, nls: int, ws: bool)
    requires -1 <= ols < |shown| && -1 <= nls < |wanted|
    ensures var (o, n, w) := SkipSame(shown, wanted, d, ols, nls, ws);
      && -1 <= o <= ols && -1 <= n <= nls && (w ==> ws && forall i | o < i <= ols :: shown[i] == ' ')
      && (o <= d || n <= d || shown[o] != wanted[n])
    decreases ols + 1
  {
    if ols > d && nls > d && shown[ols] == wanted[nls] {
      SkipSameBlanks(shown, wanted, d, ols - 1, nls - 1, ws && shown[ols] == ' ');
    }
  }

  lemma {:induction false} FirstDiffMeans(shown: Line, wanted: Line, k: nat)
    requires shown.Valid() && wanted.Valid()
    requires k <= |shown.Window()| && k <= |wanted.text| && shown.text[..k] == wanted.text[..k]
    ensures var d := FirstDiff(shown, wanted, k);
            && d <= |wanted.text| && shown.text[..d] == wanted.text[..d]
            && (d < |shown.Window()| && d < |wanted.text| ==> shown.text[d] != wanted.text[d])
    decreases |shown.text| - k
  {
    if k < |shown.Window()| {
      assert shown.text[k] in shown.text;
      if shown.text[k] == At(wanted.text, k) {
        assert shown.text[..k + 1] == shown.text[..k] + [shown.text[k]];
        assert wanted.text[..k + 1] == wanted.text[..k] + [wanted.text[k]];
        FirstDiffMeans(shown, wanted, k + 1);
      }
    }
  }

  /** The result of comparing two lines: first difference, starts of the shared
      tail in the old and in the new line, ends of both lines. */
  datatype Diff = Diff(d: nat, ols: nat, nls: nat, oe: nat, ne: nat)

  function Compare(shown: Line, wanted: Line): Diff
    requires shown.Valid() && wanted.Valid()
  {
    var d := FirstDiff(shown, wanted, 0);
    FirstDiffMeans(shown, wanted, 0);
    var oe, ne := |shown.Window()|, NewEnd(wanted, d);
    var (ols, nls) := TailStart(shown.text, wanted.text, d, oe, ne);
    Diff(d, ols, nls, oe, ne)
  }

  /** Old line and new line have a common head of length c.d and a common tail
      starting at c.ols in one, at c.nls in the other. */
  predicate Compared(sh: seq<char>, wt: seq<char>, c: Diff) {
    && c.d <= c.ols <= c.oe == |sh| && c.d <= c.nls <= c.ne == |wt| && sh[..c.d] == wt[..c.d]
    && c.oe - c.ols == c.ne - c.nls && sh[c.ols..] == wt[c.nls..]
  }

  lemma ComparesLines(shown: Line, wanted: Line)
    requires shown.Valid() && wanted.Valid()
    ensures var c := Compare(shown, wanted);
            && c.d == FirstDiff(shown, wanted, 0) && c.ne == NewEnd(wanted, c.d) <= |wanted.text|
            && c.d <= |shown.text|
            && Compared(shown.Window(), wanted.text[..c.ne], c)
            && (c.d == c.oe && c.d == c.ne ==> shown.Window() == wanted.text[..c.ne])
  {
    hide FirstDiff, SkipSame, TailStart;
    FirstDiffMeans(shown, wanted, 0);
    var c := Compare(shown, wanted);
    TailIsShared(shown.text, wanted.text, c.d, c.oe, c.ne);
    var sh, wt := shown.Window(), wanted.text[..c.ne];
    assert sh[..c.d] == shown.text[..c.d] == wanted.text[..c.d] == wt[..c.d];
    assert sh[c.ols..] == shown.text[c.ols..c.oe] && wt[c.nls..] == wanted.text[c.nls..c.ne];
  }

  // ------------------------------------------------------------- the scripts

  datatype Update = Update(cmds: seq<Cmd>, col: nat)

  function IfCode(cap: Cap, c: Cmd): seq<Cmd> {
    if cap == Code then [c] else []
  }

  /** A missing `cr` is replaced by an explicit carriage return. */
  function ReturnScript(caps: Caps): seq<Cmd> {
    if caps.cr != Empty then [Return] else []
  }

  function BackScript(caps: Caps, n: nat): seq<Cmd> {
    if caps.le != Empty then Repeat(Back, n) else []
  }

  /** Forward by printing what is on the screen already, back by backspaces. */
  function StraightScript(caps: Caps, from: nat, to: nat, data: seq<char>): seq<Cmd>
    requires to <= |data|
  {
    if from < to then Puts(data[from..to]) else BackScript(caps, from - to)
  }

  function MoveScript(caps: Caps, from: nat, to: nat, data: seq<char>): seq<Cmd>
    requires to <= |data|
  {
    if from == to then []
    else if to == 0 || to + 1 < from - to then ReturnScript(caps) + StraightScript(caps, 0, to, data)
    else StraightScript(caps, from, to, data)
  }

  function InsertScript(caps: Caps, s: seq<char>): seq<Cmd> {
    if caps.IC != Absent then IfCode(caps.IC, OpenN(|s|)) + Puts(s)
    else IfCode(caps.im, EnterInsert)
         + ((if caps.ic == Code then Repeat(Open1, |s|) else [])
            + (Puts(s) + IfCode(caps.ei, LeaveInsert)))
  }

  function DeleteScript(caps: Caps, width: nat, count: nat): seq<Cmd> {
    if count > width then []
    else if caps.DC == Code then [DeleteN(count)]
    else if caps.dc == Code then Repeat(Delete1, count)
    else []
  }

  /** Clearing to the end of the line; with spaces, the cursor moves too. */
  function ClearScript(caps: Caps, count: nat): Update {
    if caps.ce != Absent then Update(IfCode(caps.ce, ClearEol), 0)
    else Update(Puts(Blanks(count)), count)
  }

  /** `terminal_can_insert`. */
  predicate CanInsert(caps: Caps) {
    caps.IC != Absent || caps.im != Absent || caps.ic != Absent
  }

  /** The new line is longer by `k`: `text` is the new line, `d` the first
      difference, `nls` the start of the shared tail; `atEnd` when the old line
      has no tail to push. */
  function GrowScript(caps: Caps, atEnd: bool, text: seq<char>, d: nat, nls: nat, k: nat): Update
    requires d + k <= nls <= |text|
  {
    var temp := |text| - d;
    if CanInsert(caps) && (2 * temp >= k || caps.IC != Absent) then
      var head := text[d..d + k];
      var first := if atEnd then Puts(head) else InsertScript(caps, head);
      if nls - d > k
      then Update(first + Puts(text[d + k..nls]), nls)
      else Update(first, d + k)
    else Update(Puts(text[d..]), |text|)
  }

  /** The new line is shorter by `k`; `excess` is how much of the old line
      would stay visible to its right. */
  function ShrinkScript(caps: Caps, width: nat, text: seq<char>, d: nat, nls: nat, k: nat, excess: nat): Update
    requires d <= nls <= |text|
  {
    var temp := |text| - d;
    if caps.dc != Absent && 2 * temp >= k then
      var close := if k != 0 then DeleteScript(caps, width, k) else [];
      Update(close + Puts(text[d..nls]), nls)
    else
      var clear := ClearScript(caps, excess);
      Update(Puts(text[d..]) + clear.cmds, |text| + clear.col)
  }

  /** From the first difference on: insertions and deletions. */
  function ChangeScript(caps: Caps, width: nat, shown: Line, text: seq<char>, c: Diff): Update
    requires c.d <= c.ols && c.d <= c.nls <= |text|
  {
    if c.nls > c.ols
    then GrowScript(caps, At(shown.text, c.ols) == '\0', text, c.d, c.nls, c.nls - c.ols)
    else ShrinkScript(caps, width, text, c.d, c.nls, c.ols - c.nls, if c.oe >= |text| then c.oe - |text| else 0)
  }

  /** Old line and new line differ: go to the first difference and rewrite. */
  function RedrawScript(caps: Caps, width: nat, col: nat, shown: Line, text: seq<char>, c: Diff): Update
    requires c.d <= |shown.text| && c.d <= c.ols && c.d <= c.nls <= |text|
  {
    var body := ChangeScript(caps, width, shown, text, c);
    Update(MoveScript(caps, col, c.d, shown.text) + body.cmds, body.col)
  }

  function UpdateScript(caps: Caps, width: nat, col: nat, shown: Line, wanted: Line): Update
    requires shown.Valid() && wanted.Valid()
  {
    ComparesLines(shown, wanted);
    var c := Compare(shown, wanted);
    if c.d == c.oe && c.d == c.ne then Update([], col)
    else RedrawScript(caps, width, col, shown, wanted.text[..c.ne], c)
  }

  // ------------------------------------------------ what the scripts achieve

  /** The terminal description tells the truth about this terminal: exactly
      what update_line relies on, no more (see OnlyAdequateCapsWork). */
  predicate Adequate(caps: Caps, shifts: bool) {
    && caps.cr != Empty && caps.le != Empty && caps.ce != Empty
    && (caps.dc == Absent || caps.dc == Code || caps.DC == Code)
    && (CanInsert(caps) ==> CanReallyInsert(caps, shifts))
  }

  /** Either `IC` works, or exactly one of `ic` and a pushing insert mode does,
      and the pushing mode can be left again. */
  predicate CanReallyInsert(caps: Caps, shifts: bool) {
    if caps.IC != Absent then caps.IC == Code
    else
      var pushing := caps.im == Code && shifts;
      (caps.ic == Code) != pushing && (pushing ==> caps.ei == Code)
  }

  lemma StraightMoves(caps: Caps, shifts: bool, t: Row, to: nat, data: seq<char>)
    requires caps.le != Empty
    requires !t.pushing && t.col < |t.cells| && to <= |data| && to < |t.cells|
    requires t.cells[..to] == data[..to]
    ensures Run(shifts, t, StraightScript(caps, t.col, to, data)) == t.(col := to)
  {
    if t.col < to {
      RunPuts(shifts, t, data[t.col..to]);
      forall i | t.col <= i < to
        ensures t.cells[i] == data[i]
      {
        assert t.cells[..to][i] == data[..to][i];
      }
      assert Overwrite(t.cells, t.col, data[t.col..to]) == t.cells;
    } else {
      RunBacks(shifts, t, t.col - to);
    }
  }

  lemma MoveMoves(caps: Caps, shifts: bool, t: Row, to: nat, data: seq<char>)
    requires caps.cr != Empty && caps.le != Empty
    requires !t.pushing && t.col < |t.cells| && to <= |data| && to < |t.cells|
    requires t.cells[..to] == data[..to]
    ensures Run(shifts, t, MoveScript(caps, t.col, to, data)) == t.(col := to)
  {
    if t.col != to {
      if to == 0 || to + 1 < t.col - to {
        RunAppend(shifts, t, ReturnScript(caps), StraightScript(caps, 0, to, data));
        RunOne(shifts, t, Return);
        StraightMoves(caps, shifts, t.(col := 0), to, data);
      } else {
        StraightMoves(caps, shifts, t, to, data);
      }
    }
  }

  lemma RunOne(shifts: bool, t: Row, c: Cmd)
    ensures Run(shifts, t, [c]) == Step(shifts, t, c)
  {
    assert [c][1..] == [];
    assert Run(shifts, t, [c]) == Run(shifts, Step(shifts, t, [c][0]), [c][1..]);
  }

  lemma InsertInserts(caps: Caps, shifts: bool, t: Row, s: seq<char>)
    requires CanInsert(caps) && CanReallyInsert(caps, shifts)
    requires !t.pushing && t.col + |s| < |t.cells|
    ensures Run(shifts, t, InsertScript(caps, s)) == Row(Insert(t.cells, t.col, s), t.col + |s|, false)
  {
    if caps.IC != Absent {
      RunAppend(shifts, t, [OpenN(|s|)], Puts(s));
      RunOne(shifts, t, OpenN(|s|));
      RunPuts(shifts, Step(shifts, t, OpenN(|s|)), s);
    } else {
      var mode := IfCode(caps.im, EnterInsert);
      var open := if caps.ic == Code then Repeat(Open1, |s|) else [];
      var leave := IfCode(caps.ei, LeaveInsert);
      RunAppend(shifts, t, mode, open + (Puts(s) + leave));
      RunOne(shifts, t, EnterInsert);
      var t1 := Run(shifts, t, mode);
      RunAppend(shifts, t1, open, Puts(s) + leave);
      var t2 := Run(shifts, t1, open);
      RunAppend(shifts, t2, Puts(s), leave);
      if caps.ic == Code {
        RunOpen1s(shifts, t1, |s|);
        RunPuts(shifts, t2, s);
      } else {
        RunPutsPushing(shifts, t2, s);
      }
      RunOne(shifts, Run(shifts, t2, Puts(s)), LeaveInsert);
    }
  }

  lemma DeleteDeletes(caps: Caps, shifts: bool, t: Row, width: nat, count: nat)
    requires caps.dc == Code || caps.DC == Code
    requires count <= width && t.col < |t.cells|
    ensures Run(shifts, t, DeleteScript(caps, width, count)) == t.(cells := CloseGap(t.cells, t.col, count))
  {
    if caps.DC == Code {
      RunOne(shifts, t, DeleteN(count));
    } else {
      RunDelete1s(shifts, t, count);
    }
  }

  lemma ClearClears(caps: Caps, shifts: bool, t: Row, count: nat)
    requires caps.ce != Empty
    requires !t.pushing && t.col + count < |t.cells|
    requires forall i | t.col + count <= i < |t.cells| :: t.cells[i] == ' '
    ensures var c := ClearScript(caps, count);
            Run(shifts, t, c.cmds) == Row(Pad(t.cells[..t.col], |t.cells|), t.col + c.col, false)
  {
    if caps.ce != Absent {
      RunOne(shifts, t, ClearEol);
    } else {
      RunPuts(shifts, t, Blanks(count));
    }
  }

  lemma InsertedCells(sh: seq<char>, wt: seq<char>, c: Diff, w: nat)
    requires Compared(sh, wt, c) && c.ols <= c.nls && |wt| < w
    ensures var k, d, nls := c.nls - c.ols, c.d, c.nls;
            Overwrite(Insert(Pad(sh, w), d, wt[d..d + k]), d + k, wt[d + k..nls]) == Pad(wt, w)
  {
    var Diff(d, ols, nls, _, _) := c;
    var k := nls - ols;
    var r := Overwrite(Insert(Pad(sh, w), d, wt[d..d + k]), d + k, wt[d + k..nls]);
    forall i | 0 <= i < w
      ensures r[i] == Pad(wt, w)[i]
    {
      if i < d {
        assert sh[..d][i] == wt[..d][i];
      } else if nls <= i < |wt| {
        assert sh[ols..][i - nls] == wt[nls..][i - nls];
      }
    }
  }

  lemma DeletedCells(sh: seq<char>, wt: seq<char>, c: Diff, w: nat)
    requires Compared(sh, wt, c) && c.nls <= c.ols && |sh| < w
    ensures Overwrite(CloseGap(Pad(sh, w), c.d, c.ols - c.nls), c.d, wt[c.d..c.nls]) == Pad(wt, w)
  {
    var Diff(d, ols, nls, _, _) := c;
    var r := Overwrite(CloseGap(Pad(sh, w), d, ols - nls), d, wt[d..nls]);
    forall i | 0 <= i < w
      ensures r[i] == Pad(wt, w)[i]
    {
      if i < d {
        assert sh[..d][i] == wt[..d][i];
      } else if nls <= i < |wt| {
        assert sh[ols..][i - nls] == wt[nls..][i - nls];
      }
    }
  }

  lemma OverwrittenCells(sh: seq<char>, wt: seq<char>, d: nat, w: nat)
    requires d <= |sh| < w && d <= |wt| < w && sh[..d] == wt[..d]
    ensures var r := Overwrite(Pad(sh, w), d, wt[d..]);
            && (|sh| <= |wt| ==> r == Pad(wt, w))
            && r[..|wt|] == wt
            && (forall i | |wt| <= i < w && |sh| <= i :: r[i] == ' ')
  {
    var r := Overwrite(Pad(sh, w), d, wt[d..]);
    forall i | 0 <= i < |wt|
      ensures r[i] == wt[i]
    {
      if i < d {
        assert sh[..d][i] == wt[..d][i];
      }
    }
  }

  /** Run on `t`, the script leaves a row that shows `text` and nothing else,
      with the cursor where the program believes it to be and insert mode off. */
  predicate Draws(shifts: bool, width: nat, t: Row, u: Update, text: seq<char>) {
    && |text| <= width < |t.cells| && u.col <= width
    && Run(shifts, t, u.cmds) == Row(Pad(text, |t.cells|), u.col, false)
  }

  /** `first` inserts the surplus; what follows overwrites up to the tail. */
  lemma GrowByInserting(shifts: bool, t: Row, first: seq<Cmd>, sh: seq<char>, wt: seq<char>, c: Diff)
    requires Compared(sh, wt, c) && c.ols < c.nls && |wt| < |t.cells|
    requires t == Row(Pad(sh, |t.cells|), c.d, false)
    requires var m := c.d + c.nls - c.ols;
             Run(shifts, t, first) == Row(Insert(t.cells, c.d, wt[c.d..m]), m, false)
    ensures var m := c.d + c.nls - c.ols;
            Run(shifts, t, first + Puts(wt[m..c.nls])) == Row(Pad(wt, |t.cells|), c.nls, false)
  {
    hide Run;
    var m := c.d + c.nls - c.ols;
    RunAppend(shifts, t, first, Puts(wt[m..c.nls]));
    RunPuts(shifts, Run(shifts, t, first), wt[m..c.nls]);
    InsertedCells(sh, wt, c, |t.cells|);
  }

  lemma OverwrittenInTwo(shifts: bool, t: Row, sh: seq<char>, wt: seq<char>, d: nat, m: nat)
    requires d <= |sh| <= |wt| < |t.cells| && d <= m <= |wt| && sh[..d] == wt[..d]
    requires t == Row(Pad(sh, |t.cells|), d, false)
    ensures Run(shifts, t, Puts(wt[d..m]) + Puts(wt[m..|wt|])) == Row(Pad(wt, |t.cells|), |wt|, false)
  {
    RunPuts(shifts, t, wt[d..]);
    OverwrittenCells(sh, wt, d, |t.cells|);
    assert Puts(wt[d..m]) + Puts(wt[m..|wt|]) == Puts(wt[d..]);
  }

  /** The two forms of the code's final copy are one. */
  lemma GrowScriptInserting(caps: Caps, atEnd: bool, text: seq<char>, d: nat, nls: nat, k: nat)
    requires d + k <= nls <= |text|
    requires CanInsert(caps) && (2 * (|text| - d) >= k || caps.IC != Absent)
    ensures var first := if atEnd then Puts(text[d..d + k]) else InsertScript(caps, text[d..d + k]);
            GrowScript(caps, atEnd, text, d, nls, k) == Update(first + Puts(text[d + k..nls]), nls)
  {
    var first := if atEnd then Puts(text[d..d + k]) else InsertScript(caps, text[d..d + k]);
    assert first + Puts([]) == first;
  }

  lemma Growing(caps: Caps, shifts: bool, width: nat, t: Row, sh: seq<char>, wt: seq<char>, c: Diff, atEnd: bool)
    requires CanInsert(caps) ==> CanReallyInsert(caps, shifts)
    requires Compared(sh, wt, c) && c.ols < c.nls && |wt| <= width < |t.cells|
    requires t == Row(Pad(sh, |t.cells|), c.d, false)
    requires atEnd ==> c.ols == |sh|
    ensures Draws(shifts, width, t, GrowScript(caps, atEnd, wt, c.d, c.nls, c.nls - c.ols), wt)
  {
    hide Run, InsertScript;
    var k := c.nls - c.ols;
    var m := c.d + k;
    if CanInsert(caps) && (2 * (|wt| - c.d) >= k || caps.IC != Absent) {
      GrowScriptInserting(caps, atEnd, wt, c.d, c.nls, k);
      if atEnd {
        OverwrittenInTwo(shifts, t, sh, wt, c.d, m);
      } else {
        InsertInserts(caps, shifts, t, wt[c.d..m]);
        GrowByInserting(shifts, t, InsertScript(caps, wt[c.d..m]), sh, wt, c);
      }
    } else {
      RunPuts(shifts, t, wt[c.d..]);
      OverwrittenCells(sh, wt, c.d, |t.cells|);
    }
  }

  lemma ShrinkByDeleting(caps: Caps, shifts: bool, width: nat, t: Row, sh: seq<char>, wt: seq<char>, c: Diff)
    requires caps.dc == Code || caps.DC == Code
    requires Compared(sh, wt, c) && c.nls <= c.ols && |sh| <= width < |t.cells|
    requires t == Row(Pad(sh, |t.cells|), c.d, false)
    ensures var k := c.ols - c.nls;
            var close := if k != 0 then DeleteScript(caps, width, k) else [];
            Run(shifts, t, close + Puts(wt[c.d..c.nls])) == Row(Pad(wt, |t.cells|), c.nls, false)
  {
    var k := c.ols - c.nls;
    if k != 0 {
      var close := DeleteScript(caps, width, k);
      RunAppend(shifts, t, close, Puts(wt[c.d..c.nls]));
      DeleteDeletes(caps, shifts, t, width, k);
      RunPuts(shifts, Run(shifts, t, close), wt[c.d..c.nls]);
    } else {
      assert CloseGap(t.cells, c.d, 0) == t.cells;
      assert [] + Puts(wt[c.d..c.nls]) == Puts(wt[c.d..c.nls]);
      RunPuts(shifts, t, wt[c.d..c.nls]);
    }
    DeletedCells(sh, wt, c, |t.cells|);
  }

  lemma Shrinking(caps: Caps, shifts: bool, width: nat, t: Row, sh: seq<char>, wt: seq<char>, c: Diff)
    requires Adequate(caps, shifts)
    requires Compared(sh, wt, c) && c.nls <= c.ols && |sh| <= width < |t.cells|
    requires t == Row(Pad(sh, |t.cells|), c.d, false)
    ensures Draws(shifts, width, t, ShrinkScript(caps, width, wt, c.d, c.nls, c.ols - c.nls, |sh| - |wt|), wt)
  {
    hide Run;
    if caps.dc != Absent && 2 * (|wt| - c.d) >= c.ols - c.nls {
      ShrinkByDeleting(caps, shifts, width, t, sh, wt, c);
    } else {
      RunAppend(shifts, t, Puts(wt[c.d..]), ClearScript(caps, |sh| - |wt|).cmds);
      RunPuts(shifts, t, wt[c.d..]);
      OverwrittenCells(sh, wt, c.d, |t.cells|);
      ClearClears(caps, shifts, Run(shifts, t, Puts(wt[c.d..])), |sh| - |wt|);
    }
  }

  /** Moving to the first difference before drawing. */
  lemma MoveThenDraw(shifts: bool, width: nat, t: Row, move: seq<Cmd>, d: nat, body: Update, text: seq<char>)
    requires Run(shifts, t, move) == t.(col := d) && Draws(shifts, width, t.(col := d), body, text)
    ensures Draws(shifts, width, t, Update(move + body.cmds, body.col), text)
  {
    hide Run;
    RunAppend(shifts, t, move, body.cmds);
  }

  lemma Changing(caps: Caps, shifts: bool, width: nat, t: Row, shown: Line, wt: seq<char>, c: Diff)
    requires Adequate(caps, shifts) && shown.Valid()
    requires Compared(shown.Window(), wt, c) && |shown.Window()| <= width < |t.cells| && |wt| <= width
    requires t == Row(Pad(shown.Window(), |t.cells|), c.d, false)
    ensures Draws(shifts, width, t, ChangeScript(caps, width, shown, wt, c), wt)
  {
    hide Draws, GrowScript, ShrinkScript;
    var atEnd := At(shown.text, c.ols) == '\0';
    assert c.ols < |shown.text| ==> shown.text[c.ols] in shown.text;
    if c.nls > c.ols {
      Growing(caps, shifts, width, t, shown.Window(), wt, c, atEnd);
    } else {
      Shrinking(caps, shifts, width, t, shown.Window(), wt, c);
    }
  }

  lemma Redrawing(caps: Caps, shifts: bool, width: nat, t: Row, shown: Line, wt: seq<char>, c: Diff)
    requires Adequate(caps, shifts) && shown.Valid()
    requires Compared(shown.Window(), wt, c) && |shown.Window()| <= width < |t.cells| && |wt| <= width
    requires t == Row(Pad(shown.Window(), |t.cells|), t.col, false) && t.col <= width
    ensures Draws(shifts, width, t, RedrawScript(caps, width, t.col, shown, wt, c), wt)
  {
    hide Run, ChangeScript;
    assert t.cells[..c.d] == shown.text[..c.d];
    MoveMoves(caps, shifts, t, c.d, shown.text);
    Changing(caps, shifts, width, t.(col := c.d), shown, wt, c);
    MoveThenDraw(shifts, width, t, MoveScript(caps, t.col, c.d, shown.text), c.d,
      ChangeScript(caps, width, shown, wt, c), wt);
  }

  /** A row showing `shown` shows the new text after the script has run. */
  lemma UpdateShows(caps: Caps, shifts: bool, width: nat, shown: Line, wanted: Line, t: Row)
    requires Adequate(caps, shifts) && shown.Valid() && wanted.Valid()
    requires |shown.Window()| <= width < |t.cells| && Compare(shown, wanted).ne <= width
    requires t == Row(Pad(shown.Window(), |t.cells|), t.col, false) && t.col <= width
    ensures var ne := Compare(shown, wanted).ne;
            && ne <= |wanted.text|
            && Draws(shifts, width, t, UpdateScript(caps, width, t.col, shown, wanted), wanted.text[..ne])
  {
    ComparesLines(shown, wanted);
    var c := Compare(shown, wanted);
    if c.d != c.oe || c.d != c.ne {
      Redrawing(caps, shifts, width, t, shown, wanted.text[..c.ne], c);
    }
  }

  /** No other way of moving takes fewer commands. */
  lemma MoveIsShortest(caps: Caps, from: nat, to: nat, data: seq<char>)
    requires to <= |data| && caps.cr != Empty && caps.le != Empty
    ensures |MoveScript(caps, from, to, data)| ==
      if from <= to then to - from else if to + 1 < from - to then to + 1 else from - to
  {
  }

  // ------------------------------------------------------ which line is shown

  /** With the new line's NUL inside its limit, or an old line no longer than
      that limit, what is shown is the new line. */
  lemma UpdateShowsWindow(caps: Caps, shifts: bool, width: nat, shown: Line, wanted: Line, t: Row)
    requires Adequate(caps, shifts) && shown.Valid() && wanted.Valid()
    requires |wanted.text| <= wanted.max || |shown.Window()| <= wanted.max
    requires |shown.Window()| <= width < |t.cells| && |wanted.Window()| <= width
    requires t == Row(Pad(shown.Window(), |t.cells|), t.col, false) && t.col <= width
    ensures Draws(shifts, width, t, UpdateScript(caps, width, t.col, shown, wanted), wanted.Window())
  {
    ComparesLines(shown, wanted);
    UpdateShows(caps, shifts, width, shown, wanted, t);
  }

  /** In general the scan for the first difference runs past the new line's
      limit; the new line is then shown exactly if it only ran over blanks. */
  lemma UpdateShowsWindowIff(caps: Caps, shifts: bool, width: nat, shown: Line, wanted: Line, t: Row)
    requires Adequate(caps, shifts) && shown.Valid() && wanted.Valid()
    requires |shown.Window()| <= width < |t.cells| && Compare(shown, wanted).ne <= width
    requires t == Row(Pad(shown.Window(), |t.cells|), t.col, false) && t.col <= width
    ensures var d := FirstDiff(shown, wanted, 0);
            d <= |wanted.text| && |wanted.Window()| <= width
            && (Draws(shifts, width, t, UpdateScript(caps, width, t.col, shown, wanted), wanted.Window())
                <==> forall i | wanted.max <= i < d :: wanted.text[i] == ' ')
  {
    hide UpdateScript, Compare, FirstDiff, Run, Pad, Adequate;
    ComparesLines(shown, wanted);
    UpdateShows(caps, shifts, width, shown, wanted, t);
    var ne, n := Compare(shown, wanted).ne, |wanted.Window()|;
    assert wanted.Window() == wanted.text[..n];
    PadsAlikeIff(wanted.text, n, ne, |t.cells|);
  }

  lemma PadsAlikeIff(text: seq<char>, n: nat, m: nat, w: nat)
    requires n <= m <= |text| && m <= w
    ensures Pad(text[..n], w) == Pad(text[..m], w) <==> forall i | n <= i < m :: text[i] == ' '
  {
    var a, b := Pad(text[..n], w), Pad(text[..m], w);
    assert forall i | 0 <= i < n :: a[i] == text[i] == b[i];
    assert forall i | n <= i < m :: a[i] == ' ' && b[i] == text[i];
    assert forall i | m <= i < w :: a[i] == ' ' == b[i];
  }

  /** An update whose scan runs past the new line's limit: the buffer behind the new
      line goes on as the old one does, so nothing is sent. */
  lemma WindowIsMissed(caps: Caps, shifts: bool, shown: Line, wanted: Line, t: Row)
    requires Adequate(caps, shifts)
    requires shown == Line("abcd", 4) && wanted == Line("abcd", 2) && t == Row("abcd ", 0, false)
    ensures FirstDiff(shown, wanted, 0) == 4
    ensures t == Row(Pad(shown.Window(), 5), 0, false)
    ensures !Draws(shifts, 4, t, UpdateScript(caps, 4, 0, shown, wanted), wanted.Window())
  {
    assert shown.Window() == "abcd" && Blanks(1) == " ";
    assert FirstDiff(shown, wanted, 4) == 4 && FirstDiff(shown, wanted, 3) == 4 && FirstDiff(shown, wanted, 2) == 4
        && FirstDiff(shown, wanted, 1) == 4 && FirstDiff(shown, wanted, 0) == 4;
    ComparesLines(shown, wanted);
    UpdateShowsWindowIff(caps, shifts, 4, shown, wanted, t);
    assert wanted.text[2] != ' ';
  }

  // ------------------------------------- the terminal description must be true

  /** update_line draws every new line over every old one. */
  ghost predicate Works(caps: Caps, shifts: bool) {
    forall width: nat, shown: Line, wanted: Line, t: Row
      | shown.Valid() && wanted.Valid() && |shown.text| <= shown.max && |wanted.text| <= wanted.max
        && |shown.text| <= width < |t.cells| && |wanted.text| <= width
        && t == Row(Pad(shown.text, |t.cells|), t.col, false) && t.col <= width
      :: Draws(shifts, width, t, UpdateScript(caps, width, t.col, shown, wanted), wanted.text)
  }

  lemma AdequateCapsWork(caps: Caps, shifts: bool)
    requires Adequate(caps, shifts)
    ensures Works(caps, shifts)
  {
    forall width: nat, shown: Line, wanted: Line, t: Row
      | shown.Valid() && wanted.Valid() && |shown.text| <= shown.max && |wanted.text| <= wanted.max
        && |shown.text| <= width < |t.cells| && |wanted.text| <= width
        && t == Row(Pad(shown.text, |t.cells|), t.col, false) && t.col <= width
      ensures Draws(shifts, width, t, UpdateScript(caps, width, t.col, shown, wanted), wanted.text)
    {
      UpdateShowsWindow(caps, shifts, width, shown, wanted, t);
    }
  }

  /** One counterexample: the script does not draw `wanted` over `shown`. */
  lemma Counterexample(caps: Caps, shifts: bool, shown: seq<char>, wanted: seq<char>, col: nat, width: nat)
    requires '\0' !in shown && '\0' !in wanted
    requires |shown| <= width && |wanted| <= width && col <= width
    requires !Draws(shifts, width, Row(Pad(shown, width + 1), col, false),
                    UpdateScript(caps, width, col, Line(shown, width), Line(wanted, width)), wanted)
    ensures !Works(caps, shifts)
  {
    var t := Row(Pad(shown, width + 1), col, false);
    assert |t.cells| == width + 1;
  }

  /** Commands that neither go left nor leave the row keep what is left of the
      cursor. */
  lemma {:induction false} KeepsLeft(shifts: bool, t: Row, cmds: seq<Cmd>, i: nat)
    requires i < t.col && i < |t.cells|
    requires forall c | c in cmds :: c.Put? || c.ClearEol? || c.Delete1? || c.DeleteN?
    ensures |Run(shifts, t, cmds).cells| == |t.cells| && Run(shifts, t, cmds).cells[i] == t.cells[i]
    decreases |cmds|
  {
    if cmds != [] {
      assert cmds[0] in cmds;
      KeepsLeft(shifts, Step(shifts, t, cmds[0]), cmds[1..], i);
    }
  }

  lemma ReturnNeeded(caps: Caps, shifts: bool)
    requires caps.cr == Empty
    ensures !Works(caps, shifts)
  {
    var sh, wt := Line("a", 2), Line("b", 2);
    assert FirstDiff(sh, wt, 0) == 0;
    assert Compare(sh, wt) == Diff(0, 1, 1, 1, 1);
    assert MoveScript(caps, 1, 0, "a") == [];
    KeepsLeft(shifts, Row(Pad("a", 3), 1, false), UpdateScript(caps, 2, 1, sh, wt).cmds, 0);
    Counterexample(caps, shifts, "a", "b", 1, 2);
  }

  lemma BackNeeded(caps: Caps, shifts: bool)
    requires caps.le == Empty
    ensures !Works(caps, shifts)
  {
    var sh, wt := Line("xa", 2), Line("xb", 2);
    assert FirstDiff(sh, wt, 1) == 1 == FirstDiff(sh, wt, 0);
    assert Compare(sh, wt) == Diff(1, 2, 2, 2, 2);
    assert MoveScript(caps, 2, 1, "xa") == [];
    KeepsLeft(shifts, Row(Pad("xa", 3), 2, false), UpdateScript(caps, 2, 2, sh, wt).cmds, 1);
    Counterexample(caps, shifts, "xa", "xb", 2, 2);
  }

  lemma ClearNeeded(caps: Caps, shifts: bool)
    requires caps.ce == Empty
    ensures !Works(caps, shifts)
  {
    var sh, wt := Line("a", 1), Line("", 1);
    assert FirstDiff(sh, wt, 0) == 0;
    assert Compare(sh, wt) == Diff(0, 1, 0, 1, 0);
    assert UpdateScript(caps, 1, 0, sh, wt).cmds == [];
    assert Pad("a", 2)[0] != Pad("", 2)[0];
    Counterexample(caps, shifts, "a", "", 0, 1);
  }

  lemma DeleteNeeded(caps: Caps, shifts: bool)
    requires caps.dc == Empty && caps.DC != Code
    ensures !Works(caps, shifts)
  {
    var sh, wt := Line("ab", 2), Line("b", 2);
    assert FirstDiff(sh, wt, 0) == 0;
    assert Compare(sh, wt) == Diff(0, 2, 1, 2, 1);
    assert UpdateScript(caps, 2, 0, sh, wt).cmds == Puts("b");
    RunPuts(shifts, Row(Pad("ab", 3), 0, false), "b");
    assert Overwrite(Pad("ab", 3), 0, "b")[1] != Pad("b", 3)[1];
    Counterexample(caps, shifts, "ab", "b", 0, 2);
  }

  lemma ComparesGrown()
    ensures Compare(Line("ab", 3), Line("cab", 3)) == Diff(0, 0, 1, 2, 3)
  {
    assert FirstDiff(Line("ab", 3), Line("cab", 3), 0) == 0;
    assert SkipSame("ab", "cab", 0, 0, 1, false) == (0, 1, false) == SkipSame("ab", "cab", 0, 1, 2, true);
  }

  lemma InsertNeeded(caps: Caps, shifts: bool)
    requires CanInsert(caps) && !CanReallyInsert(caps, shifts)
    ensures !Works(caps, shifts)
  {
    ComparesGrown();
    assert UpdateScript(caps, 3, 0, Line("ab", 3), Line("cab", 3)).cmds == InsertScript(caps, "c");
    var t := Row(Pad("ab", 4), 0, false);
    if caps.IC != Absent {
      assert InsertScript(caps, "c") == Puts("c");
      RunPuts(shifts, t, "c");
      assert Overwrite(t.cells, 0, "c")[1] != Pad("cab", 4)[1];
    } else {
      InsertByModeFails(caps, shifts, t);
    }
    Counterexample(caps, shifts, "ab", "cab", 0, 3);
  }

  lemma InsertByModeFails(caps: Caps, shifts: bool, t: Row)
    requires caps.IC == Absent && CanInsert(caps) && !CanReallyInsert(caps, shifts)
    requires t == Row(Pad("ab", 4), 0, false)
    ensures var r := Run(shifts, t, InsertScript(caps, "c"));
            |r.cells| == 4 && (r.pushing || r.cells[1] != Pad("cab", 4)[1])
  {
    var mode, leave := IfCode(caps.im, EnterInsert), IfCode(caps.ei, LeaveInsert);
    var open := if caps.ic == Code then Repeat(Open1, 1) else [];
    RunAppend(shifts, t, mode, open + (Puts("c") + leave));
    RunOne(shifts, t, EnterInsert);
    var t1 := Run(shifts, t, mode);
    RunAppend(shifts, t1, open, Puts("c") + leave);
    RunOpen1s(shifts, t1, 1);
    var t2 := Run(shifts, t1, open);
    RunAppend(shifts, t2, Puts("c"), leave);
    if t2.pushing {
      RunPutsPushing(shifts, t2, "c");
    } else {
      RunPuts(shifts, t2, "c");
    }
    RunOne(shifts, Run(shifts, t2, Puts("c")), LeaveInsert);
  }

  /** Redisplay is right on a terminal if and only if its description is. */
  lemma OnlyAdequateCapsWork(caps: Caps, shifts: bool)
    ensures Works(caps, shifts) <==> Adequate(caps, shifts)
  {
    if Adequate(caps, shifts) {
      AdequateCapsWork(caps, shifts);
    } else if caps.cr == Empty {
      ReturnNeeded(caps, shifts);
    } else if caps.le == Empty {
      BackNeeded(caps, shifts);
    } else if caps.ce == Empty {
      ClearNeeded(caps, shifts);
    } else if CanInsert(caps) && !CanReallyInsert(caps, shifts) {
      InsertNeeded(caps, shifts);
    } else {
      DeleteNeeded(caps, shifts);
    }
  }
}
