/** Redisplay of a whole multi-line edit: the loop of rl_redisplay over screen
    lines, with the cursor moving between rows, and the methods that write the
    commands of one update. */
module Redisplay {
  import opened Terminal
  import opened Display
  import Scroll

  datatype ScreenCmd = OnRow(c: Cmd) | LineFeed | Up

  datatype Screen = Screen(rows: seq<seq<char>>, line: nat, col: nat, pushing: bool)
  {
    function At(): Row
      requires line < |rows|
    {
      Row(rows[line], col, pushing)
    }

    function With(r: Row): Screen
      requires line < |rows|
    {
      Screen(rows[line := r.cells], line, r.col, r.pushing)
    }
  }

  /** A line feed keeps the column; at the bottom it scrolls. */
  function StepScreen(shifts: bool, s: Screen, c: ScreenCmd): Screen
  {
    if s.line >= |s.rows| then s else
    match c
    case OnRow(rc) => s.With(Step(shifts, s.At(), rc))
    case LineFeed =>
      if s.line + 1 < |s.rows| then s.(line := s.line + 1)
      else s.(rows := s.rows[1..] + [Blanks(|s.rows[0]|)])
    case Up => if s.line > 0 then s.(line := s.line - 1) else s
  }

  function RunScreen(shifts: bool, s: Screen, cmds: seq<ScreenCmd>): (r: Screen)
    decreases |cmds|
  {
    if cmds == [] then s else RunScreen(shifts, StepScreen(shifts, s, cmds[0]), cmds[1..])
  }

  function Lift(cmds: seq<Cmd>): seq<ScreenCmd> {
    seq(|cmds|, i requires 0 <= i < |cmds| => OnRow(cmds[i]))
  }

  function Times(c: ScreenCmd, n: nat): seq<ScreenCmd> {
    seq(n, _ => c)
  }

  // -------------------------------------------------------------- the scripts

  /** What is written, and where the program then believes the cursor to be. */
  datatype Drawn = Drawn(cmds: seq<ScreenCmd>, v: nat, c: nat)

  function Then(a: Drawn, b: Drawn): Drawn {
    Drawn(a.cmds + b.cmds, b.v, b.c)
  }

  /** `_rl_move_vert`: down by line feeds and a carriage return, up by `up`, or not
      at all without it; the new row is recorded all the same. */
  function VertScript(caps: Caps, v: nat, c: nat, to: nat): Drawn {
    if to == v then Drawn([], v, c)
    else if to > v then Drawn(Times(LineFeed, to - v) + Lift(ReturnScript(caps)), to, 0)
    else Drawn(if caps.up == Code then Times(Up, v - to) else [], to, c)
  }

  function LineScript(caps: Caps, width: nat, v: nat, c: nat, current: nat, shown: Line, wanted: Line): Drawn
    requires shown.Valid() && wanted.Valid()
  {
    var d := Compare(shown, wanted);
    if d.d == d.oe && d.d == d.ne then Drawn([], v, c)
    else
      var go := VertScript(caps, v, c, current);
      var u := UpdateScript(caps, width, go.c, shown, wanted);
      Then(go, Drawn(Lift(u.cmds), current, u.col))
  }

  /** Beyond the last visible line the old line is the empty string. */
  function VisLine(visible: seq<Line>, k: nat): Line {
    if k < |visible| then visible[k] else Line("", 0)
  }

  predicate AllValid(lines: seq<Line>) {
    forall k | 0 <= k < |lines| :: lines[k].Valid()
  }

  /** Every line of the new text, from line `k` on. */
  function LinesScript(caps: Caps, width: nat, v: nat, c: nat, k: nat, visible: seq<Line>, invisible: seq<Line>): Drawn
    requires AllValid(visible) && AllValid(invisible)
    decreases |invisible| - k
  {
    if k >= |invisible| then Drawn([], v, c)
    else
      var here := LineScript(caps, width, v, c, k, VisLine(visible, k), invisible[k]);
      Then(here, LinesScript(caps, width, here.v, here.c, k + 1, visible, invisible))
  }

  /** Blanking an old line that has no new line. */
  function BlankScript(caps: Caps, width: nat, v: nat, c: nat, k: nat, visible: seq<Line>): Drawn
    requires k < |visible|
  {
    var go := VertScript(caps, v, c, k);
    var clear := ClearScript(caps, if k + 1 == |visible| then |visible[k].text| else width);
    Then(go, Drawn(Lift(MoveScript(caps, go.c, 0, visible[k].text) + clear.cmds), k, clear.col))
  }

  function BlanksScript(caps: Caps, width: nat, v: nat, c: nat, k: nat, visible: seq<Line>): Drawn
    decreases |visible| - k
  {
    if k >= |visible| then Drawn([], v, c)
    else
      var here := BlankScript(caps, width, v, c, k, visible);
      Then(here, BlanksScript(caps, width, here.v, here.c, k + 1, visible))
  }

  /** Putting the cursor where it belongs: row `line`, column `col`. */
  function CursorScript(caps: Caps, v: nat, c: nat, line: nat, col: nat, text: seq<char>): Drawn
    requires col <= |text|
  {
    var go := VertScript(caps, v, c, line);
    Then(go, Drawn(Lift(MoveScript(caps, go.c, col, text)), line, col))
  }

  function RedisplayScript(caps: Caps, width: nat, v: nat, c: nat, visible: seq<Line>, invisible: seq<Line>,
                           line: nat, col: nat): Drawn
    requires AllValid(visible) && AllValid(invisible)
    requires line < |invisible| && col <= |invisible[line].text|
  {
    var lines := LinesScript(caps, width, v, c, 0, visible, invisible);
    var blanks := BlanksScript(caps, width, lines.v, lines.c, |invisible|, visible);
    var both := Then(lines, blanks);
    Then(both, CursorScript(caps, both.v, both.c, line, col, invisible[line].text))
  }

  // ------------------------------------------------------------------ lemmas

  lemma {:induction false} RunScreenAppend(shifts: bool, s: Screen, a: seq<ScreenCmd>, b: seq<ScreenCmd>)
    ensures RunScreen(shifts, s, a + b) == RunScreen(shifts, RunScreen(shifts, s, a), b)
    decreases |a|
  {
    if a == [] {
      assert a + b == b;
    } else {
      assert (a + b)[1..] == a[1..] + b;
      RunScreenAppend(shifts, StepScreen(shifts, s, a[0]), a[1..], b);
    }
  }

  /** Row commands change the row of the cursor, as on a one-row terminal. */
  lemma {:induction false} RunLifted(shifts: bool, s: Screen, cmds: seq<Cmd>)
    requires s.line < |s.rows|
    ensures RunScreen(shifts, s, Lift(cmds)) == s.With(Run(shifts, s.At(), cmds))
    decreases |cmds|
  {
    if cmds == [] {
      assert s.rows[s.line := s.rows[s.line]] == s.rows;
    } else {
      assert Lift(cmds)[1..] == Lift(cmds[1..]);
      var r := Step(shifts, s.At(), cmds[0]);
      RunLifted(shifts, s.With(r), cmds[1..]);
      var r' := Run(shifts, r, cmds[1..]);
      assert s.rows[s.line := r.cells][s.line := r'.cells] == s.rows[s.line := r'.cells];
    }
  }

  lemma {:induction false} RunLineFeeds(shifts: bool, s: Screen, n: nat)
    requires s.line + n < |s.rows|
    ensures RunScreen(shifts, s, Times(LineFeed, n)) == s.(line := s.line + n)
    decreases n
  {
    if n > 0 {
      assert Times(LineFeed, n)[1..] == Times(LineFeed, n - 1);
      RunLineFeeds(shifts, s.(line := s.line + 1), n - 1);
    }
  }

  lemma {:induction false} RunUps(shifts: bool, s: Screen, n: nat)
    requires n <= s.line < |s.rows|
    ensures RunScreen(shifts, s, Times(Up, n)) == s.(line := s.line - n)
    decreases n
  {
    if n > 0 {
      assert Times(Up, n)[1..] == Times(Up, n - 1);
      RunUps(shifts, s.(line := s.line - 1), n - 1);
    }
  }

  /** The screen, the cursor where the program believes it to be, insert mode
      off, and every row wide enough for lines of `width`. */
  predicate Synced(width: nat, s: Screen, v: nat, c: nat) {
    && s.line == v < |s.rows| && c <= width && s.col == c && !s.pushing
    && forall i | 0 <= i < |s.rows| :: |s.rows[i]| == |s.rows[0]| > width
  }

  /** `d`, run on `s`, leaves the rows `rows` and a synced cursor. */
  predicate Leads(shifts: bool, width: nat, s: Screen, d: Drawn, rows: seq<seq<char>>)
  {
    var r := RunScreen(shifts, s, d.cmds);
    r.rows == rows && Synced(width, r, d.v, d.c)
  }

  lemma LeadsThen(shifts: bool, width: nat, s: Screen, a: Drawn, mid: seq<seq<char>>, b: Drawn, rows: seq<seq<char>>)
    requires Leads(shifts, width, s, a, mid)
    requires Leads(shifts, width, Screen(mid, a.v, a.c, false), b, rows)
    ensures Leads(shifts, width, s, Then(a, b), rows)
  {
    RunScreenAppend(shifts, s, a.cmds, b.cmds);
  }

  lemma VertMoves(caps: Caps, shifts: bool, width: nat, s: Screen, v: nat, c: nat, to: nat)
    requires caps.cr != Empty && caps.up == Code && Synced(width, s, v, c) && to < |s.rows|
    ensures Leads(shifts, width, s, VertScript(caps, v, c, to), s.rows)
  {
    if to > v {
      RunScreenAppend(shifts, s, Times(LineFeed, to - v), Lift(ReturnScript(caps)));
      RunLineFeeds(shifts, s, to - v);
      var s' := s.(line := to);
      RunLifted(shifts, s', ReturnScript(caps));
      RunOne(shifts, s'.At(), Return);
      assert s.rows[to := s.rows[to]] == s.rows;
    } else if to < v {
      RunUps(shifts, s, v - to);
    }
  }

  /** A row script that draws `text` on the row of the cursor. */
  lemma DrawsOnScreen(shifts: bool, width: nat, s: Screen, v: nat, u: Update, text: seq<char>)
    requires v == s.line < |s.rows| && Draws(shifts, width, s.At(), u, text)
    requires forall i | 0 <= i < |s.rows| :: |s.rows[i]| == |s.rows[0]|
    ensures Leads(shifts, width, s, Drawn(Lift(u.cmds), v, u.col), s.rows[v := Pad(text, |s.rows[0]|)])
  {
    RunLifted(shifts, s, u.cmds);
  }

  lemma LineShows(caps: Caps, shifts: bool, width: nat, s: Screen, v: nat, c: nat, current: nat, shown: Line,
                  wanted: Line)
    requires Adequate(caps, shifts) && caps.up == Code && shown.Valid() && wanted.Valid()
    requires |wanted.text| <= wanted.max || |shown.Window()| <= wanted.max
    requires |shown.Window()| <= width && |wanted.Window()| <= width
    requires Synced(width, s, v, c) && current < |s.rows| && s.rows[current] == Pad(shown.Window(), |s.rows[0]|)
    ensures Leads(shifts, width, s, LineScript(caps, width, v, c, current, shown, wanted),
                  s.rows[current := Pad(wanted.Window(), |s.rows[0]|)])
  {
    ComparesLines(shown, wanted);
    var d := Compare(shown, wanted);
    if d.d == d.oe && d.d == d.ne {
      assert wanted.Window() == wanted.text[..d.ne];
      assert s.rows[current := s.rows[current]] == s.rows;
    } else {
      var go := VertScript(caps, v, c, current);
      VertMoves(caps, shifts, width, s, v, c, current);
      var s1 := Screen(s.rows, current, go.c, false);
      UpdateShowsWindow(caps, shifts, width, shown, wanted, s1.At());
      var u := UpdateScript(caps, width, go.c, shown, wanted);
      DrawsOnScreen(shifts, width, s1, current, u, wanted.Window());
      LeadsThen(shifts, width, s, go, s.rows, Drawn(Lift(u.cmds), current, u.col),
                s.rows[current := Pad(wanted.Window(), |s.rows[0]|)]);
    }
  }

  // ------------------------------------------------------------ the whole screen

  /** Row `k` of a screen that shows `lines` and nothing else. */
  function ShownRow(lines: seq<Line>, k: nat, w: nat): (row: seq<char>)
    ensures |row| == w
  {
    if k < |lines| && |lines[k].Window()| <= w then Pad(lines[k].Window(), w) else Blanks(w)
  }

  function Shown(lines: seq<Line>, height: nat, w: nat): (rows: seq<seq<char>>)
    ensures |rows| == height && forall k | 0 <= k < height :: rows[k] == ShownRow(lines, k, w)
  {
    seq(height, k requires 0 <= k < height => ShownRow(lines, k, w))
  }

  /** Half way: new lines above row k, old lines from row k on. */
  function Mixed(visible: seq<Line>, invisible: seq<Line>, k: nat, height: nat, w: nat): (rows: seq<seq<char>>)
    ensures |rows| == height
    ensures forall i | 0 <= i < height :: rows[i] == ShownRow(if i < k then invisible else visible, i, w)
  {
    seq(height, i requires 0 <= i < height => ShownRow(if i < k then invisible else visible, i, w))
  }

  lemma MixedStep(visible: seq<Line>, invisible: seq<Line>, k: nat, height: nat, w: nat)
    requires k < height && |VisLine(visible, k).Window()| <= w
    ensures Mixed(visible, invisible, k, height, w)[k := ShownRow(invisible, k, w)]
      == Mixed(visible, invisible, k + 1, height, w)
    ensures Mixed(visible, invisible, k, height, w)[k] == Pad(VisLine(visible, k).Window(), w)
    ensures k >= |invisible| ==> ShownRow(invisible, k, w) == Blanks(w)
  {
    assert Pad([], w) == Blanks(w);
  }

  /** Lines as rl_redisplay lays them out: no longer than the screen is wide,
      shorter only if their NUL is inside their limit, the last one always. */
  predicate LaidOut(lines: seq<Line>, width: nat) {
    && AllValid(lines)
    && (forall k | 0 <= k < |lines| ::
         |lines[k].Window()| <= width && (|lines[k].text| <= lines[k].max || lines[k].max == width))
    && (|lines| > 0 ==> |lines[|lines| - 1].text| <= lines[|lines| - 1].max)
  }

  /** A true terminal description, with the `up` that rl_redisplay asks for before it
      uses several rows, and old and new lines that fit the screen. */
  predicate Ready(caps: Caps, shifts: bool, width: nat, height: nat, w: nat, visible: seq<Line>, invisible: seq<Line>) {
    && Adequate(caps, shifts) && caps.up == Code && LaidOut(visible, width) && LaidOut(invisible, width)
    && width < w && |visible| <= height && |invisible| <= height
  }

  lemma LineStep(caps: Caps, shifts: bool, width: nat, height: nat, w: nat, v: nat, c: nat, k: nat,
                 visible: seq<Line>, invisible: seq<Line>)
    requires Ready(caps, shifts, width, height, w, visible, invisible)
    requires v < height && c <= width && k < |invisible|
    ensures Leads(shifts, width, Screen(Mixed(visible, invisible, k, height, w), v, c, false),
                  LineScript(caps, width, v, c, k, VisLine(visible, k), invisible[k]),
                  Mixed(visible, invisible, k + 1, height, w))
    ensures var d := LineScript(caps, width, v, c, k, VisLine(visible, k), invisible[k]);
            d.v < height && d.c <= width
  {
    hide RunScreen;
    MixedStep(visible, invisible, k, height, w);
    LineShows(caps, shifts, width, Screen(Mixed(visible, invisible, k, height, w), v, c, false), v, c, k,
              VisLine(visible, k), invisible[k]);
  }

  lemma LinesUnfold(caps: Caps, width: nat, v: nat, c: nat, k: nat, visible: seq<Line>, invisible: seq<Line>)
    requires AllValid(visible) && AllValid(invisible)
    ensures k >= |invisible| ==> LinesScript(caps, width, v, c, k, visible, invisible) == Drawn([], v, c)
    ensures k < |invisible| ==>
            var here := LineScript(caps, width, v, c, k, VisLine(visible, k), invisible[k]);
            LinesScript(caps, width, v, c, k, visible, invisible)
            == Then(here, LinesScript(caps, width, here.v, here.c, k + 1, visible, invisible))
  {
  }

  lemma LinesMore(caps: Caps, shifts: bool, width: nat, height: nat, w: nat, v: nat, c: nat, k: nat,
                  visible: seq<Line>, invisible: seq<Line>)
    requires Ready(caps, shifts, width, height, w, visible, invisible)
    requires v < height && c <= width && k < |invisible|
    requires var here := LineScript(caps, width, v, c, k, VisLine(visible, k), invisible[k]);
             Leads(shifts, width, Screen(Mixed(visible, invisible, k + 1, height, w), here.v, here.c, false),
                   LinesScript(caps, width, here.v, here.c, k + 1, visible, invisible),
                   Mixed(visible, invisible, |invisible|, height, w))
    ensures Leads(shifts, width, Screen(Mixed(visible, invisible, k, height, w), v, c, false),
                  LinesScript(caps, width, v, c, k, visible, invisible),
                  Mixed(visible, invisible, |invisible|, height, w))
  {
    LineStep(caps, shifts, width, height, w, v, c, k, visible, invisible);
    var here := LineScript(caps, width, v, c, k, VisLine(visible, k), invisible[k]);
    LinesUnfold(caps, width, v, c, k, visible, invisible);
    LeadsThen(shifts, width, Screen(Mixed(visible, invisible, k, height, w), v, c, false), here,
              Mixed(visible, invisible, k + 1, height, w),
              LinesScript(caps, width, here.v, here.c, k + 1, visible, invisible),
              Mixed(visible, invisible, |invisible|, height, w));
  }

  lemma LinesNone(caps: Caps, shifts: bool, width: nat, height: nat, w: nat, v: nat, c: nat,
                  visible: seq<Line>, invisible: seq<Line>)
    requires v < height && c <= width < w && AllValid(visible) && AllValid(invisible)
    ensures Leads(shifts, width, Screen(Mixed(visible, invisible, |invisible|, height, w), v, c, false),
                  LinesScript(caps, width, v, c, |invisible|, visible, invisible),
                  Mixed(visible, invisible, |invisible|, height, w))
  {
  }

  lemma {:induction false} LinesShow(caps: Caps, shifts: bool, width: nat, height: nat, w: nat, v: nat, c: nat, k: nat,
                                     visible: seq<Line>, invisible: seq<Line>)
    requires Ready(caps, shifts, width, height, w, visible, invisible)
    requires v < height && c <= width && k <= |invisible|
    ensures Leads(shifts, width, Screen(Mixed(visible, invisible, k, height, w), v, c, false),
                  LinesScript(caps, width, v, c, k, visible, invisible),
                  Mixed(visible, invisible, |invisible|, height, w))
    decreases |invisible| - k
  {
    hide Leads, RunScreen, LineScript, LinesScript;
    if k < |invisible| {
      LineStep(caps, shifts, width, height, w, v, c, k, visible, invisible);
      var here := LineScript(caps, width, v, c, k, VisLine(visible, k), invisible[k]);
      LinesShow(caps, shifts, width, height, w, here.v, here.c, k + 1, visible, invisible);
      LinesMore(caps, shifts, width, height, w, v, c, k, visible, invisible);
    } else {
      LinesNone(caps, shifts, width, height, w, v, c, visible, invisible);
    }
  }

  lemma BlankBlanks(caps: Caps, shifts: bool, width: nat, s: Screen, v: nat, c: nat, k: nat, visible: seq<Line>)
    requires Adequate(caps, shifts) && caps.up == Code && LaidOut(visible, width) && k < |visible| <= |s.rows|
    requires Synced(width, s, v, c) && s.rows[k] == Pad(visible[k].Window(), |s.rows[0]|)
    ensures Leads(shifts, width, s, BlankScript(caps, width, v, c, k, visible), s.rows[k := Blanks(|s.rows[0]|)])
  {
    var go := VertScript(caps, v, c, k);
    VertMoves(caps, shifts, width, s, v, c, k);
    var s1 := Screen(s.rows, k, go.c, false);
    var count := if k + 1 == |visible| then |visible[k].text| else width;
    var clear := ClearScript(caps, count);
    var move := MoveScript(caps, go.c, 0, visible[k].text);
    MoveMoves(caps, shifts, s1.At(), 0, visible[k].text);
    ClearClears(caps, shifts, s1.At().(col := 0), count);
    assert Pad([], |s.rows[0]|) == Blanks(|s.rows[0]|);
    RunAppend(shifts, s1.At(), move, clear.cmds);
    DrawsOnScreen(shifts, width, s1, k, Update(move + clear.cmds, clear.col), []);
    LeadsThen(shifts, width, s, go, s.rows, Drawn(Lift(move + clear.cmds), k, clear.col),
      s.rows[k := Blanks(|s.rows[0]|)]);
  }

  lemma BlankStep(caps: Caps, shifts: bool, width: nat, height: nat, w: nat, v: nat, c: nat, k: nat,
                  visible: seq<Line>, invisible: seq<Line>)
    requires Ready(caps, shifts, width, height, w, visible, invisible)
    requires v < height && c <= width && |invisible| <= k < |visible|
    ensures Leads(shifts, width, Screen(Mixed(visible, invisible, k, height, w), v, c, false),
                  BlankScript(caps, width, v, c, k, visible), Mixed(visible, invisible, k + 1, height, w))
    ensures var d := BlankScript(caps, width, v, c, k, visible);
            d.v < height && d.c <= width
  {
    hide RunScreen;
    MixedStep(visible, invisible, k, height, w);
    BlankBlanks(caps, shifts, width, Screen(Mixed(visible, invisible, k, height, w), v, c, false), v, c, k, visible);
  }

  lemma BlanksUnfold(caps: Caps, width: nat, v: nat, c: nat, k: nat, visible: seq<Line>)
    ensures k >= |visible| ==> BlanksScript(caps, width, v, c, k, visible) == Drawn([], v, c)
    ensures k < |visible| ==>
            var here := BlankScript(caps, width, v, c, k, visible);
            BlanksScript(caps, width, v, c, k, visible)
              == Then(here, BlanksScript(caps, width, here.v, here.c, k + 1, visible))
  {
  }

  lemma BlanksMore(caps: Caps, shifts: bool, width: nat, height: nat, w: nat, v: nat, c: nat, k: nat,
                   visible: seq<Line>, invisible: seq<Line>)
    requires Ready(caps, shifts, width, height, w, visible, invisible)
    requires v < height && c <= width && |invisible| <= k < |visible|
    requires var here := BlankScript(caps, width, v, c, k, visible);
             Leads(shifts, width, Screen(Mixed(visible, invisible, k + 1, height, w), here.v, here.c, false),
                   BlanksScript(caps, width, here.v, here.c, k + 1, visible), Shown(invisible, height, w))
    ensures Leads(shifts, width, Screen(Mixed(visible, invisible, k, height, w), v, c, false),
                  BlanksScript(caps, width, v, c, k, visible), Shown(invisible, height, w))
  {
    BlankStep(caps, shifts, width, height, w, v, c, k, visible, invisible);
    var here := BlankScript(caps, width, v, c, k, visible);
    BlanksUnfold(caps, width, v, c, k, visible);
    LeadsThen(shifts, width, Screen(Mixed(visible, invisible, k, height, w), v, c, false), here,
              Mixed(visible, invisible, k + 1, height, w),
              BlanksScript(caps, width, here.v, here.c, k + 1, visible), Shown(invisible, height, w));
  }

  lemma BlanksNone(caps: Caps, shifts: bool, width: nat, height: nat, w: nat, v: nat, c: nat, k: nat,
                   visible: seq<Line>, invisible: seq<Line>)
    requires v < height && c <= width < w && |invisible| <= k && |visible| <= k
    ensures Leads(shifts, width, Screen(Mixed(visible, invisible, k, height, w), v, c, false),
                  BlanksScript(caps, width, v, c, k, visible), Shown(invisible, height, w))
  {
    assert Mixed(visible, invisible, k, height, w) == Shown(invisible, height, w);
  }

  lemma {:induction false} BlanksBlank(caps: Caps, shifts: bool, width: nat, height: nat, w: nat, v: nat, c: nat,
                                       k: nat, visible: seq<Line>, invisible: seq<Line>)
    requires Ready(caps, shifts, width, height, w, visible, invisible)
    requires v < height && c <= width && |invisible| <= k
    ensures Leads(shifts, width, Screen(Mixed(visible, invisible, k, height, w), v, c, false),
                  BlanksScript(caps, width, v, c, k, visible), Shown(invisible, height, w))
    decreases |visible| - k
  {
    hide Leads, RunScreen, BlankScript, BlanksScript;
    if k < |visible| {
      BlankStep(caps, shifts, width, height, w, v, c, k, visible, invisible);
      var here := BlankScript(caps, width, v, c, k, visible);
      BlanksBlank(caps, shifts, width, height, w, here.v, here.c, k + 1, visible, invisible);
      BlanksMore(caps, shifts, width, height, w, v, c, k, visible, invisible);
    } else {
      BlanksNone(caps, shifts, width, height, w, v, c, k, visible, invisible);
    }
  }

  lemma CursorGoes(caps: Caps, shifts: bool, width: nat, s: Screen, v: nat, c: nat, line: nat, col: nat,
                   text: seq<char>)
    requires caps.cr != Empty && caps.le != Empty && caps.up == Code
    requires Synced(width, s, v, c) && line < |s.rows|
    requires col <= |text| && col <= width && s.rows[line][..col] == text[..col]
    ensures Leads(shifts, width, s, CursorScript(caps, v, c, line, col, text), s.rows)
  {
    var go := VertScript(caps, v, c, line);
    VertMoves(caps, shifts, width, s, v, c, line);
    var s1 := Screen(s.rows, line, go.c, false);
    MoveMoves(caps, shifts, s1.At(), col, text);
    var move := MoveScript(caps, go.c, col, text);
    RunLifted(shifts, s1, move);
    assert s.rows[line := s.rows[line]] == s.rows;
    LeadsThen(shifts, width, s, go, s.rows, Drawn(Lift(move), line, col), s.rows);
  }

  /** One redisplay over several rows turns a screen showing the old text into one
      showing the new text and nothing else, with the cursor at the editing position. */
  lemma RedisplayShows(caps: Caps, shifts: bool, width: nat, height: nat, w: nat, v: nat, c: nat,
                       visible: seq<Line>, invisible: seq<Line>, line: nat, col: nat)
    requires Ready(caps, shifts, width, height, w, visible, invisible)
    requires v < height && c <= width
    requires line < |invisible| && col <= |invisible[line].Window()|
    ensures RunScreen(shifts, Screen(Shown(visible, height, w), v, c, false),
                      RedisplayScript(caps, width, v, c, visible, invisible, line, col).cmds)
         == Screen(Shown(invisible, height, w), line, col, false)
    ensures var d := RedisplayScript(caps, width, v, c, visible, invisible, line, col);
            d.v == line && d.c == col
  {
    hide RunScreen;
    var rows0, rows1, rows2 := Shown(visible, height, w), Mixed(visible, invisible, |invisible|, height, w),
      Shown(invisible, height, w);
    assert Mixed(visible, invisible, 0, height, w) == rows0;
    var s := Screen(rows0, v, c, false);
    LinesShow(caps, shifts, width, height, w, v, c, 0, visible, invisible);
    var lines := LinesScript(caps, width, v, c, 0, visible, invisible);
    BlanksBlank(caps, shifts, width, height, w, lines.v, lines.c, |invisible|, visible, invisible);
    var blanks := BlanksScript(caps, width, lines.v, lines.c, |invisible|, visible);
    LeadsThen(shifts, width, s, lines, rows1, blanks, rows2);
    var both := Then(lines, blanks);
    var text := invisible[line].text;
    assert rows2[line][..col] == text[..col];
    CursorGoes(caps, shifts, width, Screen(rows2, both.v, both.c, false), both.v, both.c, line, col, text);
    LeadsThen(shifts, width, s, both, rows2, CursorScript(caps, both.v, both.c, line, col, text), rows2);
  }

  // ---------------------------------------------------------------- the methods

  lemma LiftAppend(a: seq<Cmd>, b: seq<Cmd>)
    ensures Lift(a + b) == Lift(a) + Lift(b)
  {
  }

  lemma VertEnds(caps: Caps, v: nat, c: nat, to: nat)
    ensures VertScript(caps, v, c, to).v == to
  {
  }

  lemma LineUnfold(caps: Caps, width: nat, v: nat, c: nat, current: nat, shown: Line, wanted: Line)
    requires shown.Valid() && wanted.Valid()
    ensures var d := Compare(shown, wanted);
            && d.d <= |shown.text| && d.ne <= |wanted.text| && Compared(shown.Window(), wanted.text[..d.ne], d)
            && LineScript(caps, width, v, c, current, shown, wanted)
               == if d.d == d.oe && d.d == d.ne then Drawn([], v, c)
                  else var go := VertScript(caps, v, c, current);
                       var u := RedrawScript(caps, width, go.c, shown, wanted.text[..d.ne], d);
                       Then(go, Drawn(Lift(u.cmds), current, u.col))
  {
    ComparesLines(shown, wanted);
  }

  lemma RedisplayUnfold(caps: Caps, width: nat, v: nat, c: nat, visible: seq<Line>, invisible: seq<Line>, line: nat,
                        col: nat)
    requires AllValid(visible) && AllValid(invisible)
    requires line < |invisible| && col <= |invisible[line].text|
    ensures var lines := LinesScript(caps, width, v, c, 0, visible, invisible);
            var blanks := BlanksScript(caps, width, lines.v, lines.c, |invisible|, visible);
            var cursor := CursorScript(caps, blanks.v, blanks.c, line, col, invisible[line].text);
            RedisplayScript(caps, width, v, c, visible, invisible, line, col) == Then(Then(lines, blanks), cursor)
  {
  }

  /** The output stream and the position the program believes the cursor at. */
  class Writer {
    const caps: Caps
    const screenWidth: nat
    const screenHeight: nat
    var out: seq<ScreenCmd>
    var lastVPos: nat
    var lastCPos: nat

    constructor (caps: Caps, screenWidth: nat, screenHeight: nat)
      ensures this.caps == caps && this.screenWidth == screenWidth && this.screenHeight == screenHeight
      ensures out == [] && lastVPos == 0 && lastCPos == 0
    {
      this.caps, this.screenWidth, this.screenHeight := caps, screenWidth, screenHeight;
      out, lastVPos, lastCPos := [], 0, 0;
    }

    method OutputSomeChars(s: seq<char>)
      modifies this`out
      ensures out == old(out) + Lift(Puts(s))
    {
      var i := 0;
      while i < |s|
        invariant i <= |s| && out == old(out) + Lift(Puts(s[..i]))
      {
        out := out + [OnRow(Put(s[i]))];
        i := i + 1;
        assert Lift(Puts(s[..i])) == Lift(Puts(s[..i - 1])) + [OnRow(Put(s[i - 1]))];
      }
      assert s[..i] == s;
    }

    /** `tputs` of a capability that does nothing when it is empty. */
    method Emit(cap: Cap, c: Cmd, count: nat)
      modifies this`out
      ensures out == old(out) + Lift(if cap == Code then Repeat(c, count) else [])
    {
      var i := 0;
      while i < count
        invariant i <= count && out == old(out) + Lift(if cap == Code then Repeat(c, i) else [])
      {
        if cap == Code {
          out := out + [OnRow(c)];
          assert Lift(Repeat(c, i + 1)) == Lift(Repeat(c, i)) + [OnRow(c)];
        }
        i := i + 1;
      }
    }

    method Backspace(count: nat)
      modifies this`out
      ensures out == old(out) + Lift(BackScript(caps, count))
    {
      Emit(if caps.le != Empty then Code else Empty, Back, count);
    }

    method MoveCursorRelative(to: nat, data: seq<char>)
      requires to <= |data|
      modifies this`out, this`lastCPos
      ensures out == old(out) + Lift(MoveScript(caps, old(lastCPos), to, data)) && lastCPos == to
    {
      hide StraightScript;
      if lastCPos == to {
        return;
      }
      if to == 0 || to + 1 < lastCPos - to {
        Emit(if caps.cr != Empty then Code else Empty, Return, 1);
        assert Repeat(Return, 1) == [Return];
        lastCPos := 0;
        LiftAppend(ReturnScript(caps), StraightScript(caps, 0, to, data));
      }
      MoveStraight(to, data);
    }

    method MoveStraight(to: nat, data: seq<char>)
      requires to <= |data|
      modifies this`out, this`lastCPos
      ensures out == old(out) + Lift(StraightScript(caps, old(lastCPos), to, data)) && lastCPos == to
    {
      if lastCPos < to {
        OutputSomeChars(data[lastCPos..to]);
      } else if lastCPos != to {
        Backspace(lastCPos - to);
      }
      lastCPos := to;
    }

    method MoveVert(to: nat)
      modifies this
      ensures var d := if to > screenHeight then Drawn([], old(lastVPos), old(lastCPos))
                       else VertScript(caps, old(lastVPos), old(lastCPos), to);
              out == old(out) + d.cmds && lastVPos == d.v && lastCPos == d.c
    {
      if lastVPos == to || to > screenHeight {
        return;
      }
      if to > lastVPos {
        var i := 0;
        while i < to - lastVPos
          invariant i <= to - lastVPos && out == old(out) + Times(LineFeed, i)
          invariant lastVPos == old(lastVPos)
        {
          out := out + [LineFeed];
          i := i + 1;
          assert Times(LineFeed, i) == Times(LineFeed, i - 1) + [LineFeed];
        }
        Emit(if caps.cr != Empty then Code else Empty, Return, 1);
        assert Repeat(Return, 1) == [Return];
        lastCPos := 0;
      } else if caps.up == Code {
        var i := 0;
        while i < lastVPos - to
          invariant i <= lastVPos - to && out == old(out) + Times(Up, i)
          invariant lastVPos == old(lastVPos) && lastCPos == old(lastCPos)
        {
          out := out + [Up];
          i := i + 1;
          assert Times(Up, i) == Times(Up, i - 1) + [Up];
        }
      }
      lastVPos := to;
    }

    method SpaceToEol(count: nat)
      modifies this`out, this`lastCPos
      ensures out == old(out) + Lift(Puts(Blanks(count))) && lastCPos == old(lastCPos) + count
    {
      OutputSomeChars(Blanks(count));
      lastCPos := lastCPos + count;
    }

    method ClearToEol(count: nat)
      modifies this`out, this`lastCPos
      ensures var u := ClearScript(caps, count);
              out == old(out) + Lift(u.cmds) && lastCPos == old(lastCPos) + u.col
    {
      if caps.ce != Absent {
        Emit(caps.ce, ClearEol, 1);
        assert Repeat(ClearEol, 1) == [ClearEol];
      } else if count != 0 {
        SpaceToEol(count);
      }
    }

    method InsertSomeChars(s: seq<char>)
      modifies this`out
      ensures out == old(out) + Lift(InsertScript(caps, s))
    {
      if caps.IC != Absent {
        InsertByCount(s);
      } else {
        InsertByMode(s);
      }
    }

    method InsertByCount(s: seq<char>)
      modifies this`out
      ensures out == old(out) + Lift(IfCode(caps.IC, OpenN(|s|)) + Puts(s))
    {
      Emit(caps.IC, OpenN(|s|), 1);
      assert Repeat(OpenN(|s|), 1) == [OpenN(|s|)];
      OutputSomeChars(s);
      LiftAppend(IfCode(caps.IC, OpenN(|s|)), Puts(s));
    }

    method InsertByMode(s: seq<char>)
      modifies this`out
      ensures out == old(out) + Lift(IfCode(caps.im, EnterInsert)
                                     + ((if caps.ic == Code then Repeat(Open1, |s|) else [])
                                       + (Puts(s) + IfCode(caps.ei, LeaveInsert))))
    {
      Emit(caps.im, EnterInsert, 1);
      assert Repeat(EnterInsert, 1) == [EnterInsert];
      LiftAppend(IfCode(caps.im, EnterInsert),
                 (if caps.ic == Code then Repeat(Open1, |s|) else []) + (Puts(s) + IfCode(caps.ei, LeaveInsert)));
      InsertInMode(s);
    }

    method InsertInMode(s: seq<char>)
      modifies this`out
      ensures out == old(out) + Lift((if caps.ic == Code then Repeat(Open1, |s|) else [])
        + (Puts(s) + IfCode(caps.ei, LeaveInsert)))
    {
      Emit(caps.ic, Open1, |s|);
      OutputSomeChars(s);
      Emit(caps.ei, LeaveInsert, 1);
      assert Repeat(LeaveInsert, 1) == [LeaveInsert];
      LiftAppend(Puts(s), IfCode(caps.ei, LeaveInsert));
      LiftAppend(if caps.ic == Code then Repeat(Open1, |s|) else [], Puts(s) + IfCode(caps.ei, LeaveInsert));
    }

    method DeleteChars(count: nat)
      modifies this`out
      ensures out == old(out) + Lift(DeleteScript(caps, screenWidth, count))
    {
      if count > screenWidth {
        return;
      }
      if caps.DC == Code {
        Emit(Code, DeleteN(count), 1);
        assert Repeat(DeleteN(count), 1) == [DeleteN(count)];
      } else {
        Emit(caps.dc, Delete1, count);
      }
    }

    static method EndOfLine(line: Line, from: nat) returns (end: nat)
      requires line.Valid() && from <= |line.text|
      ensures end == NewEnd(line, from)
    {
      end := from;
      while end < line.max && Display.At(line.text, end) != '\0'
        invariant from <= end <= NewEnd(line, from) && end <= |line.text|
        decreases |line.text| - end
      {
        end := end + 1;
      }
      assert end < |line.text| ==> line.text[end] in line.text;
    }

    static method FindTail(shown: seq<char>, wanted: seq<char>, d: nat, oe: nat, ne: nat) returns (ols: int, nls: int)
      requires d <= oe <= |shown| && d <= ne <= |wanted|
      requires d < oe && d < ne ==> shown[d] != wanted[d]
      ensures (ols, nls) == TailStart(shown, wanted, d, oe, ne)
    {
      var wsatend := true;
      ols, nls := oe - 1, ne - 1;
      while ols > d && nls > d && shown[ols] == wanted[nls]
        invariant ols < |shown| && nls < |wanted|
        invariant SkipSame(shown, wanted, d, ols, nls, wsatend) == SkipSame(shown, wanted, d, oe - 1, ne - 1, true)
      {
        if shown[ols] != ' ' {
          wsatend := false;
        }
        ols, nls := ols - 1, nls - 1;
      }
      SkipSameMeans(shown, wanted, d, oe, ne, oe - 1, ne - 1, true);
      if wsatend {
        ols, nls := oe, ne;
      } else if shown[ols] != wanted[nls] {
        ols, nls := if shown[ols] != '\0' then ols + 1 else ols, if wanted[nls] != '\0' then nls + 1 else nls;
      }
    }

    /** The comparison that opens update_line: pointers become indices. */
    static method CompareLines(shown: Line, wanted: Line) returns (c: Diff)
      requires shown.Valid() && wanted.Valid()
      ensures c == Compare(shown, wanted)
    {
      FirstDiffMeans(shown, wanted, 0);
      var d := 0;
      while d < shown.max && Display.At(shown.text, d) != '\0'
        && Display.At(shown.text, d) == Display.At(wanted.text, d)
        invariant d <= |shown.Window()| && FirstDiff(shown, wanted, d) == FirstDiff(shown, wanted, 0)
        decreases |shown.text| - d
      {
        d := d + 1;
      }
      var oe := EndOfLine(shown, d);
      var ne := EndOfLine(wanted, d);
      var ols, nls := FindTail(shown.text, wanted.text, d, oe, ne);
      c := Diff(d, ols, nls, oe, ne);
    }

    method Redraw(shown: Line, text: seq<char>, c: Diff)
      requires shown.Valid() && Compared(shown.Window(), text, c)
      modifies this`out, this`lastCPos
      ensures var u := RedrawScript(caps, screenWidth, old(lastCPos), shown, text, c);
              out == old(out) + Lift(u.cmds) && lastCPos == u.col
    {
      hide MoveScript, ChangeScript;
      MoveCursorRelative(c.d, shown.text);
      Change(shown, text, c);
      LiftAppend(MoveScript(caps, old(lastCPos), c.d, shown.text),
        ChangeScript(caps, screenWidth, shown, text, c).cmds);
    }

    /** update_line's insertions and deletions. */
    method Change(shown: Line, text: seq<char>, c: Diff)
      requires Compared(shown.Window(), text, c) && lastCPos == c.d
      modifies this`out, this`lastCPos
      ensures var u := ChangeScript(caps, screenWidth, shown, text, c);
              out == old(out) + Lift(u.cmds) && lastCPos == u.col
    {
      hide Lift, InsertScript, ClearScript, DeleteScript;
      if c.nls > c.ols {
        Grow(Display.At(shown.text, c.ols) == '\0', text, c.d, c.nls, c.nls - c.ols);
      } else {
        Shrink(text, c.d, c.nls, c.ols - c.nls, c.oe - |text|);
      }
    }

    method Grow(atEnd: bool, text: seq<char>, d: nat, nls: nat, lendiff: nat)
      requires d + lendiff <= nls <= |text| && lastCPos == d
      modifies this`out, this`lastCPos
      ensures var u := GrowScript(caps, atEnd, text, d, nls, lendiff);
              out == old(out) + Lift(u.cmds) && lastCPos == u.col
    {
      var temp := |text| - d;
      if CanInsert(caps) && (2 * temp >= lendiff || caps.IC != Absent) {
        var head := text[d..d + lendiff];
        if !atEnd {
          InsertSomeChars(head);
        } else {
          OutputSomeChars(head);
        }
        lastCPos := lastCPos + lendiff;
        temp := nls - d;
        if temp - lendiff > 0 {
          OutputSomeChars(text[d + lendiff..nls]);
          lastCPos := lastCPos + (temp - lendiff);
        }
        LiftAppend(if atEnd then Puts(head) else InsertScript(caps, head), Puts(text[d + lendiff..nls]));
      } else {
        OutputSomeChars(text[d..]);
        lastCPos := lastCPos + temp;
      }
    }

    method Shrink(text: seq<char>, d: nat, nls: nat, lendiff: nat, excess: nat)
      requires d <= nls <= |text| && lastCPos == d
      modifies this`out, this`lastCPos
      ensures var u := ShrinkScript(caps, screenWidth, text, d, nls, lendiff, excess);
              out == old(out) + Lift(u.cmds) && lastCPos == u.col
    {
      var temp := |text| - d;
      if caps.dc != Absent && 2 * temp >= lendiff {
        if lendiff != 0 {
          DeleteChars(lendiff);
        }
        temp := nls - d;
        if temp > 0 {
          OutputSomeChars(text[d..nls]);
          lastCPos := lastCPos + temp;
        }
        LiftAppend(if lendiff != 0 then DeleteScript(caps, screenWidth, lendiff) else [], Puts(text[d..nls]));
      } else {
        if temp > 0 {
          OutputSomeChars(text[d..]);
          lastCPos := lastCPos + temp;
        }
        ClearToEol(excess);
        LiftAppend(Puts(text[d..]), ClearScript(caps, excess).cmds);
      }
    }

    method UpdateLine(shown: Line, wanted: Line, current: nat)
      requires shown.Valid() && wanted.Valid() && current <= screenHeight
      modifies this
      ensures var d := LineScript(caps, screenWidth, old(lastVPos), old(lastCPos), current, shown, wanted);
              out == old(out) + d.cmds && lastVPos == d.v && lastCPos == d.c
    {
      hide LineScript, VertScript, RedrawScript;
      LineUnfold(caps, screenWidth, lastVPos, lastCPos, current, shown, wanted);
      var c := CompareLines(shown, wanted);
      if c.d == c.oe && c.d == c.ne {
        return;
      }
      MoveVert(current);
      VertEnds(caps, old(lastVPos), old(lastCPos), current);
      Redraw(shown, wanted.text[..c.ne], c);
    }

    method ClearLine(k: nat, visible: seq<Line>)
      requires k < |visible| <= screenHeight
      modifies this
      ensures var d := BlankScript(caps, screenWidth, old(lastVPos), old(lastCPos), k, visible);
              out == old(out) + d.cmds && lastVPos == d.v && lastCPos == d.c
    {
      hide VertScript, MoveScript, ClearScript;
      MoveVert(k);
      VertEnds(caps, old(lastVPos), old(lastCPos), k);
      ghost var c := lastCPos;
      MoveCursorRelative(0, visible[k].text);
      var count := if k + 1 == |visible| then |visible[k].text| else screenWidth;
      ClearToEol(count);
      LiftAppend(MoveScript(caps, c, 0, visible[k].text), ClearScript(caps, count).cmds);
    }

    method DrawLines(visible: seq<Line>, invisible: seq<Line>)
      requires AllValid(visible) && AllValid(invisible) && |invisible| <= screenHeight
      modifies this
      ensures var d := LinesScript(caps, screenWidth, old(lastVPos), old(lastCPos), 0, visible, invisible);
              out == old(out) + d.cmds && lastVPos == d.v && lastCPos == d.c
    {
      hide LineScript, LinesScript;
      ghost var lines := LinesScript(caps, screenWidth, lastVPos, lastCPos, 0, visible, invisible);
      var linenum := 0;
      while linenum < |invisible|
        invariant linenum <= |invisible|
        invariant var d := LinesScript(caps, screenWidth, lastVPos, lastCPos, linenum, visible, invisible);
                  out + d.cmds == old(out) + lines.cmds && d.v == lines.v && d.c == lines.c
      {
        LinesUnfold(caps, screenWidth, lastVPos, lastCPos, linenum, visible, invisible);
        UpdateLine(VisLine(visible, linenum), invisible[linenum], linenum);
        linenum := linenum + 1;
      }
      LinesUnfold(caps, screenWidth, lastVPos, lastCPos, linenum, visible, invisible);
    }

    method ClearLines(first: nat, visible: seq<Line>)
      requires |visible| <= screenHeight
      modifies this
      ensures var d := BlanksScript(caps, screenWidth, old(lastVPos), old(lastCPos), first, visible);
              out == old(out) + d.cmds && lastVPos == d.v && lastCPos == d.c
    {
      hide BlankScript, BlanksScript;
      ghost var blanks := BlanksScript(caps, screenWidth, lastVPos, lastCPos, first, visible);
      var linenum := first;
      while linenum < |visible|
        invariant first <= linenum
        invariant var d := BlanksScript(caps, screenWidth, lastVPos, lastCPos, linenum, visible);
                  out + d.cmds == old(out) + blanks.cmds && d.v == blanks.v && d.c == blanks.c
      {
        BlanksUnfold(caps, screenWidth, lastVPos, lastCPos, linenum, visible);
        ClearLine(linenum, visible);
        linenum := linenum + 1;
      }
      BlanksUnfold(caps, screenWidth, lastVPos, lastCPos, linenum, visible);
    }

    method PlaceCursor(line: nat, col: nat, text: seq<char>)
      requires col <= |text| && line <= screenHeight
      modifies this
      ensures var d := CursorScript(caps, old(lastVPos), old(lastCPos), line, col, text);
              out == old(out) + d.cmds && lastVPos == d.v && lastCPos == d.c
    {
      MoveVert(line);
      if col != lastCPos {
        MoveCursorRelative(col, text);
      }
    }

    /** The branch of rl_redisplay for terminals that can move up, `line` and `col`
        being the cursor's. */
    method Redisplay(visible: seq<Line>, invisible: seq<Line>, line: nat, col: nat)
      requires AllValid(visible) && AllValid(invisible) && |visible| <= screenHeight && |invisible| <= screenHeight
      requires line < |invisible| && col <= |invisible[line].text|
      modifies this
      ensures var d := RedisplayScript(caps, screenWidth, old(lastVPos), old(lastCPos), visible, invisible, line, col);
              out == old(out) + d.cmds && lastVPos == d.v && lastCPos == d.c
    {
      hide LinesScript, BlanksScript, CursorScript, RedisplayScript;
      DrawLines(visible, invisible);
      ClearLines(|invisible|, visible);
      PlaceCursor(line, col, invisible[line].text);
      RedisplayUnfold(caps, screenWidth, old(lastVPos), old(lastCPos), visible, invisible, line, col);
    }

    /** Where the row begins; None: a division by zero. */
    method FindMargin(cPos: nat, last: nat) returns (margin: Scroll.Maybe<nat>)
      ensures margin == Scroll.Margin(cPos, last, screenWidth)
    {
      var t := screenWidth / 3;
      var physCPos: int := cPos - last;
      var lmargin: int;
      if physCPos > screenWidth - 2 {
        lmargin := cPos - 2 * t;
        if lmargin < 0 {
          lmargin := 0;
        }
      } else if cPos < screenWidth - 2 {
        lmargin := 0;
      } else if physCPos < 1 {
        if t == 0 {
          return Scroll.None;
        }
        lmargin := if cPos == 0 then 0 else (cPos - 1) / t * t;
      } else {
        lmargin := last;
      }
      return Scroll.Some(lmargin);
    }

    /** The branch of rl_redisplay that shows the line on one row: the marked line and
        its margin, which the next call gets as `visible` and `last`.  Not ok: the
        screen is too narrow, and the C code divides by zero or writes outside the
        line. */
    method RedisplayOnOneRow(visible: seq<char>, last: nat, line: seq<char>, cPos: nat)
        returns (ok: bool, marked: seq<char>, margin: nat)
      requires '\0' !in visible && '\0' !in line && last <= |visible| && cPos <= |line|
      modifies this
      ensures ok == Scroll.Fits(Scroll.Margin(cPos, last, screenWidth), cPos, |line|, screenWidth)
      ensures ok ==>
        && margin == Scroll.Margin(cPos, last, screenWidth).value && marked == Scroll.Marked(line, margin, screenWidth)
        && var u := Scroll.ScrollScript(caps, screenWidth, old(lastCPos), visible, last, line, margin, cPos);
           out == old(out) + Lift(u.cmds) && lastVPos == 0 && lastCPos == u.col
    {
      hide UpdateScript, MoveScript, Scroll.Margin, Scroll.Marked, LineScript;
      lastVPos := 0;
      var m := FindMargin(cPos, last);
      ok, marked, margin := false, line, 0;
      if m == Scroll.None || (m.value != 0 && m.value >= |line|) || m.value > cPos || cPos >= m.value + screenWidth {
        return;
      }
      ok, margin := true, m.value;
      marked := MarkLine(line, margin);
      Scroll.FromIsValid(visible, last, screenWidth);
      Scroll.MarkedIsValid(line, margin, screenWidth);
      DrawOnOneRow(Line(visible[last..], screenWidth), Line(marked[margin..], screenWidth), cPos - margin);
    }

    method MarkLine(line: seq<char>, margin: nat) returns (marked: seq<char>)
      requires (margin == 0 || margin < |line|) && screenWidth > 0
      ensures marked == Scroll.Marked(line, margin, screenWidth)
    {
      marked := line;
      if margin > 0 {
        marked := marked[margin := '<'];
      }
      if margin + screenWidth < |line| {
        marked := marked[margin + screenWidth - 1 := '>'];
      }
    }

    method DrawOnOneRow(shown: Line, wanted: Line, col: nat)
      requires shown.Valid() && wanted.Valid() && lastVPos == 0 && col <= |wanted.text|
      modifies this
      ensures var u := UpdateScript(caps, screenWidth, old(lastCPos), shown, wanted);
              && out == old(out) + Lift(u.cmds + MoveScript(caps, u.col, col, wanted.text))
              && lastVPos == 0 && lastCPos == col
    {
      hide UpdateScript, MoveScript, LineScript;
      LineScriptInPlace(caps, screenWidth, 0, lastCPos, shown, wanted);
      UpdateLine(shown, wanted, 0);
      ghost var c := lastCPos;
      MoveCursorRelative(col, wanted.text);
      LiftAppend(UpdateScript(caps, screenWidth, old(lastCPos), shown, wanted).cmds,
        MoveScript(caps, c, col, wanted.text));
    }
  }

  /** On the cursor's own row an update is nothing but its row script. */
  lemma LineScriptInPlace(caps: Caps, width: nat, v: nat, c: nat, shown: Line, wanted: Line)
    requires shown.Valid() && wanted.Valid()
    ensures var u := UpdateScript(caps, width, c, shown, wanted);
            LineScript(caps, width, v, c, v, shown, wanted) == Drawn(Lift(u.cmds), v, u.col)
  {
    assert [] + Lift(UpdateScript(caps, width, c, shown, wanted).cmds)
        == Lift(UpdateScript(caps, width, c, shown, wanted).cmds);
  }
}
