/** Killing text into the kill ring and yanking it back: libs/readline/kill.c,
    with the flag the command loop of libs/readline/readline.c resets.  Emacs mode. */
module Kill {
  import opened Editor

  const MaxKills: nat := 10

  /** An empty ring is one not yet allocated.  `was` counts the kills since the
      last command that was none. */
  datatype State = State(edit: Edit, slots: seq<string>, index: nat, was: nat)

  predicate Ready(k: State) {
    && k.edit.point <= |k.edit.line|
    && |k.slots| <= MaxKills
    && (k.slots != [] ==> k.index < |k.slots|)
    && forall i | 0 <= i < |k.slots| :: k.slots[i] != ""
  }

  /** What is left of the ring when a new slot is taken. */
  function Kept(slots: seq<string>): seq<string> {
    if |slots| == MaxKills then slots[1..] else slots
  }

  function Stored(slots: seq<string>, was: nat, text: string, append: bool): (r: seq<string>)
    requires was > 0 ==> slots != []
    ensures r != []
  {
    if was == 0 then Kept(slots) + [text]
    else
      var top := slots[|slots| - 1];
      slots[..|slots| - 1] + [if append then top + text else text + top]
  }

  function Between(line: string, a: nat, b: nat): string
    requires a <= |line| && b <= |line|
  {
    if a <= b then line[a..b] else line[b..a]
  }

  /** NoSlot: the kill is to join the newest slot of a ring that does not exist,
      and the C code reads through a null pointer. */
  datatype Outcome = NoSlot | Done(state: State)

  predicate CanKill(k: State, from: nat, to: nat) {
    from <= |k.edit.line| && to <= |k.edit.line|
  }

  function Killed(k: State, from: nat, to: nat): Outcome
    requires CanKill(k, from, to)
  {
    if from == to then Done(k.(was := k.was + 1))
    else if k.was > 0 && k.slots == [] then NoSlot
    else
      var slots := Stored(k.slots, k.was, Between(k.edit.line, from, to), from < to);
      Done(State(Apply(k.edit, Delete(from, to)), slots, |slots| - 1, k.was + 1))
  }

  function MovedTo(k: State, p: nat): State {
    k.(edit := k.edit.(point := p))
  }

  /** Killing does not look at point, and leaves it alone. */
  lemma PointAside(k: State, from: nat, to: nat, p: nat)
    requires CanKill(k, from, to)
    ensures var o := Killed(MovedTo(k, p), from, to);
      && Killed(k, from, to) == (if o.Done? then Done(MovedTo(o.state, k.edit.point)) else o)
      && (o.Done? ==> o.state.edit.point == p)
  {
    hide Stored;
  }

  // --------------------------------------------------------------- the commands

  /** Killing forward or backward from point to where a motion leads, killing the
      region, killing the whole line. */
  datatype Command = Forward(to: nat) | Backward(to: nat) | Region(mark: nat) | FullLine

  predicate CanDo(k: State, c: Command) {
    match c
    case Forward(to) => k.edit.point <= to && CanKill(k, k.edit.point, to)
    case Backward(to) => to <= k.edit.point && CanKill(k, k.edit.point, to)
    case Region(mark) => CanKill(k, k.edit.point, mark)
    case FullLine => CanKill(k, 0, |k.edit.line|)
  }

  function Did(k: State, c: Command): Outcome
    requires CanDo(k, c)
  {
    match c
    case Forward(to) => if to == k.edit.point then Done(k) else Killed(k, k.edit.point, to)
    case Backward(to) => if to == k.edit.point then Done(k) else Killed(MovedTo(k, to), k.edit.point, to)
    case Region(mark) =>
      var o := Killed(k, k.edit.point, mark);
      if o.Done? && |o.state.edit.line| < o.state.edit.point then Done(MovedTo(o.state, |o.state.edit.line|)) else o
    case FullLine =>
      var begun := Apply(k.edit.(point := 0), BeginGroup);
      var o := Killed(k.(edit := begun), 0, |k.edit.line|);
      if o.Done? then Done(o.state.(edit := Apply(o.state.edit, EndGroup))) else o
  }

  /** One round of the command loop: a command that did not count as a kill ends
      the run. */
  function Dispatched(k: State, c: Command): Outcome
    requires CanDo(k, c)
  {
    var o := Did(k, c);
    if o.Done? && o.state.was == k.was then Done(o.state.(was := 0)) else o
  }

  function Yanked(k: State): State
    requires Ready(k) && k.slots != []
  {
    k.(edit := Apply(k.edit, Insert(k.slots[k.index])))
  }

  // --------------------------------------------------------- kill, then yank back

  /** How much the command takes out of the line. */
  function Takes(k: State, c: Command): int {
    match c
    case Forward(to) => to - k.edit.point
    case Backward(to) => k.edit.point - to
    case Region(mark) => if mark < k.edit.point then k.edit.point - mark else mark - k.edit.point
    case FullLine => |k.edit.line|
  }

  /** The command goes into the run: motions that lead nowhere kill nothing and do
      not count. */
  predicate Counts(k: State, c: Command) {
    c.Forward? || c.Backward? ==> Takes(k, c) > 0
  }

  /** A run of commands that count as kills. */
  predicate KillRun(k: State, cmds: seq<Command>)
    decreases |cmds|
  {
    cmds == [] ||
    (CanDo(k, cmds[0]) && Counts(k, cmds[0]) &&
     var o := Dispatched(k, cmds[0]); o.Done? ==> KillRun(o.state, cmds[1..]))
  }

  function AfterRun(k: State, cmds: seq<Command>): Outcome
    requires KillRun(k, cmds)
    decreases |cmds|
  {
    if cmds == [] then Done(k)
    else
      var o := Dispatched(k, cmds[0]);
      if o.NoSlot? then NoSlot else AfterRun(o.state, cmds[1..])
  }

  function Top(k: State): string
    requires k.slots != []
  {
    k.slots[|k.slots| - 1]
  }

  function Below(slots: seq<string>, was: nat): seq<string>
    requires was > 0 ==> slots != []
  {
    if was == 0 then Kept(slots) else slots[..|slots| - 1]
  }

  function Joined(k: State): string
    requires k.was > 0 ==> k.slots != []
  {
    if k.was == 0 then "" else Top(k)
  }

  lemma StoredTop(slots: seq<string>, was: nat, text: string, append: bool)
    requires text != "" && (was > 0 ==> slots != [])
    requires |slots| <= MaxKills && forall i | 0 <= i < |slots| :: slots[i] != ""
    ensures var r, old0 := Stored(slots, was, text, append), if was == 0 then "" else slots[|slots| - 1];
      && r[..|r| - 1] == Below(slots, was) && r[|r| - 1] == (if append then old0 + text else text + old0)
      && |r| <= MaxKills && (forall i | 0 <= i < |r| :: r[i] != "") && |r| == |Below(slots, was)| + 1
  {
  }

  // ------------------------------------------ what a kill does to line, slot and point

  /** A line of things, the slot taken out of it so far, and point. */
  datatype Cut<T> = Cut(line: seq<T>, slot: seq<T>, point: nat)

  /** Where the killed text begins and ends in a line of so many things. */
  function KillFrom(n: nat, point: nat, c: Command): nat {
    match c
    case Forward(_) => point
    case Backward(to) => to
    case Region(mark) => if mark < point then mark else point
    case FullLine => 0
  }

  function KillTo(n: nat, point: nat, c: Command): nat {
    match c
    case Forward(to) => to
    case Backward(_) => point
    case Region(mark) => if mark < point then point else mark
    case FullLine => n
  }

  /** The text goes behind the slot's. */
  predicate Appends(point: nat, c: Command) {
    c.Forward? || c.FullLine? || (c.Region? && point < c.mark)
  }

  function PointAfter(n: nat, point: nat, c: Command): nat {
    match c
    case Forward(_) => point
    case Backward(to) => to
    case Region(_) =>
      var n' := n - (KillTo(n, point, c) - KillFrom(n, point, c));
      if n' < point then (if n' < 0 then 0 else n') else point
    case FullLine => 0
  }

  /** The killed range lies in the line. */
  predicate InLine(n: nat, point: nat, c: Command) {
    point <= n && KillFrom(n, point, c) <= KillTo(n, point, c) <= n
  }

  function CutBy<T>(x: Cut<T>, c: Command): (r: Cut<T>)
    requires InLine(|x.line|, x.point, c)
    ensures |r.line| == |x.line| - (KillTo(|x.line|, x.point, c) - KillFrom(|x.line|, x.point, c))
    ensures r.point == PointAfter(|x.line|, x.point, c)
  {
    var a, b := KillFrom(|x.line|, x.point, c), KillTo(|x.line|, x.point, c);
    var text := x.line[a..b];
    Cut(x.line[..a] + x.line[b..], if Appends(x.point, c) then x.slot + text else text + x.slot,
        PointAfter(|x.line|, x.point, c))
  }

  function CutOf(k: State): Cut<char>
    requires k.was > 0 ==> k.slots != []
  {
    Cut(k.edit.line, Joined(k), k.edit.point)
  }

  /** The texts before and behind a deletion. */
  lemma DeletedIs(k: State, from: nat, to: nat)
    requires CanKill(k, from, to) && from != to
    ensures var lo, hi := if from < to then from else to, if from < to then to else from;
      Apply(k.edit, Delete(from, to)).line == k.edit.line[..lo] + k.edit.line[hi..]
      && Apply(k.edit, Delete(from, to)).point == k.edit.point && Between(k.edit.line, from, to) == k.edit.line[lo..hi]
  {
  }

  lemma KilledAt(k: State, from: nat, to: nat)
    requires |k.slots| <= MaxKills && (forall i | 0 <= i < |k.slots| :: k.slots[i] != "")
    requires CanKill(k, from, to) && from != to && (k.was > 0 ==> k.slots != [])
    ensures Killed(k, from, to).Done?
    ensures var k' := Killed(k, from, to).state;
      && k'.slots != [] && k'.index == |k'.slots| - 1 && |k'.slots| <= MaxKills
      && (forall i | 0 <= i < |k'.slots| :: k'.slots[i] != "")
      && k'.slots[..|k'.slots| - 1] == Below(k.slots, k.was) && k'.was == k.was + 1 && k'.edit.point == k.edit.point
      && var lo, hi := if from < to then from else to, if from < to then to else from;
         var text := k.edit.line[lo..hi];
         && k'.edit.line == k.edit.line[..lo] + k.edit.line[hi..]
         && Top(k') == if from < to then Joined(k) + text else text + Joined(k)
  {
    hide Stored, Below, Apply;
    DeletedIs(k, from, to);
    StoredTop(k.slots, k.was, Between(k.edit.line, from, to), from < to);
  }

  /** What k' is if the command has killed between from and to. */
  predicate CutFrom(k: State, from: nat, to: nat, k': State)
    requires from <= |k.edit.line| && to <= |k.edit.line| && (k.was > 0 ==> k.slots != [])
  {
    && k'.slots != [] && k'.index == |k'.slots| - 1 && |k'.slots| <= MaxKills
    && (forall i | 0 <= i < |k'.slots| :: k'.slots[i] != "")
    && k'.slots[..|k'.slots| - 1] == Below(k.slots, k.was) && k'.was == k.was + 1
    && var lo, hi := if from < to then from else to, if from < to then to else from;
       var text := k.edit.line[lo..hi];
       && k'.edit.line == k.edit.line[..lo] + k.edit.line[hi..]
       && Top(k') == if from < to then Joined(k) + text else text + Joined(k)
  }

  lemma FullLineCuts(k: State)
    requires Ready(k) && k.edit.line != "" && (k.was > 0 ==> k.slots != [])
    ensures var o := Did(k, FullLine); o.Done? && CutFrom(k, 0, |k.edit.line|, o.state) && o.state.edit.point == 0
  {
    hide Killed, Below, Apply;
    GroupKeepsLine(k.edit.(point := 0));
    var begun := k.(edit := Apply(k.edit.(point := 0), BeginGroup));
    KilledAt(begun, 0, |k.edit.line|);
    GroupKeepsLine(Killed(begun, 0, |k.edit.line|).state.edit);
  }

  /** What the command makes of k. */
  predicate Cuts(k: State, c: Command, k': State)
    requires CanDo(k, c) && (k.was > 0 ==> k.slots != [])
  {
    var n, p := |k.edit.line|, k.edit.point;
    match c
    case Forward(to) => CutFrom(k, p, to, k') && k'.edit.point == p
    case Backward(to) => CutFrom(k, p, to, k') && k'.edit.point == to
    case Region(mark) => CutFrom(k, p, mark, k') && k'.edit.point == if |k'.edit.line| < p then |k'.edit.line| else p
    case FullLine => CutFrom(k, 0, n, k') && k'.edit.point == 0
  }

  lemma CommandCuts(k: State, c: Command)
    requires Ready(k) && CanDo(k, c) && Takes(k, c) > 0 && (k.was > 0 ==> k.slots != [])
    ensures Did(k, c).Done? && Cuts(k, c, Did(k, c).state)
    ensures Dispatched(k, c) == Did(k, c)
  {
    hide Did, Cuts, CutFrom, Takes;
    DidCuts(k, c);
    CutsCounts(k, c, Did(k, c).state);
  }

  lemma DidCuts(k: State, c: Command)
    requires Ready(k) && CanDo(k, c) && Takes(k, c) > 0 && (k.was > 0 ==> k.slots != [])
    ensures Did(k, c).Done? && Cuts(k, c, Did(k, c).state)
  {
    hide Killed, Below, Apply;
    match c
    case Forward(to) => KilledAt(k, k.edit.point, to);
    case Backward(to) => KilledAt(MovedTo(k, to), k.edit.point, to);
    case Region(mark) => KilledAt(k, k.edit.point, mark);
    case FullLine => FullLineCuts(k);
  }

  lemma CutsCounts(k: State, c: Command, k': State)
    requires CanDo(k, c) && (k.was > 0 ==> k.slots != []) && Cuts(k, c, k')
    ensures k'.was == k.was + 1
  {
    hide Below;
  }

  lemma CutsBy(k: State, c: Command, k': State)
    requires Ready(k) && CanDo(k, c) && Takes(k, c) > 0 && (k.was > 0 ==> k.slots != []) && Cuts(k, c, k')
    ensures InLine(|k.edit.line|, k.edit.point, c) && k'.was > 0 && k'.slots != []
    ensures CutOf(k') == CutBy(CutOf(k), c)
  {
    hide Below;
  }

  lemma CutsLengths(k: State, c: Command, k': State)
    requires Ready(k) && CanDo(k, c) && Takes(k, c) > 0 && (k.was > 0 ==> k.slots != []) && Cuts(k, c, k')
    ensures k'.slots != []
    ensures |Top(k')| == |Joined(k)| + Takes(k, c) && |k'.edit.line| == |k.edit.line| - Takes(k, c)
    ensures k'.edit.point <= |k'.edit.line|
  {
    hide Below;
  }

  /** One effective kill of the run. */
  lemma KillOne(k: State, c: Command)
    requires Ready(k) && CanDo(k, c) && Takes(k, c) > 0 && (k.was > 0 ==> k.slots != [])
    ensures InLine(|k.edit.line|, k.edit.point, c) && Dispatched(k, c).Done?
    ensures var k' := Dispatched(k, c).state;
      && Ready(k') && k'.was > 0 && k'.slots != [] && k'.index == |k'.slots| - 1
      && CutOf(k') == CutBy(CutOf(k), c)
      && k'.slots[..|k'.slots| - 1] == Below(k.slots, k.was)
      && |Top(k')| == |Joined(k)| + Takes(k, c) && |k'.edit.line| == |k.edit.line| - Takes(k, c)
  {
    hide Dispatched, Did, Below, InLine, CutBy, CutOf, Takes, CanDo;
    CommandCuts(k, c);
    CutsBy(k, c, Dispatched(k, c).state);
    CutsLengths(k, c, Dispatched(k, c).state);
  }

  lemma GroupKeepsLine(e: Edit)
    ensures Apply(e, BeginGroup).line == e.line == Apply(e, EndGroup).line
    ensures Apply(e, BeginGroup).point == e.point == Apply(e, EndGroup).point
  {
  }

  lemma NothingKilled(k: State, c: Command)
    requires Ready(k) && CanDo(k, c) && Counts(k, c) && Takes(k, c) <= 0
    ensures Dispatched(k, c).Done?
    ensures var k' := Dispatched(k, c).state;
      && Ready(k') && k'.was > 0 && k'.slots == k.slots && k'.index == k.index
      && k'.edit.line == k.edit.line && k'.edit.point == k.edit.point
  {
  }

  /** An old slot that was joined stays in the way. */
  lemma {:induction false} RunKeepsLength(k: State, cmds: seq<Command>)
    requires Ready(k) && k.was > 0 && k.slots != [] && KillRun(k, cmds)
    ensures AfterRun(k, cmds).Done?
    ensures var k' := AfterRun(k, cmds).state;
      && Ready(k') && |k'.slots| == |k.slots|
      && |k'.edit.line| + |Top(k')| == |k.edit.line| + |Top(k)|
      && (k'.index == |k'.slots| - 1 || (k'.slots == k.slots && k'.index == k.index && k'.edit.line == k.edit.line))
    decreases |cmds|
  {
    hide Dispatched, CanDo, Counts;
    if cmds != [] {
      if Takes(k, cmds[0]) > 0 {
        KillOne(k, cmds[0]);
      } else {
        NothingKilled(k, cmds[0]);
      }
      RunKeepsLength(Dispatched(k, cmds[0]).state, cmds[1..]);
    }
  }

  /** With a kill counted but no ring made, the first kill that takes something
      finds no slot. */
  lemma {:induction false} RunWithoutRing(k: State, cmds: seq<Command>)
    requires Ready(k) && k.was > 0 && k.slots == [] && KillRun(k, cmds)
    ensures AfterRun(k, cmds) == NoSlot <==> exists i | 0 <= i < |cmds| :: Takes(k, cmds[i]) > 0
    ensures AfterRun(k, cmds).Done? ==> AfterRun(k, cmds).state.slots == []
    decreases |cmds|
  {
    hide CanDo, Counts;
    if cmds != [] {
      if Takes(k, cmds[0]) <= 0 {
        NothingKilled(k, cmds[0]);
        var k1 := Dispatched(k, cmds[0]).state;
        RunWithoutRing(k1, cmds[1..]);
        forall c: Command
          ensures Takes(k1, c) == Takes(k, c)
        {
        }
        assert forall i | 0 <= i < |cmds| :: i > 0 ==> cmds[i] == cmds[1..][i - 1];
        if i :| 0 <= i < |cmds[1..]| && Takes(k, cmds[1..][i]) > 0 {
          assert cmds[i + 1] == cmds[1..][i];
        }
      } else {
        TakesFindsNoSlot(k, cmds[0]);
      }
    }
  }

  lemma TakesFindsNoSlot(k: State, c: Command)
    requires Ready(k) && k.was > 0 && k.slots == [] && CanDo(k, c) && Takes(k, c) > 0
    ensures Dispatched(k, c) == NoSlot
  {
  }

  /** Yanking after the run gives the line. */
  predicate Restores(line: string, o: Outcome) {
    o.Done? && Ready(o.state) && o.state.slots != [] && Yanked(o.state).edit.line == line
  }

  // ------------------------------------------------------------- keeping track of home

  /** The length of the line, point, and the place where the slot's text belongs:
      None before the first text, Lost once the slot has texts in it that were not
      next to each other. */
  datatype Home = Nowhere | At(place: nat) | Lost
  datatype Track = Track(n: nat, point: nat, home: Home)

  /** A text put behind the slot's has to begin at home, one put before it has to end
      there. */
  function Tracked(t: Track, c: Command): (r: Track)
    requires InLine(t.n, t.point, c)
    ensures r.n == Left(t.n, t.point, c) && r.point == PointAfter(t.n, t.point, c)
  {
    var a, b := KillFrom(t.n, t.point, c), KillTo(t.n, t.point, c);
    if a == b then t.(point := PointAfter(t.n, t.point, c))
    else
      var home := if t.home == Nowhere then At(a)
                  else if t.home == At(if Appends(t.point, c) then a else b) then At(a)
                  else Lost;
      Track(t.n - (b - a), PointAfter(t.n, t.point, c), home)
  }

  function Left(n: nat, point: nat, c: Command): nat
    requires InLine(n, point, c)
  {
    n - (KillTo(n, point, c) - KillFrom(n, point, c))
  }

  /** The commands are about a line of this length. */
  predicate InLines(n: nat, point: nat, cmds: seq<Command>)
    decreases |cmds|
  {
    cmds == [] ||
    (InLine(n, point, cmds[0]) && InLines(Left(n, point, cmds[0]), PointAfter(n, point, cmds[0]), cmds[1..]))
  }

  function TrackedRun(t: Track, cmds: seq<Command>): Track
    requires InLines(t.n, t.point, cmds)
    decreases |cmds|
  {
    if cmds == [] then t else TrackedRun(Tracked(t, cmds[0]), cmds[1..])
  }

  function CutRun<T>(x: Cut<T>, cmds: seq<Command>): Cut<T>
    requires InLines(|x.line|, x.point, cmds)
    decreases |cmds|
  {
    if cmds == [] then x else CutRun(CutBy(x, cmds[0]), cmds[1..])
  }

  /** Putting the slot back at point. */
  function PutBack<T>(x: Cut<T>): seq<T>
    requires x.point <= |x.line|
  {
    x.line[..x.point] + x.slot + x.line[x.point..]
  }

  /** The places 0, 1, ... of a line. */
  function Places(a: nat, b: nat): (r: seq<nat>)
    requires a <= b
    ensures |r| == b - a && forall i | 0 <= i < |r| :: r[i] == a + i
  {
    seq(b - a, i requires 0 <= i < b - a => a + i)
  }

  /** The characters of a line at some places. */
  function Pick(line: string, places: seq<nat>): (r: string)
    requires Inside(line, places)
    ensures |r| == |places| && forall i | 0 <= i < |r| :: r[i] == line[places[i]]
  {
    seq(|places|, i requires 0 <= i < |places| => line[places[i]])
  }

  predicate Picks(line: string, x: Cut<nat>, y: Cut<char>) {
    && Inside(line, x.line) && Inside(line, x.slot)
    && y.line == Pick(line, x.line) && y.slot == Pick(line, x.slot) && y.point == x.point
  }

  predicate Inside(line: string, places: seq<nat>) {
    forall i | 0 <= i < |places| :: places[i] < |line|
  }

  lemma PickConcat(line: string, a: seq<nat>, b: seq<nat>)
    requires Inside(line, a) && Inside(line, b)
    ensures Inside(line, a + b) && Pick(line, a + b) == Pick(line, a) + Pick(line, b)
  {
  }

  lemma PickSlice(line: string, a: seq<nat>, i: nat, j: nat)
    requires Inside(line, a) && i <= j <= |a|
    ensures Inside(line, a[i..j]) && Pick(line, a[i..j]) == Pick(line, a)[i..j]
  {
  }

  /** Kills treat places as they treat characters. */
  lemma CutPicks(line: string, x: Cut<nat>, y: Cut<char>, c: Command)
    requires Picks(line, x, y) && InLine(|x.line|, x.point, c)
    ensures Picks(line, CutBy(x, c), CutBy(y, c))
  {
    hide Pick, Inside, InLine, KillFrom, KillTo, PointAfter;
    var n := |x.line|;
    PicksLength(line, x, y);
    RangeInLine(n, x.point, c);
    var a, b := KillFrom(n, x.point, c), KillTo(n, x.point, c);
    PickSlice(line, x.line, 0, a);
    PickSlice(line, x.line, a, b);
    PickSlice(line, x.line, b, n);
    assert x.line[..a] == x.line[0..a] && x.line[b..] == x.line[b..n];
    assert y.line[..a] == y.line[0..a] && y.line[b..] == y.line[b..n];
    PickConcat(line, x.line[..a], x.line[b..]);
    PickConcat(line, x.slot, x.line[a..b]);
    PickConcat(line, x.line[a..b], x.slot);
  }

  lemma RangeInLine(n: nat, point: nat, c: Command)
    requires InLine(n, point, c)
    ensures KillFrom(n, point, c) <= KillTo(n, point, c) <= n
  {
  }

  lemma {:induction false} CutRunPicks(line: string, x: Cut<nat>, y: Cut<char>, cmds: seq<Command>)
    requires Picks(line, x, y) && InLines(|x.line|, x.point, cmds)
    ensures Picks(line, CutRun(x, cmds), CutRun(y, cmds))
    decreases |cmds|
  {
    hide Picks, CutBy;
    PicksLength(line, x, y);
    if cmds != [] {
      CutPicks(line, x, y, cmds[0]);
      CutRunPicks(line, CutBy(x, cmds[0]), CutBy(y, cmds[0]), cmds[1..]);
    }
  }

  lemma PicksLength(line: string, x: Cut<nat>, y: Cut<char>)
    requires Picks(line, x, y)
    ensures |y.line| == |x.line| && y.point == x.point
  {
  }

  /** The places of a line from which m were taken at h. */
  predicate Apart(line: seq<nat>, h: nat, m: nat) {
    forall i | 0 <= i < |line| :: line[i] == if i < h then i else i + m
  }

  predicate Consecutive(slot: seq<nat>, h: nat) {
    forall i | 0 <= i < |slot| :: slot[i] == h + i
  }

  /** What the track says of the places: all in order, with the slot's the ones from
      home on; or two neighbours in the slot that are not neighbours in the line. */
  predicate Follows(t: Track, x: Cut<nat>, n: nat) {
    && t.n == |x.line| && t.point == x.point && t.point <= t.n && |x.line| + |x.slot| == n
    && match t.home
       case Nowhere => x.slot == [] && Apart(x.line, 0, 0)
       case At(h) => x.slot != [] && h <= |x.line| && Consecutive(x.slot, h) && Apart(x.line, h, |x.slot|)
       case Lost => exists i | 0 <= i < |x.slot| - 1 :: Torn(x.slot, i)
  }

  predicate Torn(slot: seq<nat>, i: nat)
    requires i + 1 < |slot|
  {
    slot[i + 1] != slot[i] + 1
  }

  /** Taking the places from a to b, at home. */
  lemma TakenApart(line: seq<nat>, h: nat, m: nat, a: nat, b: nat)
    requires Apart(line, h, m) && a <= b <= |line| && (a == h || b == h)
    ensures Apart(line[..a] + line[b..], a, m + (b - a))
    ensures Consecutive(line[a..b], if a == h then h + m else a)
  {
  }

  lemma Consecutively(s: seq<nat>, h: nat, t: seq<nat>)
    requires Consecutive(s, h) && Consecutive(t, h + |s|)
    ensures Consecutive(s + t, h)
  {
  }

  lemma PointInLine(n: nat, point: nat, c: Command)
    requires InLine(n, point, c)
    ensures PointAfter(n, point, c) <= Left(n, point, c)
  {
  }

  lemma TrackAppended(t: Track, x: Cut<nat>, n: nat, c: Command)
    requires Follows(t, x, n) && InLine(t.n, t.point, c) && t.home.At? && Appends(t.point, c)
    requires KillFrom(t.n, t.point, c) < KillTo(t.n, t.point, c)
    ensures Follows(Tracked(t, c), CutBy(x, c), n)
  {
    hide KillFrom, KillTo, PointAfter, Appends;
    PointInLine(t.n, t.point, c);
    var h, a, b := t.home.place, KillFrom(t.n, t.point, c), KillTo(t.n, t.point, c);
    var x', text := CutBy(x, c), x.line[a..b];
    if a == h {
      TakenApart(x.line, h, |x.slot|, a, b);
      Consecutively(x.slot, h, text);
    } else {
      assert x'.slot[|x.slot| - 1] == x.slot[|x.slot| - 1] && x'.slot[|x.slot|] == text[0] == x.line[a];
      assert Torn(x'.slot, |x.slot| - 1);
    }
  }

  lemma TrackPrepended(t: Track, x: Cut<nat>, n: nat, c: Command)
    requires Follows(t, x, n) && InLine(t.n, t.point, c) && t.home.At? && !Appends(t.point, c)
    requires KillFrom(t.n, t.point, c) < KillTo(t.n, t.point, c)
    ensures Follows(Tracked(t, c), CutBy(x, c), n)
  {
    hide KillFrom, KillTo, PointAfter, Appends;
    PointInLine(t.n, t.point, c);
    var h, a, b := t.home.place, KillFrom(t.n, t.point, c), KillTo(t.n, t.point, c);
    var x', text := CutBy(x, c), x.line[a..b];
    if b == h {
      TakenApart(x.line, h, |x.slot|, a, b);
      Consecutively(text, a, x.slot);
    } else {
      assert x'.slot[|text| - 1] == text[|text| - 1] == x.line[b - 1] && x'.slot[|text|] == x.slot[0];
      assert Torn(x'.slot, |text| - 1);
    }
  }

  lemma TrackStep(t: Track, x: Cut<nat>, n: nat, c: Command)
    requires Follows(t, x, n) && InLine(t.n, t.point, c)
    ensures Follows(Tracked(t, c), CutBy(x, c), n)
  {
    var a, b := KillFrom(t.n, t.point, c), KillTo(t.n, t.point, c);
    if a == b {
      TrackNothing(t, x, n, c);
    } else if t.home.At? && Appends(t.point, c) {
      TrackAppended(t, x, n, c);
    } else if t.home.At? {
      TrackPrepended(t, x, n, c);
    } else if t.home == Nowhere {
      TrackFirst(t, x, n, c);
    } else {
      TrackLost(t, x, n, c);
    }
  }

  lemma TrackNothing(t: Track, x: Cut<nat>, n: nat, c: Command)
    requires Follows(t, x, n) && InLine(t.n, t.point, c) && KillFrom(t.n, t.point, c) == KillTo(t.n, t.point, c)
    ensures Follows(Tracked(t, c), CutBy(x, c), n)
  {
    hide KillFrom, KillTo, PointAfter, Apart, Consecutive;
    PointInLine(t.n, t.point, c);
    var a, x' := KillFrom(t.n, t.point, c), CutBy(x, c);
    assert x.line[..a] + x.line[a..] == x.line && x.line[a..a] == [];
    assert x'.line == x.line && x'.slot == x.slot;
  }

  lemma TrackFirst(t: Track, x: Cut<nat>, n: nat, c: Command)
    requires Follows(t, x, n) && InLine(t.n, t.point, c) && t.home == Nowhere
    requires KillFrom(t.n, t.point, c) < KillTo(t.n, t.point, c)
    ensures Follows(Tracked(t, c), CutBy(x, c), n)
  {
    var a, b := KillFrom(t.n, t.point, c), KillTo(t.n, t.point, c);
    assert Apart(x.line, a, 0);
    TakenApart(x.line, a, 0, a, b);
    assert CutBy(x, c).slot == x.line[a..b];
  }

  lemma TrackLost(t: Track, x: Cut<nat>, n: nat, c: Command)
    requires Follows(t, x, n) && InLine(t.n, t.point, c) && t.home == Lost
    ensures Follows(Tracked(t, c), CutBy(x, c), n)
  {
    hide Torn;
    var i :| 0 <= i < |x.slot| - 1 && Torn(x.slot, i);
    StaysTorn(x.slot, x.line[KillFrom(t.n, t.point, c)..KillTo(t.n, t.point, c)], i);
  }

  lemma StaysTorn(slot: seq<nat>, text: seq<nat>, i: nat)
    requires i + 1 < |slot| && Torn(slot, i)
    ensures |slot + text| == |text + slot| == |slot| + |text|
    ensures Torn(slot + text, i) && Torn(text + slot, |text| + i)
  {
    assert (text + slot)[|text| + i] == slot[i] && (text + slot)[|text| + i + 1] == slot[i + 1];
  }

  lemma {:induction false} TrackRun(t: Track, x: Cut<nat>, n: nat, cmds: seq<Command>)
    requires Follows(t, x, n) && InLines(t.n, t.point, cmds)
    ensures Follows(TrackedRun(t, cmds), CutRun(x, cmds), n)
    decreases |cmds|
  {
    hide CutBy, Tracked;
    FollowsLength(t, x, n);
    if cmds != [] {
      TrackStep(t, x, n, cmds[0]);
      TrackRun(Tracked(t, cmds[0]), CutBy(x, cmds[0]), n, cmds[1..]);
    }
  }

  lemma FollowsLength(t: Track, x: Cut<nat>, n: nat)
    requires Follows(t, x, n)
    ensures t.n == |x.line| && t.point == x.point <= |x.line| && |PutBack(x)| == n
  {
  }

  /** The places come back in order exactly when point is home. */
  lemma HomeDecides(t: Track, x: Cut<nat>, n: nat)
    requires Follows(t, x, n) && t.home != Nowhere
    ensures PutBack(x) == Places(0, n) <==> t.home == At(t.point)
  {
    var p, whole := x.point, PutBack(x);
    match t.home
    case At(h) =>
      if h != p {
        assert whole[p] == x.slot[0] == h;
      }
    case Lost =>
      var i :| 0 <= i < |x.slot| - 1 && Torn(x.slot, i);
      assert whole[p + i] == x.slot[i] && whole[p + i + 1] == x.slot[i + 1];
  }

  /** All lines come back just when the places do: a line that differs from the rest
      at one misplaced place does not. */
  lemma LinesAsPlaces(n: nat, whole: seq<nat>)
    requires |whole| == n && forall i | 0 <= i < n :: whole[i] < n
    ensures (forall line: string | |line| == n :: Inside(line, whole) && Pick(line, whole) == line)
      <==> whole == Places(0, n)
  {
    if whole != Places(0, n) {
      var i :| 0 <= i < n && whole[i] != i;
      var line := seq(n, j => if j == i then 'b' else 'a');
      assert Pick(line, whole)[i] == 'a' && line[i] == 'b';
    } else {
      forall line: string | |line| == n
        ensures Inside(line, whole) && Pick(line, whole) == line
      {
      }
    }
  }

  // ---------------------------------------------------------- all lines of a length

  function WithLine(k: State, line: string): State {
    k.(edit := k.edit.(line := line))
  }

  predicate SameShape(k: State, l: State) {
    && |k.edit.line| == |l.edit.line| && k.edit.point == l.edit.point && k.was == l.was
    && |k.slots| == |l.slots|
  }

  lemma SameKilled(k: State, l: State, from: nat, to: nat)
    requires SameShape(k, l) && CanKill(k, from, to)
    ensures CanKill(l, from, to) && Killed(k, from, to).Done? == Killed(l, from, to).Done?
    ensures Killed(k, from, to).Done? ==> SameShape(Killed(k, from, to).state, Killed(l, from, to).state)
  {
    if from != to {
      DeletedIs(k, from, to);
      DeletedIs(l, from, to);
    }
  }

  /** What commands do to lengths does not depend on the characters. */
  lemma SameDispatch(k: State, l: State, c: Command)
    requires SameShape(k, l) && CanDo(k, c)
    ensures CanDo(l, c) && Counts(k, c) == Counts(l, c) && Takes(k, c) == Takes(l, c)
    ensures Dispatched(k, c).Done? == Dispatched(l, c).Done?
    ensures Dispatched(k, c).Done? ==> SameShape(Dispatched(k, c).state, Dispatched(l, c).state)
  {
    hide Killed, Apply;
    match c
    case Forward(to) => SameKilled(k, l, k.edit.point, to);
    case Backward(to) => SameKilled(MovedTo(k, to), MovedTo(l, to), k.edit.point, to);
    case Region(mark) => SameKilled(k, l, k.edit.point, mark);
    case FullLine =>
      var n := |k.edit.line|;
      GroupKeepsLine(k.edit.(point := 0));
      GroupKeepsLine(l.edit.(point := 0));
      var k1, l1 := k.(edit := Apply(k.edit.(point := 0), BeginGroup)),
        l.(edit := Apply(l.edit.(point := 0), BeginGroup));
      SameKilled(k1, l1, 0, n);
      if Killed(k1, 0, n).Done? {
        GroupKeepsLine(Killed(k1, 0, n).state.edit);
        GroupKeepsLine(Killed(l1, 0, n).state.edit);
      }
  }

  lemma {:induction false} SameRun(k: State, l: State, cmds: seq<Command>)
    requires SameShape(k, l) && KillRun(k, cmds)
    ensures KillRun(l, cmds)
    decreases |cmds|
  {
    hide CanDo, Counts, Dispatched, SameShape;
    if cmds != [] {
      SameDispatch(k, l, cmds[0]);
      if Dispatched(k, cmds[0]).Done? {
        SameRun(Dispatched(k, cmds[0]).state, Dispatched(l, cmds[0]).state, cmds[1..]);
      }
    }
  }

  /** The rest of a run, in terms of cuts. */
  lemma {:induction false} RunIsCut(k: State, cmds: seq<Command>)
    requires Ready(k) && k.was > 0 && k.slots != [] && k.index == |k.slots| - 1 && KillRun(k, cmds)
    ensures InLines(|k.edit.line|, k.edit.point, cmds) && AfterRun(k, cmds).Done?
    ensures var k' := AfterRun(k, cmds).state;
      && Ready(k') && k'.was > 0 && k'.slots != [] && k'.index == |k'.slots| - 1
      && CutOf(k') == CutRun(CutOf(k), cmds)
      && k'.slots[..|k'.slots| - 1] == k.slots[..|k.slots| - 1]
    decreases |cmds|
  {
    hide Dispatched, CutBy, CanDo, Counts;
    if cmds != [] {
      if Takes(k, cmds[0]) > 0 {
        KillOne(k, cmds[0]);
      } else {
        NothingKilled(k, cmds[0]);
        NothingCut(k, cmds[0]);
      }
      RunIsCut(Dispatched(k, cmds[0]).state, cmds[1..]);
    }
  }

  lemma NothingCut(k: State, c: Command)
    requires Ready(k) && CanDo(k, c) && Takes(k, c) <= 0 && (k.was > 0 ==> k.slots != [])
    ensures InLine(|k.edit.line|, k.edit.point, c) && CutBy(CutOf(k), c) == CutOf(k)
  {
    var line := k.edit.line;
    assert forall a | 0 <= a <= |line| :: line[..a] + line[a..] == line;
    assert Joined(k) + "" == Joined(k) == "" + Joined(k);
  }

  lemma RunAt(k: State, cmds: seq<Command>)
    requires cmds != [] && KillRun(k, cmds) && Dispatched(k, cmds[0]).Done?
    ensures CanDo(k, cmds[0])
    ensures var k1 := Dispatched(k, cmds[0]).state;
      KillRun(k1, cmds[1..]) && AfterRun(k, cmds) == AfterRun(k1, cmds[1..])
  {
  }

  lemma CutRunAt<T>(x: Cut<T>, cmds: seq<Command>)
    requires cmds != [] && InLine(|x.line|, x.point, cmds[0])
    ensures var y := CutBy(x, cmds[0]);
      && InLines(|x.line|, x.point, cmds) == InLines(|y.line|, y.point, cmds[1..])
      && (InLines(|x.line|, x.point, cmds) ==> CutRun(x, cmds) == CutRun(y, cmds[1..]))
  {
    hide CutBy;
  }

  /** After a run that began with an effective kill, what a yank makes of the line. */
  lemma RunThenYank(k: State, cmds: seq<Command>)
    requires Ready(k) && k.was == 0 && cmds != [] && KillRun(k, cmds) && Takes(k, cmds[0]) > 0
    ensures InLines(|k.edit.line|, k.edit.point, cmds) && AfterRun(k, cmds).Done?
    ensures var k', x := AfterRun(k, cmds).state, CutRun(Cut(k.edit.line, "", k.edit.point), cmds);
      && Ready(k') && k'.slots != [] && k'.slots == Kept(k.slots) + [Top(k')] && x.point <= |x.line|
      && Yanked(k').edit.line == PutBack(x)
  {
    hide Dispatched, Counts, CutBy, KillRun, AfterRun, InLines, InLine, CutRun, Takes;
    FirstCanDo(k, cmds);
    KillOne(k, cmds[0]);
    RunAt(k, cmds);
    var k1, x := Dispatched(k, cmds[0]).state, Cut(k.edit.line, "", k.edit.point);
    assert CutOf(k) == x;
    RunIsCut(k1, cmds[1..]);
    CutRunAt(x, cmds);
    var k' := AfterRun(k, cmds).state;
    assert k'.slots == k'.slots[..|k'.slots| - 1] + [Top(k')];
  }

  lemma FirstCanDo(k: State, cmds: seq<Command>)
    requires cmds != [] && KillRun(k, cmds)
    ensures CanDo(k, cmds[0])
  {
  }

  /** The yank restores this line. */
  predicate RestoredBy(k: State, cmds: seq<Command>, line: string) {
    var l := WithLine(k, line);
    KillRun(l, cmds) && Restores(line, AfterRun(l, cmds))
  }

  function Start(k: State): Track {
    Track(|k.edit.line|, k.edit.point, Nowhere)
  }

  /** The first kill takes something, and at the end of the run point is where the
      slot's text belongs. */
  predicate ComesHome(k: State, cmds: seq<Command>) {
    && cmds != [] && Takes(k, cmds[0]) > 0 && InLines(|k.edit.line|, k.edit.point, cmds)
    && var t := TrackedRun(Start(k), cmds); t.home == At(t.point)
  }

  /** Any run of kills, then a yank: it restores all lines of the length exactly when
      the run comes home.  Then the other slots are kept, but for the oldest of a full
      ring.  If the first kill takes nothing it restores no line at all: the next one
      joins the slot of an earlier run, or finds none. */
  lemma KillThenYankIff(k: State, cmds: seq<Command>)
    requires Ready(k) && k.was == 0 && cmds != [] && KillRun(k, cmds)
    ensures (forall line: string | |line| == |k.edit.line| :: RestoredBy(k, cmds, line)) <==> ComesHome(k, cmds)
    ensures Takes(k, cmds[0]) > 0 ==>
      && AfterRun(k, cmds).Done?
      && var k' := AfterRun(k, cmds).state;
         k'.slots != [] && k'.slots == Kept(k.slots) + [Top(k')]
    ensures Takes(k, cmds[0]) <= 0 ==> forall line: string | |line| == |k.edit.line| :: !RestoredBy(k, cmds, line)
  {
    hide KillRun, AfterRun, Restores, TrackedRun, CutRun, InLines, Ready;
    if Takes(k, cmds[0]) > 0 {
      RunThenYank(k, cmds);
      RestoredIff(k, cmds);
    } else {
      forall line: string | |line| == |k.edit.line|
        ensures !RestoredBy(k, cmds, line)
      {
        NotRestored(k, cmds, line);
      }
      assert WithLine(k, k.edit.line) == k;
      assert !RestoredBy(k, cmds, k.edit.line);
    }
  }

  lemma ReadyWith(k: State, line: string)
    requires Ready(k) && |line| == |k.edit.line|
    ensures Ready(WithLine(k, line)) && SameShape(k, WithLine(k, line))
  {
  }

  lemma NotRestored(k: State, cmds: seq<Command>, line: string)
    requires Ready(k) && k.was == 0 && cmds != [] && KillRun(k, cmds) && Takes(k, cmds[0]) <= 0
    requires |line| == |k.edit.line|
    ensures !RestoredBy(k, cmds, line)
  {
    hide Dispatched, CanDo;
    var l := WithLine(k, line);
    ReadyWith(k, line);
    SameRun(k, l, cmds);
    NothingKilled(l, cmds[0]);
    var l1 := Dispatched(l, cmds[0]).state;
    if l.slots == [] {
      RunWithoutRing(l1, cmds[1..]);
    } else {
      RunKeepsLength(l1, cmds[1..]);
      var l' := AfterRun(l, cmds).state;
      assert |Yanked(l').edit.line| == |l'.edit.line| + |l'.slots[l'.index]|;
    }
  }

  lemma RestoredIff(k: State, cmds: seq<Command>)
    requires Ready(k) && k.was == 0 && cmds != [] && KillRun(k, cmds) && Takes(k, cmds[0]) > 0
    ensures (forall line: string | |line| == |k.edit.line| :: RestoredBy(k, cmds, line)) <==> ComesHome(k, cmds)
  {
    hide *;
    var n, p := |k.edit.line|, k.edit.point;
    RunThenYank(k, cmds);
    var x := CutRun(Cut(Places(0, n), [], p), cmds);
    HomeDecidesRun(k, cmds, x);
    forall line: string | |line| == n
      ensures RestoredBy(k, cmds, line) == (Inside(line, PutBack(x)) && Pick(line, PutBack(x)) == line)
    {
      LineRestoredIff(k, cmds, line, x);
    }
    LineRestoredIff(k, cmds, k.edit.line, x);
    InsideAll(k.edit.line, PutBack(x));
    LinesAsPlaces(n, PutBack(x));
  }

  lemma InsideAll(line: string, whole: seq<nat>)
    requires Inside(line, whole)
    ensures forall i | 0 <= i < |whole| :: whole[i] < |line|
  {
  }

  lemma HomeDecidesRun(k: State, cmds: seq<Command>, x: Cut<nat>)
    requires Ready(k) && cmds != [] && Takes(k, cmds[0]) > 0 && InLines(|k.edit.line|, k.edit.point, cmds)
    requires x == CutRun(Cut(Places(0, |k.edit.line|), [], k.edit.point), cmds)
    ensures x.point <= |x.line| && |PutBack(x)| == |k.edit.line|
    ensures PutBack(x) == Places(0, |k.edit.line|) <==> ComesHome(k, cmds)
  {
    hide Ready, TrackedRun, CutRun, Follows, PutBack;
    var n := |k.edit.line|;
    StartFollows(k);
    TrackRun(Start(k), Cut(Places(0, n), [], k.edit.point), n, cmds);
    var t := TrackedRun(Start(k), cmds);
    FollowsLength(t, x, n);
    NotNowhere(Start(k), cmds);
    HomeDecides(t, x, n);
  }

  lemma StartFollows(k: State)
    requires Ready(k)
    ensures Follows(Start(k), Cut(Places(0, |k.edit.line|), [], k.edit.point), |k.edit.line|)
  {
  }

  lemma {:induction false} NotNowhere(t: Track, cmds: seq<Command>)
    requires InLines(t.n, t.point, cmds)
    requires t.home != Nowhere || (cmds != [] && KillFrom(t.n, t.point, cmds[0]) < KillTo(t.n, t.point, cmds[0]))
    ensures TrackedRun(t, cmds).home != Nowhere
    decreases |cmds|
  {
    if cmds != [] {
      NotNowhere(Tracked(t, cmds[0]), cmds[1..]);
    }
  }

  /** One line, through its places. */
  lemma LineRestoredIff(k: State, cmds: seq<Command>, line: string, x': Cut<nat>)
    requires Ready(k) && k.was == 0 && cmds != [] && KillRun(k, cmds) && Takes(k, cmds[0]) > 0
    requires |line| == |k.edit.line| && InLines(|k.edit.line|, k.edit.point, cmds)
    requires x' == CutRun(Cut(Places(0, |line|), [], k.edit.point), cmds) && x'.point <= |x'.line|
    ensures Inside(line, PutBack(x')) && RestoredBy(k, cmds, line) == (Pick(line, PutBack(x')) == line)
  {
    hide KillRun, AfterRun, Ready, CutRun, InLines;
    var l := WithLine(k, line);
    ReadyWith(k, line);
    SameRun(k, l, cmds);
    SameTaken(k, line, cmds[0]);
    RunThenYank(l, cmds);
    var y := Cut(line, "", k.edit.point);
    assert Pick(line, Places(0, |line|)) == line;
    CutRunPicks(line, Cut(Places(0, |line|), [], k.edit.point), y, cmds);
    PutBackPicks(line, x', CutRun(y, cmds));
  }

  lemma SameTaken(k: State, line: string, c: Command)
    requires |line| == |k.edit.line|
    ensures Takes(WithLine(k, line), c) == Takes(k, c)
  {
  }

  lemma PutBackPicks(line: string, x: Cut<nat>, y: Cut<char>)
    requires Picks(line, x, y) && x.point <= |x.line|
    ensures y.point <= |y.line| && Inside(line, PutBack(x))
    ensures PutBack(y) == Pick(line, PutBack(x))
  {
  }

  /** When a run of kills reads through a null ring: there is no ring yet, the first
      kill takes nothing, and a later one takes something. */
  lemma NoSlotIff(k: State, cmds: seq<Command>)
    requires Ready(k) && k.was == 0 && cmds != [] && KillRun(k, cmds)
    ensures AfterRun(k, cmds) == NoSlot <==>
      k.slots == [] && Takes(k, cmds[0]) <= 0 && exists i | 0 < i < |cmds| :: Takes(k, cmds[i]) > 0
  {
    hide CanDo, Counts, Dispatched;
    if Takes(k, cmds[0]) > 0 {
      KillOne(k, cmds[0]);
      var k1 := Dispatched(k, cmds[0]).state;
      RunKeepsLength(k1, cmds[1..]);
    } else {
      NothingKilled(k, cmds[0]);
      var k1 := Dispatched(k, cmds[0]).state;
      if k.slots == [] {
        RunWithoutRing(k1, cmds[1..]);
        SameTakes(k, k1, cmds);
      } else {
        RunKeepsLength(k1, cmds[1..]);
      }
    }
  }

  lemma SameTakes(k: State, k1: State, cmds: seq<Command>)
    requires cmds != [] && k1.edit.line == k.edit.line && k1.edit.point == k.edit.point
    ensures (exists i | 0 < i < |cmds| :: Takes(k, cmds[i]) > 0)
      <==> exists i | 0 <= i < |cmds[1..]| :: Takes(k1, cmds[1..][i]) > 0
  {
    if i :| 0 < i < |cmds| && Takes(k, cmds[i]) > 0 {
      assert cmds[1..][i - 1] == cmds[i];
    }
    if i :| 0 <= i < |cmds[1..]| && Takes(k1, cmds[1..][i]) > 0 {
      assert cmds[i + 1] == cmds[1..][i];
    }
  }

  /** An empty region kill in a fresh session, then a kill of the whole rest. */
  lemma NoSlotHappens()
    ensures var k, cmds := State(Edit("abc", 0, []), [], 0, 0), [Region(0), Forward(3)];
      Ready(k) && KillRun(k, cmds) && AfterRun(k, cmds) == NoSlot
  {
    var k, cmds := State(Edit("abc", 0, []), [], 0, 0), [Region(0), Forward(3)];
    NothingKilled(k, Region(0));
    var k1 := Dispatched(k, Region(0)).state;
    TakesFindsNoSlot(k1, Forward(3));
    assert cmds[1..] == [Forward(3)];
    assert KillRun(k1, [Forward(3)]);
  }

  /** Forward and backward kills leave point where the slot's text belongs. */
  lemma {:induction false} AtPointStaysHome(t: Track, cmds: seq<Command>)
    requires InLines(t.n, t.point, cmds) && (forall c | c in cmds :: c.Forward? || c.Backward?)
    requires t.home == At(t.point)
    ensures var t' := TrackedRun(t, cmds); t'.home == At(t'.point)
    decreases |cmds|
  {
    if cmds != [] {
      assert cmds[0] in cmds;
      AtPointStaysHome(Tracked(t, cmds[0]), cmds[1..]);
    }
  }

  /** Every run of forward and backward kills, in any order, is undone by a yank. */
  lemma KillsAtPointComeBack(k: State, cmds: seq<Command>)
    requires Ready(k) && k.was == 0 && cmds != [] && KillRun(k, cmds)
    requires forall c | c in cmds :: c.Forward? || c.Backward?
    ensures forall line: string | |line| == |k.edit.line| :: RestoredBy(k, cmds, line)
  {
    hide RestoredBy, TrackedRun, InLines;
    var c := cmds[0];
    assert c in cmds;
    assert Takes(k, c) > 0;
    RunThenYank(k, cmds);
    FirstTracked(k, cmds);
    AtPointStaysHome(Tracked(Start(k), c), cmds[1..]);
    KillThenYankIff(k, cmds);
  }

  lemma FirstTracked(k: State, cmds: seq<Command>)
    requires cmds != [] && (cmds[0].Forward? || cmds[0].Backward?) && Takes(k, cmds[0]) > 0
    requires InLines(|k.edit.line|, k.edit.point, cmds)
    ensures var t := Tracked(Start(k), cmds[0]);
      t.home == At(t.point) && InLines(t.n, t.point, cmds[1..])
      && TrackedRun(Start(k), cmds) == TrackedRun(t, cmds[1..])
  {
  }

  /** Killing a region and yanking it back restores all lines exactly when the mark is
      not before point, or point is at the end: point is only clamped to the line, not
      moved to the mark. */
  lemma RegionThenYankIff(k: State, mark: nat)
    requires Ready(k) && k.was == 0 && CanDo(k, Region(mark)) && mark != k.edit.point
    ensures (forall line: string | |line| == |k.edit.line| :: RestoredBy(k, [Region(mark)], line))
      <==> mark > k.edit.point || k.edit.point == |k.edit.line|
  {
    hide Dispatched, RestoredBy;
    var cmds := [Region(mark)];
    assert cmds[1..] == [];
    KillOne(k, Region(mark));
    KillThenYankIff(k, cmds);
    var n, p := |k.edit.line|, k.edit.point;
    assert InLines(n, p, cmds);
    assert TrackedRun(Start(k), cmds) == Tracked(Start(k), Region(mark));
  }

  lemma {:induction false} TrackedLast(t: Track, cmds: seq<Command>, c: Command)
    requires InLines(t.n, t.point, cmds + [c])
    ensures InLines(t.n, t.point, cmds)
    ensures var t' := TrackedRun(t, cmds);
      InLine(t'.n, t'.point, c) && TrackedRun(t, cmds + [c]) == Tracked(t', c)
    decreases |cmds|
  {
    hide Tracked, InLine;
    if cmds == [] {
      assert cmds + [c] == [c] && [c][1..] == [];
    } else {
      assert (cmds + [c])[1..] == cmds[1..] + [c];
      TrackedLast(Tracked(t, cmds[0]), cmds[1..], c);
    }
  }

  /** Killing the whole line at the end of a run goes home, from wherever point is,
      exactly when what was killed before belongs at the start of what is left, or
      nothing was killed before. */
  lemma FullLineThenYankIff(k: State, cmds: seq<Command>)
    requires Ready(k) && k.was == 0 && KillRun(k, cmds + [FullLine]) && Takes(k, (cmds + [FullLine])[0]) > 0
    ensures InLines(|k.edit.line|, k.edit.point, cmds)
    ensures (forall line: string | |line| == |k.edit.line| :: RestoredBy(k, cmds + [FullLine], line))
      <==> cmds == [] || TrackedRun(Start(k), cmds).home == At(0)
  {
    hide KillRun, InLines, TrackedRun, RestoredBy, Ready;
    RunThenYank(k, cmds + [FullLine]);
    KillThenYankIff(k, cmds + [FullLine]);
    TrackedLast(Start(k), cmds, FullLine);
    if cmds == [] {
      NothingTracked(Start(k));
    } else {
      assert (cmds + [FullLine])[0] == cmds[0];
      FirstTakes(k, cmds[0]);
      NotNowhere(Start(k), cmds);
    }
  }

  lemma NothingTracked(t: Track)
    ensures InLines(t.n, t.point, []) && TrackedRun(t, []) == t
  {
  }

  lemma FirstTakes(k: State, c: Command)
    requires Takes(k, c) > 0
    ensures KillFrom(|k.edit.line|, k.edit.point, c) < KillTo(|k.edit.line|, k.edit.point, c)
  {
  }

  /** A whole line killed from the middle, behind a region that went before it. */
  lemma FullLineFromTheMiddle(k: State)
    requires Ready(k) && k.was == 0 && |k.edit.line| == 5 && k.edit.point == 2
    ensures KillRun(k, [Region(0), FullLine])
    ensures forall line: string | |line| == 5 :: RestoredBy(k, [Region(0), FullLine], line)
  {
    hide RestoredBy, Dispatched;
    var cmds := [Region(0), FullLine];
    KillOne(k, Region(0));
    var k1 := Dispatched(k, Region(0)).state;
    KillOne(k1, FullLine);
    assert cmds[1..] == [FullLine] && [FullLine][1..] == [];
    assert KillRun(k1, [FullLine]);
    assert InLines(5, 2, cmds) by { assert InLines(3, 2, [FullLine]); }
    assert TrackedRun(Start(k), cmds) == TrackedRun(Tracked(Start(k), Region(0)), [FullLine]);
    KillThenYankIff(k, cmds);
  }

  /** An empty region first: the kill behind it joins the old text, and a yank brings
      both. */
  lemma OldTextComesBack()
    ensures var k, cmds := State(Edit("abc", 0, []), ["x"], 0, 0), [Region(0), Forward(3)];
      && Ready(k) && KillRun(k, cmds)
      && var o := AfterRun(k, cmds);
         o.Done? && Ready(o.state) && o.state.slots != [] && Yanked(o.state).edit.line == "xabc"
  {
    hide Did, Killed;
    var k, cmds := State(Edit("abc", 0, []), ["x"], 0, 0), [Region(0), Forward(3)];
    NothingKilled(k, Region(0));
    var k1 := Dispatched(k, Region(0)).state;
    KillOne(k1, Forward(3));
    assert cmds[1..] == [Forward(3)] && [Forward(3)][1..] == [];
    assert KillRun(k1, [Forward(3)]);
    var k2 := Dispatched(k1, Forward(3)).state;
    assert "abc"[0..3] == "abc" && "x" + "abc" == "xabc";
    assert Top(k2) == "xabc" && k2.edit.line == "" && k2.edit.point == 0;
  }

  /** A motion that leads nowhere kills nothing and ends the run. */
  lemma PauseIs(k: State, pause: Command)
    requires CanDo(k, pause) && !Counts(k, pause)
    ensures Dispatched(k, pause) == Done(k.(was := 0))
  {
  }

  /** The first kill of a run takes a slot of its own for the text. */
  lemma FirstSlot(k: State, c: Command)
    requires Ready(k) && k.was == 0 && CanDo(k, c) && Takes(k, c) > 0
    ensures var n, p := |k.edit.line|, k.edit.point;
      && Dispatched(k, c).Done? && InLine(n, p, c)
      && Dispatched(k, c).state.slots == Kept(k.slots) + [k.edit.line[KillFrom(n, p, c)..KillTo(n, p, c)]]
  {
    hide Dispatched, Kept;
    KillOne(k, c);
    var k' := Dispatched(k, c).state;
    var text := k.edit.line[KillFrom(|k.edit.line|, k.edit.point, c)..KillTo(|k.edit.line|, k.edit.point, c)];
    assert "" + text == text == text + "";
    assert k'.slots == k'.slots[..|k'.slots| - 1] + [Top(k')];
  }

  /** So the next kill takes a slot of its own, whatever was killed before. */
  lemma PauseEndsRun(k: State, pause: Command, c: Command)
    requires Ready(k) && CanDo(k, pause) && !Counts(k, pause) && CanDo(k, c) && Takes(k, c) > 0
    ensures var n, p := |k.edit.line|, k.edit.point;
      var o := Dispatched(k, pause);
      && o.Done? && CanDo(o.state, c) && Dispatched(o.state, c).Done? && InLine(n, p, c)
      && Dispatched(o.state, c).state.slots == Kept(k.slots) + [k.edit.line[KillFrom(n, p, c)..KillTo(n, p, c)]]
  {
    hide Dispatched, Kept;
    PauseIs(k, pause);
    FirstSlot(k.(was := 0), c);
  }

  /** The ring after some more texts. */
  function AllStored(slots: seq<string>, texts: seq<string>): seq<string>
    decreases |texts|
  {
    if texts == [] then slots else Stored(AllStored(slots, texts[..|texts| - 1]), 0, texts[|texts| - 1], true)
  }

  /** The ring holds the last ten texts, in the order in which they were killed. */
  lemma {:induction false} RingHoldsLastTen(slots: seq<string>, texts: seq<string>)
    requires |slots| <= 10
    ensures var all := slots + texts;
      AllStored(slots, texts) == if |all| <= 10 then all else all[|all| - 10..]
    decreases |texts|
  {
    if texts == [] {
      assert slots + texts == slots;
    } else {
      var front, last := texts[..|texts| - 1], texts[|texts| - 1];
      RingHoldsLastTen(slots, front);
      assert slots + texts == (slots + front) + [last];
    }
  }

  /** Kills are edits like any other: the undo list still leads back to the line
      it began with. */
  lemma KillKeepsOrigin(k: State, c: Command)
    requires CanDo(k, c) && Sound(k.edit) && Dispatched(k, c).Done?
    ensures var e := Dispatched(k, c).state.edit;
      Sound(e) && Replay(e.undos, e.line) == Replay(k.edit.undos, k.edit.line)
  {
    hide Stored, Replay, Replayable;
    match c
    case Forward(to) => ApplyKeepsOrigin(k.edit, Delete(k.edit.point, to));
    case Backward(to) => ApplyKeepsOrigin(k.edit.(point := to), Delete(k.edit.point, to));
    case Region(mark) => ApplyKeepsOrigin(k.edit, Delete(k.edit.point, mark));
    case FullLine =>
      var e1 := Apply(k.edit.(point := 0), BeginGroup);
      ApplyKeepsOrigin(k.edit.(point := 0), BeginGroup);
      ApplyKeepsOrigin(e1, Delete(0, |k.edit.line|));
      var e2 := if k.edit.line == "" then e1 else Apply(e1, Delete(0, |k.edit.line|));
      ApplyKeepsOrigin(e2, EndGroup);
  }

  // ------------------------------------------------------------------ yank-pop

  predicate CanPop(k: State) {
    && Ready(k) && k.slots != []
    && var text := k.slots[k.index];
       |text| <= k.edit.point && k.edit.line[k.edit.point - |text|..k.edit.point] == text
  }

  function Popped(k: State): State
    requires CanPop(k)
  {
    var n := k.edit.point - |k.slots[k.index]|;
    var cut := Apply(k.edit, Delete(n, k.edit.point)).(point := n);
    Yanked(State(cut, k.slots, if k.index == 0 then |k.slots| - 1 else k.index - 1, k.was))
  }

  /** The line with slot i yanked at p. */
  predicate Shows(k: State, line: string, p: nat, i: nat)
    requires p <= |line|
  {
    i < |k.slots| && k.index == i && k.edit.line == InsertedAt(line, p, k.slots[i]) && k.edit.point == p + |k.slots[i]|
  }

  lemma YankShows(k: State)
    requires Ready(k) && k.slots != []
    ensures Shows(Yanked(k), k.edit.line, k.edit.point, k.index) && Ready(Yanked(k))
  {
  }

  lemma PopShows(k: State, line: string, p: nat, i: nat)
    requires Ready(k) && p <= |line| && Shows(k, line, p, i)
    ensures CanPop(k) && Ready(Popped(k)) && Popped(k).slots == k.slots
    ensures Shows(Popped(k), line, p, if i == 0 then |k.slots| - 1 else i - 1)
  {
    InsertInverse(line, p, k.slots[i]);
    assert k.edit.line[p..p + |k.slots[i]|] == k.slots[i];
  }

  ghost predicate Pops(k: State, n: nat, k': State)
    decreases n
  {
    if n == 0 then k' == k else CanPop(k) && Pops(Popped(k), n - 1, k')
  }

  /** The slot n places below i, going round at the bottom. */
  function Down(i: nat, n: nat, m: nat): (j: nat)
    requires i < m && n <= m
    ensures j < m && (n == m ==> j == i)
  {
    if n <= i then i - n else i - n + m
  }

  /** After a yank, popping goes down the ring slot by slot, and once around it
      shows the first text again, at the same place of the same line. */
  lemma {:induction false} PopsGoRound(k: State, line: string, p: nat, i: nat, n: nat) returns (k': State)
    requires Ready(k) && p <= |line| && Shows(k, line, p, i) && n <= |k.slots|
    ensures Pops(k, n, k') && Ready(k') && k'.slots == k.slots && Shows(k', line, p, Down(i, n, |k.slots|))
    ensures n == |k.slots| ==> k'.edit.line == k.edit.line && k'.edit.point == k.edit.point && k'.index == k.index
    decreases n
  {
    hide Popped, CanPop, Ready, InsertedAt;
    k' := k;
    if n > 0 {
      PopShows(k, line, p, i);
      k' := PopsGoRound(Popped(k), line, p, if i == 0 then |k.slots| - 1 else i - 1, n - 1);
    }
  }

  /** A yank, and n pops behind it. */
  lemma PopsAfterYank(k: State, n: nat) returns (k': State)
    requires Ready(k) && k.slots != [] && n <= |k.slots|
    ensures Pops(Yanked(k), n, k')
    ensures Shows(k', k.edit.line, k.edit.point, Down(k.index, n, |k.slots|))
    ensures n == |k.slots| ==> k'.edit.line == Yanked(k).edit.line
  {
    YankShows(k);
    k' := PopsGoRound(Yanked(k), k.edit.line, k.edit.point, k.index, n);
  }

  // ---------------------------------------------------------------- the methods

  /** How many slots are allocated for a ring of so many. */
  function Capacity(length: nat): nat {
    if length == 1 then 2 else length
  }

  class Killer {
    const line: Line
    const beyond: string
    var killRing: array?<string>
    var killRingLength: nat
    var killIndex: nat
    var lastCommandWasKill: nat

    /** `beyond` is whatever lies behind the array of a full ring. */
    constructor (line: Line, beyond: string)
      ensures this.line == line && RingValid() && Slots() == [] && lastCommandWasKill == 0
    {
      this.line, this.beyond := line, beyond;
      killRing, killRingLength, killIndex, lastCommandWasKill := null, 0, 0, 0;
    }

    ghost predicate RingValid() reads this, killRing {
      && killRingLength <= MaxKills
      && (killRing == null <==> killRingLength == 0)
      && (killRing != null ==> killRing.Length == Capacity(killRingLength))
    }

    ghost function Slots(): (slots: seq<string>)
      reads this, killRing
      requires RingValid()
      ensures |slots| == killRingLength
    {
      if killRing == null then [] else killRing[..killRingLength]
    }

    ghost predicate Valid() reads this, killRing, line, line.theLine {
      RingValid() && line.Valid() && !line.doingAnUndo && Ready(Abstract())
    }

    ghost function Abstract(): State
      reads this, killRing, line, line.theLine
      requires RingValid() && line.Valid()
    {
      State(line.State(), Slots(), killIndex, lastCommandWasKill)
    }

    /** What a command leaves: the state, unless a slot was missing. */
    ghost predicate Leaves(ok: bool, o: Outcome) reads this, killRing, line, line.theLine {
      && RingValid() && line.Valid() && !line.doingAnUndo
      && ok == o.Done? && (ok ==> Abstract() == o.state)
    }

    /** The loop that drops the oldest slot of a full ring.  Its last round reads one
        place behind the array. */
    method ShiftDown() returns (pastEnd: bool)
      requires RingValid() && killRingLength == MaxKills
      modifies killRing
      ensures killRing[..MaxKills - 1] == old(killRing[1..MaxKills]) && pastEnd
    {
      var ring := killRing;
      ghost var was := ring[..];
      pastEnd := false;
      var i := 0;
      while i < MaxKills
        invariant i <= MaxKills && pastEnd == (i == MaxKills)
        invariant forall j | 0 <= j < i && j + 1 < MaxKills :: ring[j] == was[j + 1]
        invariant forall j | i <= j < MaxKills :: ring[j] == was[j]
      {
        if i + 1 < ring.Length {
          ring[i] := ring[i + 1];
        } else {
          ring[i] := beyond;
          pastEnd := true;
        }
        i := i + 1;
      }
    }

    /** A longer array with the slots there are. */
    method Grow()
      requires RingValid() && killRingLength < MaxKills
      modifies this`killRing, this`killRingLength
      ensures killRing != null && fresh(killRing) && killRingLength == old(killRingLength) + 1
      ensures RingValid() && killRing[..killRingLength - 1] == old(Slots())
    {
      var length := killRingLength + 1;
      var ring := new string[Capacity(length)](_ => "");
      var i := 0;
      while i < killRingLength
        invariant i <= killRingLength && ring[..i] == old(Slots())[..i]
        modifies ring
      {
        ring[i] := killRing[i];
        i := i + 1;
      }
      killRing, killRingLength := ring, length;
    }

    /** `_rl_copy_to_kill_ring`; not ok: there is no slot to join.  The array is read
        one place behind its end exactly when a full ring takes a new slot, and what
        is read there has no influence. */
    method CopyToKillRing(text: string, append: bool) returns (ok: bool, pastEnd: bool)
      requires RingValid()
      modifies this`killRing, this`killRingLength, this`killIndex, killRing
      ensures RingValid() && (killRing == old(killRing) || fresh(killRing))
      ensures ok == (lastCommandWasKill == 0 || old(Slots()) != [])
      ensures ok ==> Slots() == Stored(old(Slots()), lastCommandWasKill, text, append) && killIndex == |Slots()| - 1
      ensures pastEnd <==> lastCommandWasKill == 0 && |old(Slots())| == MaxKills
    {
      pastEnd := false;
      if lastCommandWasKill == 0 {
        if killRingLength == MaxKills {
          pastEnd := ShiftDown();
        } else {
          Grow();
        }
        var slot := killRingLength - 1;
        ghost var kept := killRing[..slot];
        killRing[slot] := text;
        killIndex := slot;
        assert Slots() == kept + [text];
      } else if killRing == null {
        return false, false;
      } else {
        var slot := killRingLength - 1;
        var top := killRing[slot];
        ghost var below := Slots()[..slot];
        killRing[slot] := if append then top + text else text + top;
        killIndex := slot;
        assert Slots() == below + [killRing[slot]];
      }
      ok := true;
    }

    /** Copying the text and deleting it from the line. */
    method TakeText(from: nat, to: nat) returns (text: string)
      requires RingValid() && line.Valid() && !line.doingAnUndo && CanKill(Abstract(), from, to)
      modifies line`rlEnd, line`undoList, line.theLine
      ensures line.Valid() && line.State() == Apply(old(line.State()), Delete(from, to))
      ensures text == Between(old(line.Text()), from, to) && Slots() == old(Slots())
    {
      hide DeletedFrom, Lo, Hi;
      ghost var slots := Slots();
      text := line.CopyText(from, to);
      var diff := line.DeleteText(from, to);
      assert Slots() == slots;
    }

    /** `rl_kill_text`. */
    method KillText(from: nat, to: nat) returns (ok: bool)
      requires RingValid() && line.Valid() && !line.doingAnUndo && CanKill(Abstract(), from, to)
      modifies this, killRing, line, line.theLine
      ensures Leaves(ok, Killed(old(Abstract()), from, to))
      ensures line.theLine == old(line.theLine) && (killRing == old(killRing) || fresh(killRing))
    {
      hide Stored, Apply, Between;
      ok := true;
      if from == to {
        lastCommandWasKill := lastCommandWasKill + 1;
        return;
      }
      var text := TakeText(from, to);
      ghost var edit := line.State();
      var pastEnd;
      ok, pastEnd := CopyToKillRing(text, from < to);
      assert line.State() == edit;
      lastCommandWasKill := lastCommandWasKill + 1;
    }

    /** `rl_kill_word` and `rl_kill_line`, once the motion is known. */
    method KillForward(to: nat) returns (ok: bool)
      requires Valid() && CanDo(Abstract(), Forward(to))
      modifies this, killRing, line, line.theLine
      ensures Leaves(ok, Did(old(Abstract()), Forward(to)))
    {
      hide Killed;
      ok := true;
      var origPoint := line.rlPoint;
      ghost var k := Abstract();
      PointAside(k, k.edit.point, to, to);
      line.rlPoint := to;
      if line.rlPoint != origPoint {
        ok := KillText(origPoint, line.rlPoint);
      }
      line.rlPoint := origPoint;
    }

    /** `rl_backward_kill_word`, `rl_backward_kill_line`, `rl_unix_word_rubout`
        and `rl_unix_line_discard`, once the motion is known. */
    method KillBackward(to: nat) returns (ok: bool)
      requires Valid() && CanDo(Abstract(), Backward(to))
      modifies this, killRing, line, line.theLine
      ensures Leaves(ok, Did(old(Abstract()), Backward(to)))
    {
      ok := true;
      var origPoint := line.rlPoint;
      line.rlPoint := to;
      if line.rlPoint != origPoint {
        ok := KillText(origPoint, line.rlPoint);
      }
    }

    /** `rl_kill_region`, which kills between point and mark as `rl_kill_text` does. */
    method KillRegion(mark: nat) returns (ok: bool)
      requires Valid() && CanDo(Abstract(), Region(mark))
      modifies this, killRing, line, line.theLine
      ensures Leaves(ok, Did(old(Abstract()), Region(mark)))
    {
      ok := KillText(line.rlPoint, mark);
      if line.rlPoint > line.rlEnd {
        line.rlPoint := line.rlEnd;
      }
    }

    /** `rl_kill_full_line`. */
    method KillFullLine() returns (ok: bool)
      requires Valid() && CanDo(Abstract(), FullLine)
      modifies this, killRing, line, line.theLine
      ensures Leaves(ok, Did(old(Abstract()), FullLine))
    {
      line.AddUndo(Begin);
      line.rlPoint := 0;
      ok := KillText(line.rlPoint, line.rlEnd);
      line.AddUndo(End);
    }

    /** The end of a round of the command loop. */
    method EndOfRound(lk: nat)
      modifies this`lastCommandWasKill
      ensures lastCommandWasKill == if lk == old(lastCommandWasKill) then 0 else old(lastCommandWasKill)
    {
      if lk == lastCommandWasKill {
        lastCommandWasKill := 0;
      }
    }

    /** A round of the command loop for a kill command. */
    method Dispatch(c: Command) returns (ok: bool)
      requires Valid() && CanDo(Abstract(), c)
      modifies this, killRing, line, line.theLine
      ensures Leaves(ok, Dispatched(old(Abstract()), c))
    {
      hide Did, Ready;
      var lk := lastCommandWasKill;
      match c {
        case Forward(to) => ok := KillForward(to);
        case Backward(to) => ok := KillBackward(to);
        case Region(mark) => ok := KillRegion(mark);
        case FullLine => ok := KillFullLine();
      }
      EndOfRound(lk);
    }

    /** `rl_yank`: false when there is no ring yet. */
    method Yank() returns (ok: bool)
      requires Valid()
      modifies this, line, line.theLine
      ensures Valid() && ok == (old(Slots()) != []) && (line.theLine == old(line.theLine) || fresh(line.theLine))
      ensures Abstract() == if ok then Yanked(old(Abstract())) else old(Abstract())
    {
      if killRing == null {
        return false;
      }
      var l := line.InsertText(killRing[killIndex]);
      return true;
    }

    /** The text before point is that of the current slot. */
    method BehindSlot() returns (yes: bool)
      requires Valid()
      ensures yes == CanPop(Abstract())
    {
      if killRing == null {
        return false;
      }
      var text := killRing[killIndex];
      if line.rlPoint < |text| {
        return false;
      }
      var there := line.CopyText(line.rlPoint - |text|, line.rlPoint);
      return there == text;
    }

    /** Taking the current slot's text out again. */
    method CutSlot()
      requires Valid() && CanPop(Abstract())
      modifies line, line.theLine
      ensures Valid() && line.theLine == old(line.theLine)
      ensures var k := old(Abstract()); var n := k.edit.point - |k.slots[k.index]|;
        Abstract() == k.(edit := Apply(k.edit, Delete(n, k.edit.point)).(point := n))
    {
      var n := line.rlPoint - |killRing[killIndex]|;
      var diff := line.DeleteText(n, line.rlPoint);
      line.rlPoint := n;
    }

    method PopSlot()
      requires Valid() && CanPop(Abstract())
      modifies this, line, line.theLine
      ensures Valid() && Abstract() == Popped(old(Abstract()))
    {
      hide NoteInsert, InsertedAt, DeletedFrom, Apply;
      CutSlot();
      killIndex := if killIndex == 0 then killRingLength - 1 else killIndex - 1;
      var yanked := Yank();
    }

    /** `rl_yank_pop`: false when the last command was no yank, there is no ring, or
        point is not behind the slot's text. */
    method YankPop(lastWasYank: bool) returns (ok: bool)
      requires Valid()
      modifies this, line, line.theLine
      ensures Valid() && ok == (lastWasYank && CanPop(old(Abstract())))
      ensures Abstract() == if ok then Popped(old(Abstract())) else old(Abstract())
    {
      hide Popped, CanPop, Ready;
      ok := false;
      if lastWasYank {
        ok := BehindSlot();
        if ok {
          PopSlot();
        }
      }
    }
  }
}
