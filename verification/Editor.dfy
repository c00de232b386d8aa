/** The line being edited and its undo list: libs/readline/readline.c and
    libs/readline/undo.c. */
module Editor {

  datatype Record =
    | Inserted(start: nat, end: nat)
    | Deleted(start: nat, end: nat, text: string)
    | Begin
    | End

  // ------------------------------------------------------- what the edits mean

  function InsertedAt(line: string, p: nat, text: string): (r: string)
    requires p <= |line|
  {
    line[..p] + text + line[p..]
  }

  function DeletedFrom(line: string, from: nat, to: nat): (r: string)
    requires from <= to <= |line|
  {
    line[..from] + line[to..]
  }

  /** The bounds of a deletion, put in order and kept inside the line. */
  function Lo(from: nat, to: nat, n: nat): (r: nat)
    ensures r <= n && r <= Hi(from, to, n)
  {
    var low := if from > to then to else from;
    if low > n then n else low
  }

  function Hi(from: nat, to: nat, n: nat): (r: nat)
    ensures r <= n
  {
    var high := if from > to then from else to;
    if high > n then n else high
  }

  /** A single character joins the insertion just before it. */
  predicate Joins(undos: seq<Record>, p: nat, l: nat) {
    l == 1 && undos != [] && undos[0].Inserted? && undos[0].end == p && undos[0].end - undos[0].start < 20
  }

  function NoteInsert(undos: seq<Record>, p: nat, l: nat): seq<Record> {
    if Joins(undos, p, l) then [Inserted(undos[0].start, p + 1)] + undos[1..] else [Inserted(p, p + l)] + undos
  }

  function NoteModify(undos: seq<Record>, line: string, from: nat, to: nat): seq<Record>
    requires from <= to <= |line|
  {
    if from == to then undos else [End, Inserted(from, to), Deleted(from, to, line[from..to]), Begin] + undos
  }

  // ------------------------------------------------------------------- undoing

  predicate Fits(r: Record, line: string) {
    match r
    case Inserted(s, e) => s <= e <= |line|
    case Deleted(s, _, _) => s <= |line|
    case _ => true
  }

  function Unapplied(r: Record, line: string): string
    requires Fits(r, line)
  {
    match r
    case Inserted(s, e) => DeletedFrom(line, s, e)
    case Deleted(s, _, t) => InsertedAt(line, s, t)
    case _ => line
  }

  /** The records can be taken back one by one, newest first. */
  predicate Replayable(undos: seq<Record>, line: string)
    decreases |undos|
  {
    undos == [] || (Fits(undos[0], line) && Replayable(undos[1..], Unapplied(undos[0], line)))
  }

  /** The line before everything recorded. */
  function Replay(undos: seq<Record>, line: string): string
    requires Replayable(undos, line)
    decreases |undos|
  {
    if undos == [] then line else Replay(undos[1..], Unapplied(undos[0], line))
  }

  datatype Edit = Edit(line: string, point: nat, undos: seq<Record>)

  predicate Sound(e: Edit) {
    Replayable(e.undos, e.line)
  }

  function UndoPoint(r: Record, point: nat): nat {
    match r
    case Inserted(s, _) => s
    case Deleted(s, _, t) => s + |t|
    case _ => point
  }

  function Waiting(r: Record, waiting: nat): nat {
    match r
    case End => waiting + 1
    case Begin => if waiting > 0 then waiting - 1 else 0
    case _ => waiting
  }

  /** `rl_do_undo`: one record, or back to the beginning of a group.  The flag
      says that the list did not run out. */
  function Undone(e: Edit, waiting: nat): (Edit, bool)
    requires Sound(e)
    decreases |e.undos|
  {
    if e.undos == [] then (e, false)
    else
      var r := e.undos[0];
      var e' := Edit(Unapplied(r, e.line), UndoPoint(r, e.point), e.undos[1..]);
      if Waiting(r, waiting) == 0 then (e', true) else Undone(e', Waiting(r, waiting))
  }

  // ---------------------------------------------------------------- whole runs

  datatype Op =
    | Insert(text: string)
    | Delete(from: nat, to: nat)
    | Overwrite(from: nat, text: string)
    | Move(point: nat)
    | BeginGroup
    | EndGroup
    | Undo

  /** What the operations demand: insertion inside the line, and text that is
      overwritten in place has to be there. */
  predicate Allowed(e: Edit, op: Op) {
    match op
    case Insert(_) => e.point <= |e.line|
    case Overwrite(from, text) => from + |text| <= |e.line|
    case _ => true
  }

  function Apply(e: Edit, op: Op): Edit
    requires Allowed(e, op) && (op.Undo? ==> Sound(e))
  {
    match op
    case Insert(text) =>
      Edit(InsertedAt(e.line, e.point, text), e.point + |text|, NoteInsert(e.undos, e.point, |text|))
    case Delete(from, to) =>
      var lo, hi := Lo(from, to, |e.line|), Hi(from, to, |e.line|);
      e.(line := DeletedFrom(e.line, lo, hi), undos := [Deleted(lo, hi, e.line[lo..hi])] + e.undos)
    case Overwrite(from, text) =>
      var to := from + |text|;
      e.(line := e.line[..from] + text + e.line[to..], undos := NoteModify(e.undos, e.line, from, to))
    case Move(p) => e.(point := p)
    case BeginGroup => e.(undos := [Begin] + e.undos)
    case EndGroup => e.(undos := [End] + e.undos)
    case Undo => Undone(e, 0).0
  }

  /** Every operation, undoing included, keeps the line the log leads back to. */
  lemma ApplyKeepsOrigin(e: Edit, op: Op)
    requires Sound(e) && Allowed(e, op)
    ensures Sound(Apply(e, op)) && Replay(Apply(e, op).undos, Apply(e, op).line) == Replay(e.undos, e.line)
  {
    match op
    case Insert(text) => InsertKeepsOrigin(e, text);
    case Delete(from, to) =>
      var lo, hi := Lo(from, to, |e.line|), Hi(from, to, |e.line|);
      DeleteInverse(e.line, lo, hi);
      ReplayCons(Deleted(lo, hi, e.line[lo..hi]), e.undos, Apply(e, op).line);
    case Overwrite(from, text) => OverwriteKeepsOrigin(e, from, text);
    case Move(_) =>
    case BeginGroup => ReplayCons(Begin, e.undos, e.line);
    case EndGroup => ReplayCons(End, e.undos, e.line);
    case Undo => UndoneKeepsOrigin(e, 0);
  }

  lemma ReplayCons(r: Record, undos: seq<Record>, line: string)
    requires Fits(r, line) && Replayable(undos, Unapplied(r, line))
    ensures Replayable([r] + undos, line) && Replay([r] + undos, line) == Replay(undos, Unapplied(r, line))
  {
    assert ([r] + undos)[1..] == undos;
  }

  lemma InsertInverse(line: string, p: nat, text: string)
    requires p <= |line|
    ensures DeletedFrom(InsertedAt(line, p, text), p, p + |text|) == line
  {
  }

  lemma DeleteInverse(line: string, from: nat, to: nat)
    requires from <= to <= |line|
    ensures InsertedAt(DeletedFrom(line, from, to), from, line[from..to]) == line
  {
  }

  /** A joined record takes back both insertions at once. */
  lemma JoinedInverse(line: string, s: nat, p: nat, text: string)
    requires s <= p <= |line| && |text| == 1
    ensures DeletedFrom(InsertedAt(line, p, text), s, p + 1) == DeletedFrom(line, s, p)
  {
  }

  lemma InsertKeepsOrigin(e: Edit, text: string)
    requires Sound(e) && e.point <= |e.line|
    ensures var line', undos' := InsertedAt(e.line, e.point, text), NoteInsert(e.undos, e.point, |text|);
      Replayable(undos', line') && Replay(undos', line') == Replay(e.undos, e.line)
  {
    var line' := InsertedAt(e.line, e.point, text);
    if Joins(e.undos, e.point, |text|) {
      JoinedInverse(e.line, e.undos[0].start, e.point, text);
      ReplayCons(Inserted(e.undos[0].start, e.point + 1), e.undos[1..], line');
    } else {
      InsertInverse(e.line, e.point, text);
      ReplayCons(Inserted(e.point, e.point + |text|), e.undos, line');
    }
  }

  lemma OverwriteInverse(line: string, from: nat, text: string)
    requires from + |text| <= |line|
    ensures var to := from + |text|; var line' := line[..from] + text + line[to..];
      |line'| == |line| && InsertedAt(DeletedFrom(line', from, to), from, line[from..to]) == line
  {
  }

  lemma OverwriteKeepsOrigin(e: Edit, from: nat, text: string)
    requires Sound(e) && from + |text| <= |e.line|
    ensures var to := from + |text|;
      var line', undos' := e.line[..from] + text + e.line[to..], NoteModify(e.undos, e.line, from, to);
      Replayable(undos', line') && Replay(undos', line') == Replay(e.undos, e.line)
  {
    var to := from + |text|;
    var line' := e.line[..from] + text + e.line[to..];
    OverwriteInverse(e.line, from, text);
    if text == "" {
      assert line' == e.line;
    } else {
      var u0 := e.undos;
      ReplayCons(Begin, u0, e.line);
      var u1 := [Begin] + u0;
      var u2 := [Deleted(from, to, e.line[from..to])] + u1;
      var u3 := [Inserted(from, to)] + u2;
      ReplayCons(u2[0], u1, DeletedFrom(line', from, to));
      ReplayCons(u3[0], u2, line');
      ReplayCons(End, u3, line');
      assert [End] + u3 == NoteModify(u0, e.line, from, to);
    }
  }

  lemma {:induction false} UndoneKeepsOrigin(e: Edit, waiting: nat)
    requires Sound(e)
    ensures var e' := Undone(e, waiting).0; Sound(e') && Replay(e'.undos, e'.line) == Replay(e.undos, e.line)
    ensures e.undos != [] ==> |Undone(e, waiting).0.undos| < |e.undos|
    decreases |e.undos|
  {
    if e.undos != [] {
      var r := e.undos[0];
      var e' := Edit(Unapplied(r, e.line), UndoPoint(r, e.point), e.undos[1..]);
      if Waiting(r, waiting) != 0 {
        UndoneKeepsOrigin(e', Waiting(r, waiting));
      }
    }
  }

  /** Undoing leaves point inside the line. */
  lemma {:induction false} UndonePoint(e: Edit, waiting: nat)
    requires Sound(e) && e.point <= |e.line|
    ensures Undone(e, waiting).0.point <= |Undone(e, waiting).0.line|
    decreases |e.undos|
  {
    if e.undos != [] {
      var r := e.undos[0];
      UndonePoint(Edit(Unapplied(r, e.line), UndoPoint(r, e.point), e.undos[1..]), Waiting(r, waiting));
    }
  }

  ghost predicate AllowedRun(e: Edit, ops: seq<Op>)
    requires Sound(e)
    decreases |ops|
  {
    ops == [] || (Allowed(e, ops[0]) && (ApplyKeepsOrigin(e, ops[0]); AllowedRun(Apply(e, ops[0]), ops[1..])))
  }

  ghost function Run(e: Edit, ops: seq<Op>): (r: Edit)
    requires Sound(e) && AllowedRun(e, ops)
    ensures Sound(r) && Replay(r.undos, r.line) == Replay(e.undos, e.line)
    decreases |ops|
  {
    if ops == [] then e
    else
      ApplyKeepsOrigin(e, ops[0]);
      Run(Apply(e, ops[0]), ops[1..])
  }

  /** `rl_revert_line`: undo until nothing is left. */
  function Reverted(e: Edit): Edit
    requires Sound(e)
    decreases |e.undos|
  {
    if e.undos == [] then e
    else
      UndoneKeepsOrigin(e, 0);
      Reverted(Undone(e, 0).0)
  }

  lemma {:induction false} RevertedIsReplay(e: Edit)
    requires Sound(e)
    ensures Reverted(e).line == Replay(e.undos, e.line) && Reverted(e).undos == []
    decreases |e.undos|
  {
    if e.undos != [] {
      UndoneKeepsOrigin(e, 0);
      RevertedIsReplay(Undone(e, 0).0);
    }
  }

  /** Any run of edits, cursor motions, groups and undos, then reverting: the
      line is the one the run began with. */
  lemma {:induction false} RunThenRevert(e: Edit, ops: seq<Op>)
    requires Sound(e) && AllowedRun(e, ops)
    ensures Sound(Run(e, ops)) && Reverted(Run(e, ops)).line == Reverted(e).line
    ensures e.undos == [] ==> Reverted(Run(e, ops)).line == e.line
    decreases |ops|
  {
    if ops != [] {
      ApplyKeepsOrigin(e, ops[0]);
      RunThenRevert(Apply(e, ops[0]), ops[1..]);
      RevertedIsReplay(e);
      RevertedIsReplay(Apply(e, ops[0]));
    }
  }

  // ------------------------------------------------------------ groups are atomic

  /** How many groups are open after the records, and whether every End closed
      one of them.  The newest record comes first. */
  function Open(undos: seq<Record>): int {
    if undos == [] then 0
    else Open(undos[1..]) + (match undos[0] case Begin => 1 case End => -1 case _ => 0)
  }

  predicate Nested(undos: seq<Record>) {
    undos == [] || (Nested(undos[1..]) && Open(undos) >= 0)
  }

  /** The open groups after a run that closes none but its own; -1 otherwise. */
  function OpenAfter(open: nat, ops: seq<Op>): int
    decreases |ops|
  {
    if ops == [] then open
    else if ops[0].BeginGroup? then OpenAfter(open + 1, ops[1..])
    else if ops[0].EndGroup? then (if open == 0 then -1 else OpenAfter(open - 1, ops[1..]))
    else OpenAfter(open, ops[1..])
  }

  lemma OpenCons(r: Record, undos: seq<Record>)
    ensures Open([r] + undos) == Open(undos) + (match r case Begin => 1 case End => -1 case _ => 0)
    ensures Nested([r] + undos) == (Nested(undos) && Open([r] + undos) >= 0)
  {
    assert ([r] + undos)[1..] == undos;
  }

  /** Where point is when the records have been taken back. */
  function PointBehind(records: seq<Record>, point: nat): nat
    decreases |records|
  {
    if records == [] then point else PointBehind(records[1..], UndoPoint(records[0], point))
  }

  /** Undoing a group's End takes back all the records down to its Begin. */
  lemma {:induction false} UndoneGroup(e: Edit, inner: seq<Record>, base: seq<Record>)
    requires Sound(e) && e.undos == inner + ([Begin] + base)
    requires Nested(inner) && Open(inner) >= 0 && Replayable(inner, e.line)
    ensures var (e', ok) := Undone(e, 1 + Open(inner));
      ok && e'.undos == base && e'.line == Replay(inner, e.line) && e'.point == PointBehind(inner, e.point)
    decreases |inner|
  {
    if inner == [] {
      assert e.undos[1..] == base;
    } else {
      var r := inner[0];
      assert e.undos[0] == r && e.undos[1..] == inner[1..] + ([Begin] + base);
      UndoneGroup(Edit(Unapplied(r, e.line), UndoPoint(r, e.point), e.undos[1..]), inner[1..], base);
    }
  }

  function Above(e: Edit, base: seq<Record>): Edit {
    e.(undos := e.undos + ([Begin] + base))
  }

  /** Nothing joins an insertion from before the Begin. */
  lemma NoteInsertAbove(inner: seq<Record>, base: seq<Record>, p: nat, l: nat)
    ensures NoteInsert(inner + ([Begin] + base), p, l) == NoteInsert(inner, p, l) + ([Begin] + base)
  {
    var low := [Begin] + base;
    var all := inner + low;
    assert all[0] == if inner == [] then Begin else inner[0];
    assert Joins(all, p, l) == Joins(inner, p, l);
    if Joins(inner, p, l) {
      var r := Inserted(inner[0].start, p + 1);
      assert all[1..] == inner[1..] + low;
      assert [r] + (inner[1..] + low) == ([r] + inner[1..]) + low;
    } else {
      var r := Inserted(p, p + l);
      assert [r] + (inner + low) == ([r] + inner) + low;
    }
  }

  lemma {:induction false} UndoneAbove(e: Edit, base: seq<Record>, waiting: nat)
    requires Sound(e) && Sound(Above(e, base)) && Undone(e, waiting).1
    ensures Undone(Above(e, base), waiting) == (Above(Undone(e, waiting).0, base), true)
    decreases |e.undos|
  {
    var r, low := e.undos[0], [Begin] + base;
    assert (e.undos + low)[0] == r && (e.undos + low)[1..] == e.undos[1..] + low;
    if Waiting(r, waiting) != 0 {
      UndoneAbove(Edit(Unapplied(r, e.line), UndoPoint(r, e.point), e.undos[1..]), base, Waiting(r, waiting));
    }
  }

  /** An undo finds enough records of the run itself. */
  predicate Inside(e: Edit, op: Op)
    requires Sound(e)
  {
    op.Undo? ==> Undone(e, 0).1
  }

  lemma ApplyAbove(e: Edit, base: seq<Record>, op: Op)
    requires Sound(e) && Sound(Above(e, base)) && Allowed(e, op) && Inside(e, op)
    ensures Apply(Above(e, base), op) == Above(Apply(e, op), base)
  {
    if op.Insert? {
      NoteInsertAbove(e.undos, base, e.point, |op.text|);
    } else if op.Undo? {
      UndoneAbove(e, base, 0);
    }
  }

  /** No undo of the run reaches behind its beginning. */
  ghost predicate StaysInside(e: Edit, ops: seq<Op>)
    requires Sound(e) && AllowedRun(e, ops)
    decreases |ops|
  {
    ops == [] ||
    (Inside(e, ops[0]) && (ApplyKeepsOrigin(e, ops[0]); StaysInside(Apply(e, ops[0]), ops[1..])))
  }

  lemma {:induction false} RunAbove(e: Edit, base: seq<Record>, ops: seq<Op>)
    requires Sound(e) && Sound(Above(e, base)) && AllowedRun(e, ops) && StaysInside(e, ops)
    ensures AllowedRun(Above(e, base), ops) && Run(Above(e, base), ops) == Above(Run(e, ops), base)
    decreases |ops|
  {
    hide Apply, Inside;
    if ops != [] {
      ApplyKeepsOrigin(e, ops[0]);
      ApplyKeepsOrigin(Above(e, base), ops[0]);
      ApplyAbove(e, base, ops[0]);
      RunAbove(Apply(e, ops[0]), base, ops[1..]);
    }
  }

  lemma ApplyNested(e: Edit, op: Op)
    requires Sound(e) && Allowed(e, op) && !op.Undo? && Nested(e.undos) && (op.EndGroup? ==> Open(e.undos) > 0)
    ensures Nested(Apply(e, op).undos)
    ensures Open(Apply(e, op).undos) == Open(e.undos) + (match op case BeginGroup => 1 case EndGroup => -1 case _ => 0)
  {
    hide Nested, Open, InsertedAt, DeletedFrom;
    OpenIsNat(e.undos);
    match op
    case Insert(text) =>
      if Joins(e.undos, e.point, |text|) {
        assert e.undos == [e.undos[0]] + e.undos[1..];
        OpenCons(e.undos[0], e.undos[1..]);
        OpenCons(Inserted(e.undos[0].start, e.point + 1), e.undos[1..]);
      } else {
        OpenCons(Inserted(e.point, e.point + |text|), e.undos);
      }
    case Delete(from, to) =>
      OpenCons(Apply(e, op).undos[0], e.undos);
    case Overwrite(from, text) =>
      if text != "" {
        var u1 := [Begin] + e.undos;
        var u2 := [Deleted(from, from + |text|, e.line[from..from + |text|])] + u1;
        var u3 := [Inserted(from, from + |text|)] + u2;
        OpenCons(Begin, e.undos);
        OpenCons(u2[0], u1);
        OpenCons(u3[0], u2);
        OpenCons(End, u3);
        assert Apply(e, op).undos == [End] + u3;
      }
    case Move(_) =>
    case BeginGroup => OpenCons(Begin, e.undos);
    case EndGroup => OpenCons(End, e.undos);
  }

  lemma OpenIsNat(undos: seq<Record>)
    requires Nested(undos)
    ensures Open(undos) >= 0
  {
  }

  lemma {:induction false} RunNested(e: Edit, ops: seq<Op>)
    requires Sound(e) && AllowedRun(e, ops) && Nested(e.undos) && Open(e.undos) >= 0
    requires forall op | op in ops :: !op.Undo?
    requires OpenAfter(Open(e.undos), ops) >= 0
    ensures Nested(Run(e, ops).undos) && Open(Run(e, ops).undos) == OpenAfter(Open(e.undos), ops)
    decreases |ops|
  {
    if ops != [] {
      ApplyKeepsOrigin(e, ops[0]);
      ApplyNested(e, ops[0]);
      RunNested(Apply(e, ops[0]), ops[1..]);
    }
  }

  /** The run, on its own, leaves no group open and has undone nothing but its own
      records. */
  ghost predicate Balanced(bare: Edit, ops: seq<Op>)
    requires Sound(bare)
  {
    && AllowedRun(bare, ops) && StaysInside(bare, ops)
    && Nested(Run(bare, ops).undos) && Open(Run(bare, ops).undos) == 0
  }

  /** One undo takes back a whole group, however long and however nested, with undos of
      its own in it or not: the line and the undo list are those from before the group. */
  lemma GroupIsAtomic(e: Edit, ops: seq<Op>, begun: Edit)
    requires Sound(e) && Balanced(e.(undos := []), ops) && begun == Apply(e, BeginGroup)
    ensures Sound(begun) && AllowedRun(begun, ops)
    ensures var done := Apply(Run(begun, ops), EndGroup);
      Sound(done) && Apply(done, Undo).line == e.line && Apply(done, Undo).undos == e.undos
  {
    hide Run, AllowedRun, StaysInside, Nested, Open, Undone;
    var bare := e.(undos := []);
    ApplyKeepsOrigin(e, BeginGroup);
    assert Above(bare, e.undos) == begun;
    RunAbove(bare, e.undos, ops);
    UndoEnd(Run(bare, ops), e.undos);
  }

  /** Undoing the End of a group that stands on some older records. */
  lemma UndoEnd(inner: Edit, base: seq<Record>)
    requires Sound(inner) && Nested(inner.undos) && Open(inner.undos) == 0 && Sound(Above(inner, base))
    ensures var done := Apply(Above(inner, base), EndGroup);
      && Sound(done) && Apply(done, Undo).undos == base
      && Apply(done, Undo).line == Replay(inner.undos, inner.line)
  {
    hide Nested, Open;
    var open := Above(inner, base);
    ApplyKeepsOrigin(open, EndGroup);
    var done := Apply(open, EndGroup);
    assert done.undos[1..] == open.undos;
    UndoneGroup(Edit(done.line, UndoPoint(End, done.point), open.undos), inner.undos, base);
  }

  lemma {:induction false} StaysWithoutUndo(e: Edit, ops: seq<Op>)
    requires Sound(e) && AllowedRun(e, ops) && forall op | op in ops :: !op.Undo?
    ensures StaysInside(e, ops)
    decreases |ops|
  {
    if ops != [] {
      ApplyKeepsOrigin(e, ops[0]);
      StaysWithoutUndo(Apply(e, ops[0]), ops[1..]);
    }
  }

  /** Without undos it is enough that the groups match. */
  lemma BalancedWithoutUndo(bare: Edit, ops: seq<Op>)
    requires bare.undos == [] && AllowedRun(bare, ops) && (forall op | op in ops :: !op.Undo?) && OpenAfter(0, ops) == 0
    ensures Balanced(bare, ops)
  {
    StaysWithoutUndo(bare, ops);
    RunNested(bare, ops);
  }

  /** One undo takes back one edit; only a character that joined the insertion
      before it goes together with that insertion. */
  lemma UndoTakesBack(e: Edit, op: Op, done: Edit)
    requires Sound(e) && Allowed(e, op) && done == Apply(e, op) && Sound(done)
    requires op.Insert? || op.Delete? || (op.Overwrite? && op.text != "")
    ensures var joined := op.Insert? && Joins(e.undos, e.point, |op.text|);
      var before := if joined then Apply(e, Undo) else e;
      Apply(done, Undo).line == before.line && Apply(done, Undo).undos == before.undos
    ensures var point := Apply(done, Undo).point;
      match op
      case Insert(text) => point == if Joins(e.undos, e.point, |text|) then e.undos[0].start else e.point
      case Delete(from, to) =>
        var hi := if from < to then to else from;
        point == if hi < |e.line| then hi else |e.line|
      case Overwrite(from, text) => point == from + |text|
      case _ => true
  {
    match op
    case Insert(text) =>
      if Joins(e.undos, e.point, |text|) {
        JoinedInverse(e.line, e.undos[0].start, e.point, text);
      } else {
        InsertInverse(e.line, e.point, text);
      }
    case Delete(from, to) =>
      DeleteInverse(e.line, Lo(from, to, |e.line|), Hi(from, to, |e.line|));
    case Overwrite(from, text) => UndoTakesBackOverwrite(e, from, text);
  }

  lemma UndoTakesBackOverwrite(e: Edit, from: nat, text: string)
    requires Sound(e) && from + |text| <= |e.line| && text != ""
    requires Sound(Apply(e, Op.Overwrite(from, text)))
    ensures var undone := Apply(Apply(e, Op.Overwrite(from, text)), Undo);
            undone.line == e.line && undone.undos == e.undos && undone.point == from + |text|
  {
    var to, done := from + |text|, Apply(e, Op.Overwrite(from, text));
    var d := Deleted(from, to, e.line[from..to]);
    var inner := [Inserted(from, to)] + [d];
    OverwriteInverse(e.line, from, text);
    OpenCons(d, []);
    OpenCons(Inserted(from, to), [d]);
    var body := Edit(done.line, done.point, done.undos[1..]);
    assert body.undos == inner + ([Begin] + e.undos);
    ReplayCons(d, [], DeletedFrom(done.line, from, to));
    ReplayCons(Inserted(from, to), [d], done.line);
    UndoneGroup(body, inner, e.undos);
    assert inner[1..] == [d] && [d][1..] == [];
    assert PointBehind(inner, body.point) == PointBehind([d], from) == PointBehind([], to);
  }

  /** What is deleted: the text between the two places, whichever comes first, as far as
      the line goes. */
  lemma Deletes(e: Edit, from: nat, to: nat)
    ensures Apply(e, Delete(from, to)) == Apply(e, Delete(to, from))
    ensures from <= to <= |e.line| ==>
      Apply(e, Delete(from, to)) == Edit(e.line[..from] + e.line[to..], e.point,
                                         [Deleted(from, to, e.line[from..to])] + e.undos)
    ensures from <= |e.line| <= to ==> Apply(e, Delete(from, to)) == Apply(e, Delete(from, |e.line|))
    ensures |e.line| <= from <= to ==> Apply(e, Delete(from, to)).line == e.line
  {
  }

  /** Typing a text, character by character. */
  function Typed(e: Edit, text: string): (r: Edit)
    requires e.point <= |e.line|
    ensures r.point == e.point + |text| <= |r.line|
    decreases |text|
  {
    if text == "" then e
    else
      var front := Typed(e, text[..|text| - 1]);
      Apply(front, Insert([text[|text| - 1]]))
  }

  /** What typing n characters at p leaves on the undo list. */
  predicate Recorded(undos: seq<Record>, p: nat, n: nat, base: seq<Record>) {
    undos == if n <= 20 then [Inserted(p, p + n)] + base else [Inserted(p + 20, p + 21), Inserted(p, p + 20)] + base
  }

  lemma TypeOne(t: Edit, c: char, p: nat, base: seq<Record>, line: string, text: string)
    requires p <= |line| && t == Edit(InsertedAt(line, p, text), p + |text|, t.undos)
    requires 0 < |text| <= 20 && Recorded(t.undos, p, |text|, base)
    ensures var t' := Apply(t, Insert([c]));
      t'.line == InsertedAt(line, p, text + [c]) && Recorded(t'.undos, p, |text| + 1, base)
  {
    var r := Inserted(p + |text|, p + |text| + 1);
    assert t.undos[1..] == base;
    assert [r] + t.undos == [r, Inserted(p, p + |text|)] + base;
  }

  lemma TypedAt(e: Edit, front: string, c: char)
    requires e.point <= |e.line|
    ensures Typed(e, front + [c]) == Apply(Typed(e, front), Insert([c])) && Typed(e, "") == e
  {
    assert (front + [c])[..|front|] == front;
  }

  lemma {:induction false} TypedIs(e: Edit, text: string)
    requires e.point <= |e.line| && 0 < |text| <= 21
    requires e.undos != [] && e.undos[0].Inserted? ==> e.undos[0].end != e.point
    ensures var t := Typed(e, text);
      t.line == InsertedAt(e.line, e.point, text) && Recorded(t.undos, e.point, |text|, e.undos)
    decreases |text|
  {
    hide Typed, InsertedAt, Apply, Recorded;
    var front, c := text[..|text| - 1], text[|text| - 1];
    assert front + [c] == text;
    TypedAt(e, front, c);
    if front != "" {
      TypedIs(e, front);
      TypeOne(Typed(e, front), c, e.point, e.undos, e.line, front);
    } else {
      FirstTyped(e, c);
      assert front + [c] == [c];
    }
  }

  /** Up to twenty typed characters are one insertion, which one undo takes back; the
      next one starts another. */
  lemma TypingJoins(e: Edit, text: string)
    requires Sound(e) && e.point <= |e.line| && 0 < |text| <= 21
    requires e.undos != [] && e.undos[0].Inserted? ==> e.undos[0].end != e.point
    ensures var p, t := e.point, Typed(e, text);
      && t.line == InsertedAt(e.line, p, text)
      && t.undos == (if |text| <= 20 then [Inserted(p, p + |text|)] + e.undos
                     else [Inserted(p + 20, p + 21), Inserted(p, p + 20)] + e.undos)
    ensures |text| <= 20 ==> Sound(Typed(e, text)) && Apply(Typed(e, text), Undo) == e
  {
    hide Typed, InsertedAt, Sound, Undone;
    TypedIs(e, text);
    if |text| <= 20 {
      UndoTyped(e, text, Typed(e, text));
    }
  }

  lemma FirstTyped(e: Edit, c: char)
    requires e.point <= |e.line|
    requires e.undos != [] && e.undos[0].Inserted? ==> e.undos[0].end != e.point
    ensures var t := Apply(e, Insert([c]));
      t.line == InsertedAt(e.line, e.point, [c]) && Recorded(t.undos, e.point, 1, e.undos)
  {
  }

  lemma UndoTyped(e: Edit, text: string, t: Edit)
    requires Sound(e) && e.point <= |e.line|
    requires t.line == InsertedAt(e.line, e.point, text)
    requires t.undos == [Inserted(e.point, e.point + |text|)] + e.undos
    ensures Sound(t) && Apply(t, Undo) == e
  {
    InsertInverse(e.line, e.point, text);
    ReplayCons(Inserted(e.point, e.point + |text|), e.undos, t.line);
  }

  // ---------------------------------------------------------------- the buffer

  /** The loop of rl_insert_text that makes room: everything from point on, the final
      NUL included, moves right. */
  method MakeRoom(line: array<char>, point: nat, end: nat, l: nat)
    requires point <= end && end + l < line.Length
    modifies line
    ensures forall k | 0 <= k < point :: line[k] == old(line[k])
    ensures forall k | point + l <= k < end + l :: line[k] == old(line[k - l])
  {
    ghost var was := line[..];
    var i: int := end;
    while i >= point
      invariant point - 1 <= i <= end
      invariant forall k | 0 <= k <= i :: line[k] == was[k]
      invariant forall k | i + l < k <= end + l :: line[k] == was[k - l]
    {
      line[i + l] := line[i];
      i := i - 1;
    }
  }

  method CopyIn(line: array<char>, point: nat, text: string)
    requires point + |text| <= line.Length
    modifies line
    ensures forall k | 0 <= k < point :: line[k] == old(line[k])
    ensures forall k | point <= k < point + |text| :: line[k] == text[k - point]
    ensures forall k | point + |text| <= k < line.Length :: line[k] == old(line[k])
  {
    ghost var was := line[..];
    var i := 0;
    while i < |text|
      invariant i <= |text|
      invariant forall k | 0 <= k < point :: line[k] == was[k]
      invariant forall k | point <= k < point + i :: line[k] == text[k - point]
      invariant forall k | point + i <= k < line.Length :: line[k] == was[k]
    {
      line[point + i] := text[i];
      i := i + 1;
    }
  }

  /** The loop of rl_delete_text that closes the gap. */
  method CloseGap(line: array<char>, from: nat, to: nat, end: nat)
    requires from <= to <= end <= line.Length
    modifies line
    ensures line[..end - (to - from)] == DeletedFrom(old(line[..end]), from, to)
  {
    ghost var was := line[..];
    var diff := to - from;
    var i := from;
    while i < end - diff
      invariant from <= i <= end - diff
      invariant forall k | 0 <= k < from :: line[k] == was[k]
      invariant forall k | from <= k < i :: line[k] == was[k + diff]
      invariant forall k | i <= k < line.Length :: line[k] == was[k]
    {
      line[i] := line[i + diff];
      i := i + 1;
    }
    GapIsClosed(was, line[..], from, to, end);
    assert line[..][..end - diff] == line[..end - diff] && was[..end] == old(line[..end]);
  }

  lemma GapIsClosed(was: string, now: string, from: nat, to: nat, end: nat)
    requires from <= to <= end <= |was| == |now|
    requires forall k | 0 <= k < from :: now[k] == was[k]
    requires forall k | from <= k < end - (to - from) :: now[k] == was[k + (to - from)]
    ensures now[..end - (to - from)] == DeletedFrom(was[..end], from, to)
  {
  }

  lemma InsertedParts(before: string, p: nat, text: string, after: string)
    requires p <= |before| && |after| == |before| + |text|
    requires forall k | 0 <= k < p :: after[k] == before[k]
    requires forall k | p <= k < p + |text| :: after[k] == text[k - p]
    requires forall k | p + |text| <= k < |after| :: after[k] == before[k - |text|]
    ensures after == InsertedAt(before, p, text)
  {
  }

  class Line {
    var theLine: array<char>
    var rlEnd: nat
    var rlPoint: nat
    var undoList: seq<Record>
    var doingAnUndo: bool

    ghost predicate Valid() reads this, theLine {
      rlEnd < theLine.Length && theLine[rlEnd] == '\0'
    }

    ghost function Text(): string
      reads this, theLine
      requires Valid()
    {
      theLine[..rlEnd]
    }

    ghost function State(): Edit
      reads this, theLine
      requires Valid()
    {
      Edit(Text(), rlPoint, undoList)
    }

    constructor ()
      ensures Valid() && State() == Edit("", 0, []) && !doingAnUndo && fresh(theLine)
    {
      theLine := new char[256];
      rlEnd, rlPoint, undoList, doingAnUndo := 0, 0, [], false;
      new;
      theLine[0] := '\0';
    }

    method ExtendLineBuffer(len: nat)
      requires Valid()
      modifies this`theLine
      ensures Valid() && Text() == old(Text()) && theLine.Length > len && fresh(theLine)
    {
      var size := theLine.Length;
      while len >= size
        invariant size >= theLine.Length
        decreases len - size
        modifies {}
      {
        size := size + 256;
      }
      var wider := new char[size](i requires 0 <= i reads this, theLine =>
        if i < theLine.Length then theLine[i] else '\0');
      assert wider[..rlEnd] == theLine[..rlEnd];
      theLine := wider;
    }

    /** Both loops: the text is in the buffer, the end not yet moved. */
    method SpliceIn(text: string)
      requires Valid() && rlPoint <= rlEnd && rlEnd + |text| < theLine.Length
      modifies theLine
      ensures theLine[..rlEnd + |text|] == InsertedAt(old(Text()), rlPoint, text)
    {
      MakeRoom(theLine, rlPoint, rlEnd, |text|);
      CopyIn(theLine, rlPoint, text);
      InsertedParts(old(Text()), rlPoint, text, theLine[..rlEnd + |text|]);
    }

    /** If possible and desirable, the insertion joins the newest record. */
    method RecordInsertion(l: nat)
      modifies this`undoList
      ensures undoList == NoteInsert(old(undoList), rlPoint, l)
    {
      if l == 1 && undoList != [] && undoList[0].Inserted? && undoList[0].end == rlPoint
         && undoList[0].end - undoList[0].start < 20 {
        undoList := [Inserted(undoList[0].start, undoList[0].end + 1)] + undoList[1..];
      } else {
        undoList := [Inserted(rlPoint, rlPoint + l)] + undoList;
      }
    }

    /** `rl_insert_text`. */
    method InsertText(text: string) returns (l: nat)
      requires Valid() && rlPoint <= rlEnd
      modifies this, theLine
      ensures Valid() && (theLine == old(theLine) || fresh(theLine))
      ensures l == |text| && doingAnUndo == old(doingAnUndo)
      ensures Text() == InsertedAt(old(Text()), old(rlPoint), text) && rlPoint == old(rlPoint) + |text|
      ensures undoList == if doingAnUndo then old(undoList) else NoteInsert(old(undoList), old(rlPoint), |text|)
    {
      hide NoteInsert, InsertedAt;
      l := |text|;
      if rlEnd + l >= theLine.Length {
        ExtendLineBuffer(rlEnd + l);
      }
      SpliceIn(text);
      if !doingAnUndo {
        RecordInsertion(l);
      }
      rlPoint := rlPoint + l;
      rlEnd := rlEnd + l;
      ghost var done := theLine[..rlEnd];
      theLine[rlEnd] := '\0';
      assert theLine[..rlEnd] == done;
    }

    method CopyText(from: nat, to: nat) returns (copy: string)
      requires Valid() && from <= rlEnd && to <= rlEnd
      ensures copy == if from <= to then Text()[from..to] else Text()[to..from]
    {
      var a, b := from, to;
      if a > b {
        a, b := b, a;
      }
      copy := theLine[a..b];
      assert copy == Text()[a..b];
    }

    /** `rl_delete_text`: point stays where it is, even past the new end. */
    method DeleteText(from0: nat, to0: nat) returns (diff: nat)
      requires Valid()
      modifies this`rlEnd, this`undoList, theLine
      ensures Valid()
      ensures var lo, hi := Lo(from0, to0, |old(Text())|), Hi(from0, to0, |old(Text())|);
        && diff == hi - lo && Text() == DeletedFrom(old(Text()), lo, hi)
        && undoList == if doingAnUndo then old(undoList) else [Deleted(lo, hi, old(Text())[lo..hi])] + old(undoList)
    {
      var from, to := from0, to0;
      if from > to {
        from, to := to, from;
      }
      if to > rlEnd {
        to := rlEnd;
        if from > to {
          from := to;
        }
      }
      var text := CopyText(from, to);
      diff := to - from;
      CloseGap(theLine, from, to, rlEnd);
      if !doingAnUndo {
        undoList := [Deleted(from, to, text)] + undoList;
      }
      rlEnd := rlEnd - diff;
      ghost var done := theLine[..rlEnd];
      theLine[rlEnd] := '\0';
      assert theLine[..rlEnd] == done;
    }

    method AddUndo(r: Record)
      modifies this`undoList
      ensures undoList == [r] + old(undoList)
    {
      undoList := [r] + undoList;
    }

    /** `rl_modifying`: the text is about to be overwritten in place. */
    method Modifying(start0: nat, end0: nat)
      requires Valid() && start0 <= rlEnd && end0 <= rlEnd
      modifies this`undoList
      ensures Valid()
      ensures undoList == NoteModify(old(undoList), Text(), Lo(start0, end0, rlEnd), Hi(start0, end0, rlEnd))
    {
      var start, end := start0, end0;
      if start > end {
        start, end := end, start;
      }
      if start != end {
        var temp := CopyText(start, end);
        AddUndo(Begin);
        AddUndo(Deleted(start, end, temp));
        AddUndo(Inserted(start, end));
        AddUndo(End);
      }
    }

    /** The four cases of `rl_do_undo`. */
    method Unapply(r: Record, waiting: nat) returns (w: nat)
      requires Valid() && Fits(r, Text()) && doingAnUndo
      modifies this, theLine
      ensures Valid() && doingAnUndo && undoList == old(undoList) && (theLine == old(theLine) || fresh(theLine))
      ensures Text() == Unapplied(r, old(Text())) && rlPoint == UndoPoint(r, old(rlPoint)) && w == Waiting(r, waiting)
    {
      w := waiting;
      match r {
        case Deleted(start, _, text) =>
          rlPoint := start;
          var l := InsertText(text);
        case Inserted(start, end) =>
          var d := DeleteText(start, end);
          rlPoint := start;
        case End =>
          w := w + 1;
        case Begin =>
          if w > 0 {
            w := w - 1;
          }
      }
    }

    /** `rl_do_undo`. */
    method DoUndo() returns (ok: bool)
      requires Valid() && Sound(State()) && !doingAnUndo
      modifies this, theLine
      ensures Valid() && !doingAnUndo && (theLine == old(theLine) || fresh(theLine))
      ensures (State(), ok) == Undone(old(State()), 0)
    {
      var waiting := 0;
      while true
        invariant Valid() && !doingAnUndo && Sound(State())
        invariant theLine == old(theLine) || fresh(theLine)
        invariant Undone(State(), waiting) == Undone(old(State()), 0)
        decreases |undoList|
      {
        if undoList == [] {
          return false;
        }
        doingAnUndo := true;
        waiting := Unapply(undoList[0], waiting);
        doingAnUndo := false;
        undoList := undoList[1..];
        if waiting == 0 {
          return true;
        }
      }
    }

    /** `rl_revert_line`. */
    method RevertLine()
      requires Valid() && Sound(State()) && !doingAnUndo
      modifies this, theLine
      ensures Valid() && !doingAnUndo && (theLine == old(theLine) || fresh(theLine))
      ensures State() == Reverted(old(State()))
      ensures Text() == Replay(old(undoList), old(Text())) && undoList == []
    {
      RevertedIsReplay(State());
      while undoList != []
        invariant Valid() && Sound(State()) && !doingAnUndo
        invariant theLine == old(theLine) || fresh(theLine)
        invariant Reverted(State()) == Reverted(old(State()))
        decreases |undoList|
      {
        UndoneKeepsOrigin(State(), 0);
        var ok := DoUndo();
      }
    }
  }
}
