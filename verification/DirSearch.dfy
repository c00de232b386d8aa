/** The self-reorganising directory list of kpathsea: str-llist.c, and the
    search of pathsearch.c that relinks the list it is walking. */
module DirSearch {

  /** A list cell; only `moved` and `next` ever change. */
  class Elt {
    const str: string
    var moved: bool
    var next: Elt?

    constructor (str: string)
      ensures this.str == str && !moved && next == null
    {
      this.str, moved, next := str, false, null;
    }
  }

  // --------------------------------------------- what a search means, on names

  /** dir+name for every directory where that is readable, in order. */
  function Hits(dirs: seq<string>, name: string, readable: string -> bool): (r: seq<string>)
  {
    if dirs == [] then []
    else
      var d := dirs[|dirs| - 1];
      Hits(dirs[..|dirs| - 1], name, readable) + if readable(d + name) then [d + name] else []
  }

  /** The directories for which `name` is readable (or not), in order. */
  function Chosen(dirs: seq<string>, name: string, readable: string -> bool, want: bool): (r: seq<string>)
  {
    if dirs == [] then []
    else
      var d := dirs[|dirs| - 1];
      Chosen(dirs[..|dirs| - 1], name, readable, want) + if readable(d + name) == want then [d] else []
  }

  /** The order a full search leaves: the `m` directories moved before, then
      those it hit, then those it missed. */
  function Reordered(dirs: seq<string>, m: nat, name: string, readable: string -> bool): (r: seq<string>)
    requires m <= |dirs|
  {
    dirs[..m] + Chosen(dirs[m..], name, readable, true) + Chosen(dirs[m..], name, readable, false)
  }

  /** Where element k of the list comes from when element p goes to m. */
  function FloatFrom(m: nat, p: nat, k: nat): nat {
    if k == m then p else if m < k <= p then k - 1 else k
  }

  function Floated<T>(s: seq<T>, m: nat, p: nat): (r: seq<T>)
    requires m <= p < |s|
    ensures |r| == |s| && forall k | 0 <= k < |s| :: r[k] == s[FloatFrom(m, p, k)]
  {
    seq(|s|, k requires 0 <= k < |s| => s[FloatFrom(m, p, k)])
  }

  function Strs(nodes: seq<Elt>): (r: seq<string>)
    ensures |r| == |nodes| && forall i | 0 <= i < |r| :: r[i] == nodes[i].str
  {
    seq(|nodes|, i requires 0 <= i < |nodes| => nodes[i].str)
  }

  /** The cells of `nodes` whose directory has (or has not) the file. */
  ghost function Pick(nodes: seq<Elt>, name: string, readable: string -> bool, want: bool): (r: seq<Elt>)
    ensures forall n | n in r :: n in nodes && readable(n.str + name) == want
    ensures |r| <= |nodes|
  {
    if nodes == [] then []
    else
      var n := nodes[|nodes| - 1];
      Pick(nodes[..|nodes| - 1], name, readable, want) + if readable(n.str + name) == want then [n] else []
  }

  // ------------------------------------------------------------------ the list

  function CellAt(nodes: seq<Elt>, i: nat): Elt? {
    if i < |nodes| then nodes[i] else null
  }

  function After(nodes: seq<Elt>, i: nat): Elt? {
    CellAt(nodes, i + 1)
  }

  /** The successor of old element i once element p has been spliced out and
      put back in front of element m. */
  function Rewired(nodes: seq<Elt>, m: nat, p: nat, i: nat): Elt?
    requires m < p < |nodes|
  {
    if i + 1 == p then After(nodes, p)
    else if i == p then nodes[m]
    else if i + 1 == m then nodes[p]
    else After(nodes, i)
  }

  lemma RewiredIsFloated(nodes: seq<Elt>, m: nat, p: nat)
    requires m < p < |nodes|
    ensures var r := Floated(nodes, m, p);
            forall k | 0 <= k < |nodes| :: After(r, k) == Rewired(nodes, m, p, FloatFrom(m, p, k))
  {
    var r := Floated(nodes, m, p);
    forall k | 0 <= k < |nodes|
      ensures After(r, k) == Rewired(nodes, m, p, FloatFrom(m, p, k))
    {
      if k + 1 < |nodes| {
        assert r[k + 1] == nodes[FloatFrom(m, p, k + 1)];
      }
    }
  }

  lemma FloatedDistinct<T>(s: seq<T>, m: nat, p: nat)
    requires m <= p < |s| && forall i, j | 0 <= i < j < |s| :: s[i] != s[j]
    ensures var r := Floated(s, m, p); forall i, j | 0 <= i < j < |r| :: r[i] != r[j]
  {
    var r := Floated(s, m, p);
    forall i, j | 0 <= i < j < |r|
      ensures r[i] != r[j]
    {
      assert r[i] == s[FloatFrom(m, p, i)] && r[j] == s[FloatFrom(m, p, j)];
    }
  }

  lemma FloatedInPlace<T>(s: seq<T>, p: nat)
    requires p < |s|
    ensures Floated(s, p, p) == s
  {
  }

  class LList {
    var head: Elt?
    ghost var nodes: seq<Elt>
    ghost var cells: set<Elt>

    ghost predicate Linked()
      reads this, cells
    {
      && (forall i | 0 <= i < |nodes| :: nodes[i] in cells)
      && (head == if nodes == [] then null else nodes[0])
      && (forall i | 0 <= i < |nodes| :: nodes[i].next == After(nodes, i))
      && (forall i, j | 0 <= i < j < |nodes| :: nodes[i] != nodes[j])
    }

    /** Linked, and the elements moved so far are the front of the list. */
    ghost predicate Valid()
      reads this, cells
    {
      Linked() && forall i, j | 0 <= i < j < |nodes| && nodes[j].moved :: nodes[i].moved
    }

    /** How many elements have been moved. */
    ghost function Moved(): (m: nat)
      requires Valid()
      reads this, cells
      ensures m <= |nodes| && forall i | 0 <= i < |nodes| :: nodes[i].moved <==> i < m
    {
      CountMoved(nodes)
    }

    static ghost function CountMoved(ns: seq<Elt>): (m: nat)
      requires forall i, j | 0 <= i < j < |ns| && ns[j].moved :: ns[i].moved
      reads ns
      ensures m <= |ns| && forall i | 0 <= i < |ns| :: ns[i].moved <==> i < m
    {
      if ns == [] then 0
      else if ns[|ns| - 1].moved then |ns|
      else CountMoved(ns[..|ns| - 1])
    }

    static lemma {:induction false} CountIs(ns: seq<Elt>, m: nat)
      requires m <= |ns| && forall i | 0 <= i < |ns| :: ns[i].moved <==> i < m
      ensures CountMoved(ns) == m
    {
      if ns != [] && !ns[|ns| - 1].moved {
        CountIs(ns[..|ns| - 1], m);
      }
    }

    /** Following the links is going through `nodes`. */
    lemma Links()
      requires Valid()
      ensures head == CellAt(nodes, 0)
      ensures forall i: nat | i < |nodes| :: nodes[i].next == CellAt(nodes, i + 1)
    {
    }

    constructor ()
      ensures Valid() && nodes == []
    {
      head, nodes, cells := null, [], {};
    }

    /** str_llist_add: a new element at the end, not moved. */
    method Add(str: string)
      requires Valid()
      modifies this, cells
      ensures Valid() && |nodes| == old(|nodes|) + 1 && nodes[..old(|nodes|)] == old(nodes)
      ensures cells == old(cells) + {nodes[old(|nodes|)]}
      ensures nodes[old(|nodes|)].str == str && !nodes[old(|nodes|)].moved && fresh(nodes[old(|nodes|)])
      ensures forall n | n in old(nodes) :: n.moved == old(n.moved)
    {
      var elt := new Elt(str);
      var e := head;
      ghost var i := 0;
      while e != null && e.next != null
        invariant e != null ==> i < |nodes| && e == nodes[i]
        invariant e == null ==> nodes == []
        decreases |nodes| - i
        modifies {}
      {
        e := e.next;
        i := i + 1;
      }
      if e == null {
        head := elt;
      } else {
        e.next := elt;
      }
      nodes, cells := nodes + [elt], cells + {elt};
    }

    /** str_llist_float: `mover`, at position `p`, goes before the first element
        that has not been moved yet. */
    method Float(mover: Elt, ghost p: nat)
      requires Valid() && p < |nodes| && mover == nodes[p]
      modifies this, cells
      ensures Valid() && cells == old(cells)
      ensures if old(mover.moved) then nodes == old(nodes) else nodes == Floated(old(nodes), old(Moved()), p)
      ensures !old(mover.moved) ==> nodes[old(Moved())] == mover
      ensures Moved() == if old(mover.moved) then old(Moved()) else old(Moved()) + 1
    {
      if mover.moved {
        return;
      }
      ghost var m, was := Moved(), nodes;
      MoveUp(mover, p);
      forall k | 0 <= k < |nodes|
        ensures nodes[k].moved <==> k < m
      {
        assert nodes[k] == was[FloatFrom(m, p, k)];
      }
      Mark(mover, m);
    }

    /** Marking the first unmoved element as moved. */
    method Mark(mover: Elt, ghost m: nat)
      requires Linked() && m < |nodes| && mover == nodes[m]
      requires forall k | 0 <= k < |nodes| :: nodes[k].moved <==> k < m
      modifies mover`moved
      ensures Valid() && Moved() == m + 1
    {
      mover.moved := true;
      CountIs(nodes, m + 1);
    }

    /** Finding the first unmoved element and relinking `mover` in front of it. */
    method MoveUp(mover: Elt, ghost p: nat)
      requires Valid() && p < |nodes| && mover == nodes[p] && !mover.moved
      modifies this, cells`next
      ensures Linked() && cells == old(cells) && nodes == Floated(old(nodes), old(Moved()), p)
    {
      ghost var m := Moved();
      var lastMoved: Elt?, unmoved := null, head;
      ghost var i := 0;
      while unmoved.moved
        invariant i <= m <= p && unmoved == nodes[i]
        invariant lastMoved == if i == 0 then null else nodes[i - 1]
        decreases m - i
        modifies {}
      {
        lastMoved, unmoved := unmoved, unmoved.next;
        i := i + 1;
      }
      if unmoved != mover {
        Relink(mover, p, lastMoved, unmoved, m);
      } else {
        FloatedInPlace(nodes, p);
      }
    }

    /** `mover` at p goes between `lastMoved` and `unmoved`, which is at m. */
    method Relink(mover: Elt, ghost p: nat, lastMoved: Elt?, unmoved: Elt, ghost m: nat)
      requires Linked() && m < p < |nodes| && mover == nodes[p] && unmoved == nodes[m]
      requires lastMoved == if m == 0 then null else nodes[m - 1]
      modifies this, cells`next
      ensures Linked() && cells == old(cells) && nodes == Floated(old(nodes), m, p)
    {
      Splice(mover, p, lastMoved, unmoved, m);
      ghost var before := nodes;
      RewiredIsFloated(nodes, m, p);
      FloatedDistinct(nodes, m, p);
      nodes := Floated(nodes, m, p);
      forall k | 0 <= k < |nodes|
        ensures nodes[k] in cells && nodes[k].next == After(nodes, k)
      {
        assert nodes[k] == before[FloatFrom(m, p, k)];
      }
    }

    /** The pointer assignments. */
    method Splice(mover: Elt, ghost p: nat, lastMoved: Elt?, unmoved: Elt, ghost m: nat)
      requires Linked() && m < p < |nodes| && mover == nodes[p] && unmoved == nodes[m]
      requires lastMoved == if m == 0 then null else nodes[m - 1]
      modifies this`head, cells`next
      ensures head == if m == 0 then mover else old(head)
      ensures forall i | 0 <= i < |nodes| :: nodes[i].next == Rewired(nodes, m, p, i)
    {
      var afterMover := mover.next;
      var beforeMover := unmoved;
      ghost var j := m;
      while beforeMover.next != mover
        invariant m <= j < p && beforeMover == nodes[j]
        decreases p - j
        modifies {}
      {
        assert After(nodes, j) == nodes[j + 1];
        beforeMover := beforeMover.next;
        j := j + 1;
      }
      assert j + 1 == p;
      beforeMover.next := afterMover;
      mover.next := unmoved;
      if lastMoved == null {
        head := mover;
      } else {
        lastMoved.next := mover;
      }
    }
  }

  // ---------------------------------------------------------------- the search

  /** The list half way through a full search that has looked at the first k
      elements: moved ones, hits since, misses since, unseen ones. */
  ghost function HalfWay(nodes: seq<Elt>, m: nat, k: nat, name: string, readable: string -> bool): (r: seq<Elt>)
    requires m <= k <= |nodes|
  {
    nodes[..m] + Pick(nodes[m..k], name, readable, true) + Pick(nodes[m..k], name, readable, false) + nodes[k..]
  }

  lemma {:induction false} PickPartitions(nodes: seq<Elt>, name: string, readable: string -> bool)
    ensures |Pick(nodes, name, readable, true)| + |Pick(nodes, name, readable, false)| == |nodes|
    decreases |nodes|
  {
    if nodes != [] {
      PickPartitions(nodes[..|nodes| - 1], name, readable);
    }
  }

  lemma JoinHit<T>(ns: seq<T>, m: nat, k: nat, h: seq<T>, b: seq<T>)
    requires m <= k < |ns| && |h| + |b| == k - m
    ensures var now := ns[..m] + h + b + ns[k..];
            |now| == |ns| && Floated(now, m + |h|, k) == ns[..m] + (h + [ns[k]]) + b + ns[k + 1..]
  {
    var now := ns[..m] + h + b + ns[k..];
    var r := ns[..m] + (h + [ns[k]]) + b + ns[k + 1..];
    assert |r| == |ns|;
    forall j | 0 <= j < |ns|
      ensures Floated(now, m + |h|, k)[j] == r[j]
    {
    }
  }

  lemma JoinMiss<T>(ns: seq<T>, m: nat, k: nat, h: seq<T>, b: seq<T>)
    requires m <= k < |ns|
    ensures ns[..m] + h + (b + [ns[k]]) + ns[k + 1..] == ns[..m] + h + b + ns[k..]
  {
    assert ns[k..] == [ns[k]] + ns[k + 1..];
  }

  lemma PickNext(nodes: seq<Elt>, m: nat, k: nat, name: string, readable: string -> bool, want: bool)
    requires m <= k < |nodes|
    ensures Pick(nodes[m..k + 1], name, readable, want)
         == Pick(nodes[m..k], name, readable, want) + if readable(nodes[k].str + name) == want then [nodes[k]] else []
  {
    var s := nodes[m..k + 1];
    assert s[|s| - 1] == nodes[k];
    assert s[..|s| - 1] == nodes[m..k];
  }

  /** A miss stays where it is. */
  lemma MissStays(nodes: seq<Elt>, m: nat, k: nat, name: string, readable: string -> bool)
    requires m <= k < |nodes| && !readable(nodes[k].str + name)
    ensures HalfWay(nodes, m, k + 1, name, readable) == HalfWay(nodes, m, k, name, readable)
    ensures Pick(nodes[m..k + 1], name, readable, true) == Pick(nodes[m..k], name, readable, true)
  {
    hide Pick;
    PickNext(nodes, m, k, name, readable, true);
    PickNext(nodes, m, k, name, readable, false);
    var hits, misses := Pick(nodes[m..k], name, readable, true), Pick(nodes[m..k], name, readable, false);
    assert hits + [] == hits;
    JoinMiss(nodes, m, k, hits, misses);
  }

  /** A hit floats to the end of the moved ones. */
  lemma HitFloats(nodes: seq<Elt>, m: nat, k: nat, name: string, readable: string -> bool)
    requires m <= k < |nodes| && readable(nodes[k].str + name)
    ensures var hits := Pick(nodes[m..k], name, readable, true);
            && |HalfWay(nodes, m, k, name, readable)| == |nodes| && m + |hits| <= k
            && HalfWay(nodes, m, k + 1, name, readable) == Floated(HalfWay(nodes, m, k, name, readable), m + |hits|, k)
    ensures |Pick(nodes[m..k + 1], name, readable, true)| == |Pick(nodes[m..k], name, readable, true)| + 1
  {
    hide Pick;
    PickNext(nodes, m, k, name, readable, true);
    PickNext(nodes, m, k, name, readable, false);
    PickPartitions(nodes[m..k], name, readable);
    var hits, misses := Pick(nodes[m..k], name, readable, true), Pick(nodes[m..k], name, readable, false);
    assert misses + [] == misses;
    JoinHit(nodes, m, k, hits, misses);
  }

  /** Element k is still where it was. */
  lemma UnseenStay(nodes: seq<Elt>, m: nat, k: nat, name: string, readable: string -> bool)
    requires m <= k <= |nodes|
    ensures var now := HalfWay(nodes, m, k, name, readable);
            && |now| == |nodes| && m + |Pick(nodes[m..k], name, readable, true)| <= k
            && now[..m] == nodes[..m] && (k < |nodes| ==> now[k] == nodes[k])
  {
    PickPartitions(nodes[m..k], name, readable);
  }

  /** Elements between the hits and the unseen ones are misses. */
  lemma BetweenAreMisses(nodes: seq<Elt>, m: nat, k: nat, name: string, readable: string -> bool, i: nat)
    requires m <= k <= |nodes| && m + |Pick(nodes[m..k], name, readable, true)| <= i < k
    ensures var now := HalfWay(nodes, m, k, name, readable);
            |now| == |nodes| && !readable(now[i].str + name)
  {
    hide Pick;
    PickPartitions(nodes[m..k], name, readable);
    var hits, misses := Pick(nodes[m..k], name, readable, true), Pick(nodes[m..k], name, readable, false);
    var now := HalfWay(nodes, m, k, name, readable);
    assert now[i] == misses[i - m - |hits|];
    assert misses[i - m - |hits|] in misses;
  }

  /** The first hit of a longer search is the first hit. */
  lemma {:induction false} HitsPrefix(dirs: seq<string>, k: nat, name: string, readable: string -> bool)
    requires k <= |dirs|
    ensures Hits(dirs[..k], name, readable) <= Hits(dirs, name, readable)
    decreases |dirs|
  {
    if k < |dirs| {
      assert dirs[..|dirs| - 1][..k] == dirs[..k];
      HitsPrefix(dirs[..|dirs| - 1], k, name, readable);
    } else {
      assert dirs[..k] == dirs;
    }
  }

  lemma HitsGrow(nodes: seq<Elt>, k: nat, name: string, readable: string -> bool)
    requires k < |nodes|
    ensures Hits(Strs(nodes[..k + 1]), name, readable)
         == Hits(Strs(nodes[..k]), name, readable) + if readable(nodes[k].str + name) then [nodes[k].str + name] else []
  {
    assert Strs(nodes[..k + 1])[..k] == Strs(nodes[..k]);
  }

  lemma {:induction false} PickIsChosen(nodes: seq<Elt>, name: string, readable: string -> bool, want: bool)
    ensures Strs(Pick(nodes, name, readable, want)) == Chosen(Strs(nodes), name, readable, want)
    decreases |nodes|
  {
    if nodes != [] {
      var front, last := nodes[..|nodes| - 1], nodes[|nodes| - 1];
      PickIsChosen(front, name, readable, want);
      assert nodes == front + [last];
      StrsConcat(front, [last]);
      StrsConcat(Pick(front, name, readable, want), [last]);
    }
  }

  lemma StrsConcat(a: seq<Elt>, b: seq<Elt>)
    ensures Strs(a + b) == Strs(a) + Strs(b)
    ensures Strs(a + b)[..|a|] == Strs(a) && Strs(a + b)[|a|..] == Strs(b)
  {
  }

  /** After the last element, the list has the order promised. */
  lemma WholeWay(nodes: seq<Elt>, m: nat, name: string, readable: string -> bool)
    requires m <= |nodes|
    ensures Strs(HalfWay(nodes, m, |nodes|, name, readable)) == Reordered(Strs(nodes), m, name, readable)
    ensures |Pick(nodes[m..], name, readable, true)| == |Chosen(Strs(nodes)[m..], name, readable, true)|
  {
    hide Pick, Chosen, Strs;
    assert nodes[m..|nodes|] == nodes[m..];
    StrsConcat(nodes[..m], nodes[m..]);
    assert nodes == nodes[..m] + nodes[m..];
    PickIsChosen(nodes[m..], name, readable, true);
    PickIsChosen(nodes[m..], name, readable, false);
    var hits, misses := Pick(nodes[m..], name, readable, true), Pick(nodes[m..], name, readable, false);
    StrsConcat(nodes[..m] + hits, misses);
    StrsConcat(nodes[..m], hits);
    assert nodes[..m] + hits + misses + nodes[|nodes|..] == nodes[..m] + hits + misses;
  }

  /** What is known while dir_list_search stands at position i of the list
      `now`, whose first `moved` elements are moved, having looked at the first
      k elements of the list `nodes` it was given. */
  ghost predicate Walking(now: seq<Elt>, moved: nat, nodes: seq<Elt>, m: nat, i: nat, k: nat,
                          name: string, readable: string -> bool, ret: seq<string>)
  {
    && m <= k <= |nodes| && i <= k
    && now == HalfWay(nodes, m, k, name, readable)
    && moved == m + |Pick(nodes[m..k], name, readable, true)|
    && (if i < m then k == m else moved <= i)
    && ret == Hits(Strs(nodes[..if i < m then i else k]), name, readable)
  }

  /** The first directory where the file is, or the number of directories. */
  function FirstHit(dirs: seq<string>, name: string, readable: string -> bool): (f: nat)
    ensures f <= |dirs|
    ensures f < |dirs| ==> readable(dirs[f] + name)
    ensures forall i | 0 <= i < f :: !readable(dirs[i] + name)
  {
    if dirs == [] || readable(dirs[0] + name) then 0 else 1 + FirstHit(dirs[1..], name, readable)
  }

  lemma {:induction false} NoHits(dirs: seq<string>, name: string, readable: string -> bool)
    ensures Hits(dirs, name, readable) == [] <==> forall i | 0 <= i < |dirs| :: !readable(dirs[i] + name)
    decreases |dirs|
  {
    if dirs != [] {
      var front := dirs[..|dirs| - 1];
      NoHits(front, name, readable);
      assert forall i | 0 <= i < |front| :: dirs[i] == front[i];
    }
  }

  lemma {:induction false} PickNone(nodes: seq<Elt>, name: string, readable: string -> bool)
    requires forall i | 0 <= i < |nodes| :: !readable(nodes[i].str + name)
    ensures Pick(nodes, name, readable, true) == [] && Pick(nodes, name, readable, false) == nodes
    decreases |nodes|
  {
    if nodes != [] {
      var front, last := nodes[..|nodes| - 1], nodes[|nodes| - 1];
      assert nodes == front + [last] && !readable(last.str + name);
      PickNone(front, name, readable);
    }
  }

  /** As long as nothing was found, nothing was relinked. */
  lemma NothingYet(now: seq<Elt>, moved: nat, nodes: seq<Elt>, m: nat, i: nat, k: nat,
                   name: string, readable: string -> bool)
    requires Walking(now, moved, nodes, m, i, k, name, readable, [])
    ensures now == nodes && moved == m
    ensures forall j | 0 <= j < |nodes| && j < i :: !readable(nodes[j].str + name)
  {
    hide Pick, Hits;
    var seen := if i < m then i else k;
    NoHits(Strs(nodes[..seen]), name, readable);
    assert forall j | 0 <= j < seen :: nodes[j].str == Strs(nodes[..seen])[j];
    PickNone(nodes[m..k], name, readable);
    assert nodes == nodes[..m] + [] + nodes[m..k] + nodes[k..];
  }

  lemma StrsFloated(nodes: seq<Elt>, m: nat, p: nat)
    requires m <= p < |nodes|
    ensures Strs(Floated(nodes, m, p)) == Floated(Strs(nodes), m, p)
  {
  }

  /** The order a search for one file leaves: the directory of the first hit
      before the unmoved ones, unless it was moved already. */
  function FirstFloated(dirs: seq<string>, m: nat, name: string, readable: string -> bool): (r: seq<string>)
    requires m <= |dirs|
  {
    var f := FirstHit(dirs, name, readable);
    if m <= f < |dirs| then Floated(dirs, m, f) else dirs
  }

  /** What a search promises: the files found, the new order of the list, and
      how many elements are moved now. */
  ghost predicate Searched(before: seq<string>, m: nat, name: string, readable: string -> bool, searchAll: bool,
                           ret: seq<string>, after: seq<string>, moved: nat)
  {
    && m <= |before|
    && var hits := Hits(before, name, readable);
       if searchAll then
         && ret == hits && after == Reordered(before, m, name, readable)
         && moved == m + |Chosen(before[m..], name, readable, true)|
       else
         && (ret == if hits == [] then [] else [hits[0]])
         && after == FirstFloated(before, m, name, readable)
         && (moved == if m <= FirstHit(before, name, readable) < |before| then m + 1 else m)
  }

  /** The first hit ends a search for one file. */
  lemma FirstHitSearched(nodes: seq<Elt>, m: nat, i: nat, k: nat, name: string, readable: string -> bool)
    requires m <= |nodes| && Walking(nodes, m, nodes, m, i, k, name, readable, [])
    requires i < |nodes| && readable(nodes[i].str + name)
    ensures Searched(Strs(nodes), m, name, readable, false, [nodes[i].str + name],
                     Strs(if i < m then nodes else Floated(nodes, m, i)), if i < m then m else m + 1)
  {
    hide Pick, Hits, Floated, HalfWay;
    HitStep(nodes, m, nodes, m, i, k, name, readable, []);
    NothingYet(nodes, m, nodes, m, i, k, name, readable);
    assert forall j | 0 <= j < |nodes| :: Strs(nodes)[j] == nodes[j].str;
    assert FirstHit(Strs(nodes), name, readable) == i;
    if i >= m {
      StrsFloated(nodes, m, i);
    }
  }

  /** At the end of the list everything has been looked at. */
  lemma WalkSearched(now: seq<Elt>, moved: nat, nodes: seq<Elt>, m: nat, i: nat, k: nat,
                     name: string, readable: string -> bool, searchAll: bool, ret: seq<string>)
    requires Walking(now, moved, nodes, m, i, k, name, readable, ret) && i >= |now| == |nodes|
    requires !searchAll ==> ret == []
    ensures Searched(Strs(nodes), m, name, readable, searchAll, ret, Strs(now), moved)
  {
    if searchAll {
      WalkEnds(now, moved, nodes, m, i, k, name, readable, ret);
    } else {
      NothingFound(now, moved, nodes, m, i, k, name, readable);
    }
  }

  lemma NothingFound(now: seq<Elt>, moved: nat, nodes: seq<Elt>, m: nat, i: nat, k: nat,
                     name: string, readable: string -> bool)
    requires Walking(now, moved, nodes, m, i, k, name, readable, []) && i >= |nodes|
    ensures Searched(Strs(nodes), m, name, readable, false, [], Strs(now), moved)
  {
    NothingYet(now, moved, nodes, m, i, k, name, readable);
    NoHits(Strs(nodes), name, readable);
    assert forall j | 0 <= j < |nodes| :: Strs(nodes)[j] == nodes[j].str;
    assert FirstHit(Strs(nodes), name, readable) == |nodes|;
  }

  lemma WalkStarts(nodes: seq<Elt>, m: nat, name: string, readable: string -> bool)
    requires m <= |nodes|
    ensures Walking(nodes, m, nodes, m, 0, m, name, readable, [])
  {
    assert HalfWay(nodes, m, m, name, readable) == nodes;
  }

  /** Where the walk is after a hit: past it, or back at the first miss. */
  lemma HitStep(now: seq<Elt>, moved: nat, nodes: seq<Elt>, m: nat, i: nat, k: nat,
                name: string, readable: string -> bool, ret: seq<string>)
    requires Walking(now, moved, nodes, m, i, k, name, readable, ret)
    requires i < |now| && readable(now[i].str + name)
    ensures var ret' := ret + [now[i].str + name];
            if i < m then i < moved && Walking(now, moved, nodes, m, i + 1, k, name, readable, ret')
            else i == k < |nodes| && moved <= i
                 && Walking(Floated(now, moved, i), moved + 1, nodes, m, moved + 1, k + 1, name, readable, ret')
    ensures ret == [] ==> var hits := Hits(Strs(nodes), name, readable); |hits| > 0 && hits[0] == now[i].str + name
  {
    hide Pick, Hits;
    UnseenStay(nodes, m, k, name, readable);
    if m <= i < k {
      BetweenAreMisses(nodes, m, k, name, readable, i);
    }
    assert i < m || i == k;
    assert now[i] == nodes[i];
    HitsGrow(nodes, i, name, readable);
    if i >= m {
      HitFloats(nodes, m, k, name, readable);
    }
    assert Strs(nodes[..i + 1]) == Strs(nodes)[..i + 1];
    HitsPrefix(Strs(nodes), i + 1, name, readable);
  }

  lemma MissStep(now: seq<Elt>, moved: nat, nodes: seq<Elt>, m: nat, i: nat, k: nat,
                 name: string, readable: string -> bool, ret: seq<string>)
    requires Walking(now, moved, nodes, m, i, k, name, readable, ret)
    requires i < |now| && !readable(now[i].str + name)
    ensures Walking(now, moved, nodes, m, i + 1, if i == k then k + 1 else k, name, readable, ret)
    ensures i == k ==> k < |nodes|
  {
    hide Pick, Hits;
    UnseenStay(nodes, m, k, name, readable);
    if i < m || i == k {
      assert now[i] == nodes[i];
      HitsGrow(nodes, i, name, readable);
    }
    if i == k {
      MissStays(nodes, m, k, name, readable);
    }
  }

  /** At the end of the list everything has been looked at. */
  lemma WalkEnds(now: seq<Elt>, moved: nat, nodes: seq<Elt>, m: nat, i: nat, k: nat,
                 name: string, readable: string -> bool, ret: seq<string>)
    requires Walking(now, moved, nodes, m, i, k, name, readable, ret) && i >= |now|
    ensures ret == Hits(Strs(nodes), name, readable)
    ensures Strs(now) == Reordered(Strs(nodes), m, name, readable)
    ensures moved == m + |Chosen(Strs(nodes)[m..], name, readable, true)|
  {
    hide Pick, Hits, Chosen;
    UnseenStay(nodes, m, k, name, readable);
    WholeWay(nodes, m, name, readable);
    assert nodes[..|nodes|] == nodes && nodes[m..|nodes|] == nodes[m..];
  }

  /** Where the walk stands after a miss. */
  lemma PassMiss(dirs: LList, elt: Elt, name: string, readable: string -> bool, nodes: seq<Elt>, m: nat,
                 i: nat, k: nat, ret: seq<string>) returns (i': nat, k': nat)
    requires dirs.Valid() && i < |dirs.nodes| == |nodes| && elt == dirs.nodes[i] && !readable(elt.str + name)
    requires Walking(dirs.nodes, dirs.Moved(), nodes, m, i, k, name, readable, ret)
    ensures Walking(dirs.nodes, dirs.Moved(), nodes, m, i', k', name, readable, ret)
    ensures k < k' <= |nodes| || (k' == k && i' == i + 1)
    ensures elt.next == CellAt(dirs.nodes, i')
  {
    hide Walking, LList.Valid, LList.Linked, LList.CountMoved;
    MissStep(dirs.nodes, dirs.Moved(), nodes, m, i, k, name, readable, ret);
    dirs.Links();
    i', k' := i + 1, if i == k then k + 1 else k;
  }

  /** Where the walk stands after a hit, and that a first hit is what one search finds. */
  lemma HitLeads(now: seq<Elt>, moved: nat, nodes: seq<Elt>, m: nat, i: nat, k: nat,
                 name: string, readable: string -> bool, ret: seq<string>)
    requires Walking(now, moved, nodes, m, i, k, name, readable, ret)
    requires i < |now| == |nodes| && readable(now[i].str + name)
    ensures i >= m ==> i == k && moved <= i
    ensures i < m ==> i < moved
    ensures var (now', moved', i', k') :=
              if i < m then (now, moved, i + 1, k) else (Floated(now, moved, i), moved + 1, moved + 1, k + 1);
            && Walking(now', moved', nodes, m, i', k', name, readable, ret + [now[i].str + name])
            && k' <= |nodes|
            && (ret == [] ==>
                  Searched(Strs(nodes), m, name, readable, false, [now[i].str + name], Strs(now'), moved'))
  {
    hide Searched, Floated, Strs, HalfWay, Pick, Hits;
    HitStep(now, moved, nodes, m, i, k, name, readable, ret);
    if ret == [] {
      NothingYet(now, moved, nodes, m, i, k, name, readable);
      FirstHitSearched(nodes, m, i, k, name, readable);
    }
  }

  /** Floating a hit, at position i, and where the walk stands then. */
  method FloatHit(dirs: LList, elt: Elt, name: string, readable: string -> bool, ghost nodes: seq<Elt>, ghost m: nat,
                  ghost i: nat, ghost k: nat, ghost ret: seq<string>) returns (ghost i': nat, ghost k': nat)
    requires dirs.Valid() && i < |dirs.nodes| == |nodes| && elt == dirs.nodes[i] && readable(elt.str + name)
    requires Walking(dirs.nodes, dirs.Moved(), nodes, m, i, k, name, readable, ret)
    modifies dirs, dirs.cells
    ensures dirs.Valid() && dirs.cells == old(dirs.cells) && |dirs.nodes| == |nodes|
    ensures Walking(dirs.nodes, dirs.Moved(), nodes, m, i', k', name, readable, ret + [elt.str + name])
    ensures k < k' <= |nodes| || (k' == k && i' == i + 1)
    ensures elt.next == CellAt(dirs.nodes, i')
    ensures ret == [] ==>
              Searched(Strs(nodes), m, name, readable, false, [elt.str + name], Strs(dirs.nodes), dirs.Moved())
  {
    hide Walking, Searched, Floated, Strs, LList.Valid, LList.Linked, LList.CountMoved;
    HitLeads(dirs.nodes, dirs.Moved(), nodes, m, i, k, name, readable, ret);
    ghost var at := if i < m then i else dirs.Moved();
    dirs.Float(elt, i);
    i', k' := at + 1, if i < m then k else k + 1;
    dirs.Links();
    assert dirs.nodes[at] == elt;
  }

  /** dir_list_search.  `elt` is followed through the list while Float relinks
      it; a hit therefore sends the walk back over earlier misses.  Without
      `searchAll` the first hit ends the search. */
  method DirListSearch(dirs: LList, name: string, readable: string -> bool, searchAll: bool) returns (ret: seq<string>)
    requires dirs.Valid()
    modifies dirs, dirs.cells
    ensures dirs.Valid() && dirs.cells == old(dirs.cells)
    ensures Searched(Strs(old(dirs.nodes)), old(dirs.Moved()), name, readable, searchAll, ret,
                     Strs(dirs.nodes), dirs.Moved())
  {
    hide Walking, Searched, Floated, Strs, Hits, LList.Valid, LList.Linked, LList.CountMoved, LList.Moved;
    ret := [];
    ghost var nodes, m := dirs.nodes, dirs.Moved();
    ghost var i: nat, k: nat := 0, m;
    WalkStarts(nodes, m, name, readable);
    dirs.Links();
    var elt := dirs.head;
    while elt != null
      invariant dirs.Valid() && dirs.cells == old(dirs.cells) && |dirs.nodes| == |nodes|
      invariant Walking(dirs.nodes, dirs.Moved(), nodes, m, i, k, name, readable, ret)
      invariant elt == CellAt(dirs.nodes, i)
      invariant !searchAll ==> ret == []
      decreases |nodes| - k, |nodes| - i
    {
      var potential := elt.str + name;
      if readable(potential) {
        i, k := FloatHit(dirs, elt, name, readable, nodes, m, i, k, ret);
        ret := ret + [potential];
        if !searchAll {
          assert ret == [potential];
          return;
        }
      } else {
        i, k := PassMiss(dirs, elt, name, readable, nodes, m, i, k, ret);
      }
      elt := elt.next;
    }
    WalkSearched(dirs.nodes, dirs.Moved(), nodes, m, i, k, name, readable, searchAll, ret);
  }

  // ------------------------------------------- what reordering means for later

  lemma {:induction false} HitsAppend(a: seq<string>, b: seq<string>, name: string, readable: string -> bool)
    ensures Hits(a + b, name, readable) == Hits(a, name, readable) + Hits(b, name, readable)
    decreases |b|
  {
    if b == [] {
      assert a + b == a;
    } else {
      assert (a + b)[..|a + b| - 1] == a + b[..|b| - 1];
      HitsAppend(a, b[..|b| - 1], name, readable);
    }
  }

  lemma HitsOne(dirs: seq<string>, d: string, name: string, readable: string -> bool)
    ensures Hits(dirs + [d], name, readable)
         == Hits(dirs, name, readable) + if readable(d + name) then [d + name] else []
  {
    assert (dirs + [d])[..|dirs|] == dirs;
  }

  lemma {:induction false} HitsOfChosen(dirs: seq<string>, name: string, readable: string -> bool)
    ensures Hits(Chosen(dirs, name, readable, true), name, readable) == Hits(dirs, name, readable)
    ensures Hits(Chosen(dirs, name, readable, false), name, readable) == []
    decreases |dirs|
  {
    if dirs != [] {
      var front, d := dirs[..|dirs| - 1], dirs[|dirs| - 1];
      HitsOfChosen(front, name, readable);
      HitsOne(Chosen(front, name, readable, true), d, name, readable);
      HitsOne(Chosen(front, name, readable, false), d, name, readable);
      assert Chosen(front, name, readable, true) + [] == Chosen(front, name, readable, true);
      assert Chosen(front, name, readable, false) + [] == Chosen(front, name, readable, false);
    }
  }

  lemma {:induction false} ChosenPartitions(dirs: seq<string>, name: string, readable: string -> bool)
    ensures multiset(Chosen(dirs, name, readable, true)) + multiset(Chosen(dirs, name, readable, false))
      == multiset(dirs)
    decreases |dirs|
  {
    if dirs != [] {
      ChosenPartitions(dirs[..|dirs| - 1], name, readable);
      assert dirs == dirs[..|dirs| - 1] + [dirs[|dirs| - 1]];
    }
  }

  /** A search neither loses nor duplicates a directory, and searching for the
      same file again finds the same files in the same order. */
  lemma SearchingAgain(dirs: seq<string>, m: nat, name: string, readable: string -> bool)
    requires m <= |dirs|
    ensures Hits(Reordered(dirs, m, name, readable), name, readable) == Hits(dirs, name, readable)
    ensures multiset(Reordered(dirs, m, name, readable)) == multiset(dirs)
  {
    hide Hits, Chosen;
    var a, b := dirs[..m], dirs[m..];
    var t, f := Chosen(b, name, readable, true), Chosen(b, name, readable, false);
    assert dirs == a + b && Reordered(dirs, m, name, readable) == a + (t + f);
    HitsOfChosen(b, name, readable);
    HitsAppend(a, b, name, readable);
    HitsAppend(a, t + f, name, readable);
    HitsAppend(t, f, name, readable);
    ChosenPartitions(b, name, readable);
  }

  /** The same after a search for one file, which moves the directory it found. */
  lemma SearchingAgainForOne(dirs: seq<string>, m: nat, name: string, readable: string -> bool)
    requires m <= |dirs|
    ensures var after := FirstFloated(dirs, m, name, readable);
      && Hits(after, name, readable) == Hits(dirs, name, readable)
      && FirstDir(after, name, readable) == FirstDir(dirs, name, readable)
      && multiset(after) == multiset(dirs)
  {
    hide Hits, FirstDir, FirstHit, Floated;
    var f := FirstHit(dirs, name, readable);
    if m <= f < |dirs| {
      var a, b, d, c := dirs[..m], dirs[m..f], dirs[f], dirs[f + 1..];
      FloatedSplit(dirs, m, f);
      HitsSplit(a, b, d, c, name, readable);
      HitsSplit(a, [], d, b + c, name, readable);
      HitsAppend(b, c, name, readable);
      NoHits(b, name, readable);
      FirstDirSplit(a, b, d, c, name, readable);
      FirstDirSplit(a, [], d, b + c, name, readable);
      NoFirstDir(a, name, readable);
      NoFirstDir(b, name, readable);
      NoFirstDir([], name, readable);
      assert a + [] + [d] + (b + c) == a + [d] + b + c;
      NoHits([], name, readable);
    }
  }

  lemma FloatedSplit(dirs: seq<string>, m: nat, f: nat)
    requires m <= f < |dirs|
    ensures dirs == dirs[..m] + dirs[m..f] + [dirs[f]] + dirs[f + 1..]
    ensures Floated(dirs, m, f) == dirs[..m] + [dirs[f]] + dirs[m..f] + dirs[f + 1..]
    ensures multiset(Floated(dirs, m, f)) == multiset(dirs)
  {
    Parts(dirs, m, f);
    FloatedParts(dirs, m, f);
    var a, b, d, c := dirs[..m], dirs[m..f], [dirs[f]], dirs[f + 1..];
    assert multiset(a + b + d + c) == multiset(a) + multiset(b) + multiset(d) + multiset(c);
    assert multiset(a + d + b + c) == multiset(a) + multiset(d) + multiset(b) + multiset(c);
  }

  lemma Parts(dirs: seq<string>, m: nat, f: nat)
    requires m <= f < |dirs|
    ensures dirs == dirs[..m] + dirs[m..f] + [dirs[f]] + dirs[f + 1..]
  {
  }

  lemma FloatedParts(dirs: seq<string>, m: nat, f: nat)
    requires m <= f < |dirs|
    ensures Floated(dirs, m, f) == dirs[..m] + [dirs[f]] + dirs[m..f] + dirs[f + 1..]
  {
    hide Floated;
  }

  lemma HitsSplit(a: seq<string>, b: seq<string>, d: string, c: seq<string>, name: string, readable: string -> bool)
    ensures Hits(a + b + [d] + c, name, readable)
      == Hits(a, name, readable) + Hits(b, name, readable) + Hits([d], name, readable) + Hits(c, name, readable)
  {
    HitsAppend(a + b + [d], c, name, readable);
    HitsAppend(a + b, [d], name, readable);
    HitsAppend(a, b, name, readable);
  }

  lemma FirstDirSplit(a: seq<string>, b: seq<string>, d: string, c: seq<string>, name: string, readable: string -> bool)
    ensures var fa, fb := FirstDir(a, name, readable), FirstDir(b, name, readable);
      FirstDir(a + b + [d] + c, name, readable)
        == if fa.Some? then fa else if fb.Some? then fb
           else if readable(d + name) then Some(d) else FirstDir(c, name, readable)
  {
    FirstDirAppend(a + b + [d], c, name, readable);
    FirstDirAppend(a + b, [d], name, readable);
    FirstDirAppend(a, b, name, readable);
  }

  lemma {:induction false} NoFirstDir(dirs: seq<string>, name: string, readable: string -> bool)
    ensures FirstDir(dirs, name, readable) == None <==> forall i | 0 <= i < |dirs| :: !readable(dirs[i] + name)
    ensures FirstDir(dirs, name, readable) == None ==> forall d | d in dirs :: !readable(d + name)
    decreases |dirs|
  {
    if dirs != [] {
      NoFirstDir(dirs[1..], name, readable);
      assert forall i | 1 <= i < |dirs| :: dirs[i] == dirs[1..][i - 1];
      assert forall i | 0 <= i < |dirs[1..]| :: dirs[1..][i] == dirs[i + 1];
    }
  }

  datatype Maybe = None | Some(dir: string)

  /** The directory in which a search for `name` finds it first. */
  function FirstDir(dirs: seq<string>, name: string, readable: string -> bool): Maybe {
    if dirs == [] then None
    else if readable(dirs[0] + name) then Some(dirs[0])
    else FirstDir(dirs[1..], name, readable)
  }

  lemma {:induction false} FirstDirAppend(a: seq<string>, b: seq<string>, name: string, readable: string -> bool)
    ensures FirstDir(a + b, name, readable)
         == if FirstDir(a, name, readable).Some? then FirstDir(a, name, readable) else FirstDir(b, name, readable)
    decreases |a|
  {
    if a == [] {
      assert a + b == b;
    } else {
      assert (a + b)[1..] == a[1..] + b;
      FirstDirAppend(a[1..], b, name, readable);
    }
  }

  lemma {:induction false} FirstDirOfMissed(dirs: seq<string>, name: string, other: string, readable: string -> bool)
    requires FirstDir(Chosen(dirs, name, readable, true), other, readable) == None
    ensures FirstDir(Chosen(dirs, name, readable, false), other, readable) == FirstDir(dirs, other, readable)
    decreases |dirs|
  {
    if dirs != [] {
      var front, d := dirs[..|dirs| - 1], dirs[|dirs| - 1];
      var t, f := Chosen(front, name, readable, true), Chosen(front, name, readable, false);
      assert dirs == front + [d];
      FirstDirAppend(front, [d], other, readable);
      FirstDirAppend(t, if readable(d + name) then [d] else [], other, readable);
      FirstDirAppend(f, if readable(d + name) then [] else [d], other, readable);
      FirstDirOfMissed(front, name, other, readable);
    }
  }

  /** The first directory with the other file is the first of those chosen just when
      it is chosen itself. */
  lemma {:induction false} FirstOfChosen(dirs: seq<string>, name: string, other: string, readable: string -> bool)
    requires FirstDir(Chosen(dirs, name, readable, true), other, readable) != None
    ensures FirstDir(dirs, other, readable) != None
    ensures FirstDir(Chosen(dirs, name, readable, true), other, readable) == FirstDir(dirs, other, readable)
      <==> readable(FirstDir(dirs, other, readable).dir + name)
    decreases |dirs|
  {
    var front, d := dirs[..|dirs| - 1], dirs[|dirs| - 1];
    var t := Chosen(front, name, readable, true);
    assert dirs == front + [d];
    FirstDirAppend(front, [d], other, readable);
    FirstDirAppend(t, if readable(d + name) then [d] else [], other, readable);
    FirstDirIsChosen(t, other, readable);
    ChosenHas(front, name, readable);
    if FirstDir(t, other, readable) != None {
      FirstOfChosen(front, name, other, readable);
    } else {
      FirstDirIsChosen(front, other, readable);
      if FirstDir(front, other, readable) != None {
        OtherwiseMissed(front, name, other, readable);
      }
    }
  }

  lemma {:induction false} FirstDirIsChosen(dirs: seq<string>, name: string, readable: string -> bool)
    ensures var d := FirstDir(dirs, name, readable); d != None ==> d.dir in dirs && readable(d.dir + name)
    decreases |dirs|
  {
    if dirs != [] {
      FirstDirIsChosen(dirs[1..], name, readable);
    }
  }

  lemma {:induction false} ChosenHas(dirs: seq<string>, name: string, readable: string -> bool)
    ensures forall d :: d in Chosen(dirs, name, readable, true) <==> d in dirs && readable(d + name)
    decreases |dirs|
  {
    if dirs != [] {
      ChosenHas(dirs[..|dirs| - 1], name, readable);
      assert dirs == dirs[..|dirs| - 1] + [dirs[|dirs| - 1]];
    }
  }

  lemma OtherwiseMissed(dirs: seq<string>, name: string, other: string, readable: string -> bool)
    requires FirstDir(Chosen(dirs, name, readable, true), other, readable) == None
      && FirstDir(dirs, other, readable) != None
    ensures !readable(FirstDir(dirs, other, readable).dir + name)
  {
    hide FirstDir, Chosen;
    var d := FirstDir(dirs, other, readable).dir;
    FirstDirIsChosen(dirs, other, readable);
    ChosenHas(dirs, name, readable);
    NoFirstDir(Chosen(dirs, name, readable, true), other, readable);
  }

  /** Floating the directories of one file can change which directory another
      file is found in.  It does not exactly if a moved directory has the other
      file, or no unmoved one has both, or the first unmoved one that has the other
      file has this one too. */
  lemma OtherSearchesUnchangedIff(dirs: seq<string>, m: nat, name: string, other: string, readable: string -> bool)
    requires m <= |dirs|
    ensures FirstDir(Reordered(dirs, m, name, readable), other, readable) == FirstDir(dirs, other, readable)
       <==> || FirstDir(dirs[..m], other, readable).Some?
            || (forall i | m <= i < |dirs| :: !readable(dirs[i] + name) || !readable(dirs[i] + other))
            || (var d := FirstDir(dirs[m..], other, readable); d.Some? && readable(d.dir + name))
  {
    hide FirstDir, Chosen, Reordered;
    var a, b := dirs[..m], dirs[m..];
    var t, f := Chosen(b, name, readable, true), Chosen(b, name, readable, false);
    assert dirs == a + b;
    ReorderedIs(dirs, m, name, readable);
    FirstDirAppend(a, b, other, readable);
    FirstDirAppend(a, t + f, other, readable);
    FirstDirAppend(t, f, other, readable);
    NoneHasBoth(dirs, m, name, other, readable);
    if FirstDir(t, other, readable) == None {
      FirstDirOfMissed(b, name, other, readable);
    } else {
      FirstOfChosen(b, name, other, readable);
    }
  }

  lemma ReorderedIs(dirs: seq<string>, m: nat, name: string, readable: string -> bool)
    requires m <= |dirs|
    ensures Reordered(dirs, m, name, readable)
      == dirs[..m] + (Chosen(dirs[m..], name, readable, true) + Chosen(dirs[m..], name, readable, false))
  {
  }

  lemma NoneHasBoth(dirs: seq<string>, m: nat, name: string, other: string, readable: string -> bool)
    requires m <= |dirs|
    ensures FirstDir(Chosen(dirs[m..], name, readable, true), other, readable) == None
      <==> forall i | m <= i < |dirs| :: !readable(dirs[i] + name) || !readable(dirs[i] + other)
  {
    hide FirstDir, Chosen;
    var t := Chosen(dirs[m..], name, readable, true);
    NoFirstDir(t, other, readable);
    ChosenHas(dirs[m..], name, readable);
    forall i | m <= i < |dirs|
      ensures dirs[i] in dirs[m..]
    {
      assert dirs[m..][i - m] == dirs[i];
    }
    if FirstDir(t, other, readable) == None {
      forall i | m <= i < |dirs|
        ensures !readable(dirs[i] + name) || !readable(dirs[i] + other)
      {
        assert readable(dirs[i] + name) ==> dirs[i] in t;
      }
    } else {
      var j :| 0 <= j < |t| && readable(t[j] + other);
      assert t[j] in t;
      var i :| 0 <= i < |dirs[m..]| && dirs[m..][i] == t[j];
      assert dirs[m + i] == t[j];
    }
  }

  /** The same after a search for one file: the directory it moved passes in front of
      the unmoved ones before it, and matters if it has the other file and a moved
      directory does not. */
  lemma OtherSearchesUnchangedByOneIff(dirs: seq<string>, m: nat, name: string, other: string, readable: string -> bool)
    requires m <= |dirs|
    ensures FirstDir(FirstFloated(dirs, m, name, readable), other, readable) == FirstDir(dirs, other, readable)
       <==> var f, g := FirstHit(dirs, name, readable), FirstHit(dirs, other, readable);
            !(m <= g < f < |dirs| && readable(dirs[f] + other))
  {
    hide FirstDir, FirstHit, Floated;
    var f, g := FirstHit(dirs, name, readable), FirstHit(dirs, other, readable);
    if m <= f < |dirs| {
      var a, b, d, c := dirs[..m], dirs[m..f], dirs[f], dirs[f + 1..];
      FloatedSplit(dirs, m, f);
      FirstDirSplit(a, b, d, c, other, readable);
      FirstDirSplit(a, [], d, b + c, other, readable);
      FirstDirAppend(b, c, other, readable);
      assert a + [] + [d] + (b + c) == a + [d] + b + c;
      NoFirstDir([], other, readable);
      NoFirstDir(a, other, readable);
      NoFirstDir(b, other, readable);
      FirstDirIsChosen(b, other, readable);
      assert g < |dirs| && g < m ==> a[g] == dirs[g];
      assert m <= g < f ==> b[g - m] == dirs[g];
      assert forall i | 0 <= i < |b| :: b[i] == dirs[m + i];
      assert FirstDir(b, other, readable).Some? ==> FirstDir(b, other, readable).dir != d;
    }
  }

  /** A search for x moves b/ before a/; y, which both have, was found in a/ before and
      is found in b/ now. */
  lemma OtherSearchChanges()
    ensures var readable := path => path in {"b/x", "a/y", "b/y"};
      var dirs := ["a/", "b/"];
      && FirstDir(dirs, "y", readable) == Some("a/")
      && FirstDir(Reordered(dirs, 0, "x", readable), "y", readable) == Some("b/")
      && FirstDir(FirstFloated(dirs, 0, "x", readable), "y", readable) == Some("b/")
  {
    var readable := path => path in {"b/x", "a/y", "b/y"};
    var dirs := ["a/", "b/"];
    assert "a/" + "x" == "a/x" && "a/x"[0] == 'a' && "b/x"[0] == 'b';
    assert "a/x"[2] == 'x' && "a/y"[2] == 'y' && "b/y"[2] == 'y';
    assert "a/" + "y" == "a/y" && "b/" + "x" == "b/x" && "b/" + "y" == "b/y";
    assert readable("a/y") && readable("b/x") && readable("b/y") && !readable("a/" + "x");
    assert dirs[..1] == ["a/"] && ["a/"][..0] == [] && dirs[0..] == dirs && dirs[1..] == ["b/"];
    assert Chosen(["a/"], "x", readable, true) == [] && Chosen(dirs, "x", readable, true) == ["b/"];
    assert Reordered(dirs, 0, "x", readable)[0] == "b/";
    assert FirstHit(["b/"], "x", readable) == 0 && FirstHit(dirs, "x", readable) == 1;
    assert FirstFloated(dirs, 0, "x", readable)[0] == dirs[FloatFrom(0, 1, 0)] == "b/";
  }
}
