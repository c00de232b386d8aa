/** Binding key sequences and looking them up: `rl_generic_bind` and
    `rl_function_of_keyseq` of libs/readline/bind.c, `rl_make_bare_keymap` of
    libs/readline/keymaps.c.  A keymap pointer is a place in the table of maps. */
module Keymap {
  import KeySyntax

  datatype Func = Null | LowercaseVersion | Named(name: string)

  datatype Slot = Fn(f: Func) | Macro(text: string) | Sub(to: nat)

  type Map = seq<Slot>
  const Size: nat := 256

  type Keys = seq<nat>

  /** What a fresh map holds: the capital letters stand for their small ones. */
  function Bare(k: nat): Slot {
    if 'A' as int <= k <= 'Z' as int then Fn(LowercaseVersion) else Fn(Null)
  }

  function BareMap(): (m: Map)
    ensures |m| == Size && forall k | 0 <= k < Size :: m[k] == Bare(k)
  {
    seq(Size, k => if k >= 0 then Bare(k) else Fn(Null))
  }

  predicate ValidKeys(keys: Keys) {
    forall i | 0 <= i < |keys| :: keys[i] < Size
  }

  /** Map pointers stay inside the table. */
  predicate Closed(maps: seq<Map>) {
    && (forall m | 0 <= m < |maps| :: |maps[m]| == Size)
    && forall m, k | 0 <= m < |maps| && 0 <= k < Size && maps[m][k].Sub? :: maps[m][k].to < |maps|
  }

  /** Where a map hangs: the map and the key that lead to it. */
  type Link = (nat, nat)

  /** The maps form a forest: a map is younger than the map it hangs from, and
      hangs from one place only. */
  predicate Forest(maps: seq<Map>, up: seq<Link>) {
    && |up| == |maps| && Closed(maps)
    && forall m, k | 0 <= m < |maps| && 0 <= k < Size && maps[m][k].Sub? ::
         var c := maps[m][k].to; m < c < |maps| && up[c] == (m, k)
  }

  // -------------------------------------------------------- binding and looking up

  /** The table when the map behind key k of m is wanted: a slot that holds no map
      gets a fresh one. */
  function Opened(maps: seq<Map>, m: nat, k: nat): seq<Map>
    requires m < |maps| && k < |maps[m]|
  {
    if maps[m][k].Sub? then maps else maps[m := maps[m][k := Sub(|maps|)]] + [BareMap()]
  }

  function OpenedUp(maps: seq<Map>, up: seq<Link>, m: nat, k: nat): seq<Link>
    requires m < |maps| && k < |maps[m]|
  {
    if maps[m][k].Sub? then up else up + [(m, k)]
  }

  function Bound(maps: seq<Map>, m: nat, keys: Keys, slot: Slot): (r: seq<Map>)
    requires Closed(maps) && m < |maps| && ValidKeys(keys) && keys != [] && !slot.Sub?
    ensures Closed(r) && |r| >= |maps|
    decreases |keys|
  {
    var k := keys[0];
    if |keys| == 1 then maps[m := maps[m][k := slot]]
    else
      var maps1: seq<Map> := Opened(maps, m, k);
      OpenedClosed(maps, m, k);
      Bound(maps1, maps1[m][k].to, keys[1..], slot)
  }

  lemma BoundAt(maps: seq<Map>, m: nat, keys: Keys, slot: Slot)
    requires Closed(maps) && m < |maps| && ValidKeys(keys) && keys != [] && !slot.Sub?
    requires var maps1: seq<Map> := Opened(maps, m, keys[0]);
      Closed(maps1) && maps1[m][keys[0]].Sub?
    ensures var k, maps1: seq<Map> := keys[0], Opened(maps, m, keys[0]);
      Bound(maps, m, keys, slot) ==
        if |keys| == 1 then maps[m := maps[m][k := slot]] else Bound(maps1, maps1[m][k].to, keys[1..], slot)
  {
  }

  lemma OpenedClosed(maps: seq<Map>, m: nat, k: nat)
    requires Closed(maps) && m < |maps| && k < Size
    ensures var maps1: seq<Map> := Opened(maps, m, k);
      Closed(maps1) && |maps1| >= |maps| && maps1[m][k].Sub? && maps1[m][k].to < |maps1|
  {
  }

  lemma OpenedForest(maps: seq<Map>, up: seq<Link>, m: nat, k: nat)
    requires Forest(maps, up) && m < |maps| && k < Size
    ensures Forest(Opened(maps, m, k), OpenedUp(maps, up, m, k)) && Opened(maps, m, k)[m][k].Sub?
  {
  }

  /** What `rl_function_of_keyseq` finds: the slot the keys lead to, or the first
      slot on the way that holds no map. */
  function Found(maps: seq<Map>, m: nat, keys: Keys): Slot
    requires Closed(maps) && m < |maps| && ValidKeys(keys) && keys != []
    decreases |keys|
  {
    var s := maps[m][keys[0]];
    if |keys| > 1 && s.Sub? then Found(maps, s.to, keys[1..]) else s
  }

  /** All the keys lead through maps. */
  predicate Open(maps: seq<Map>, m: nat, keys: Keys)
    requires Closed(maps) && m < |maps| && ValidKeys(keys)
    decreases |keys|
  {
    keys == [] || (maps[m][keys[0]].Sub? && Open(maps, maps[m][keys[0]].to, keys[1..]))
  }

  // ------------------------------------------------------------ subtrees are apart

  /** x hangs, directly or not, from c. */
  predicate Under(up: seq<Link>, c: nat, x: nat)
    requires x < |up|
    decreases x
  {
    x == c || (up[x].0 < x && Under(up, c, up[x].0))
  }

  lemma {:induction false} UnderIsYounger(up: seq<Link>, c: nat, x: nat)
    requires x < |up| && Under(up, c, x)
    ensures c <= x
    decreases x
  {
    if x != c {
      UnderIsYounger(up, c, up[x].0);
    }
  }

  lemma {:induction false} UnderTrans(up: seq<Link>, a: nat, b: nat, x: nat)
    requires b < |up| && x < |up| && Under(up, a, b) && Under(up, b, x)
    ensures Under(up, a, x)
    decreases x
  {
    if x != b {
      UnderTrans(up, a, b, up[x].0);
    }
  }

  /** Two maps that hang from different keys of one map share nothing. */
  lemma {:induction false} SiblingsApart(up: seq<Link>, m: nat, c: nat, d: nat, x: nat)
    requires c < |up| && d < |up| && x < |up| && m < c && m < d
    requires up[c].0 == m && up[d].0 == m && c != d
    ensures !(Under(up, c, x) && Under(up, d, x))
    decreases x
  {
    if Under(up, c, x) && Under(up, d, x) {
      UnderIsYounger(up, c, x);
      UnderIsYounger(up, d, x);
      if x == c || x == d {
        var other := if x == c then d else c;
        UnderIsYounger(up, other, m);
        assert false;
      } else {
        SiblingsApart(up, m, c, d, up[x].0);
      }
    }
  }

  lemma {:induction false} UnderExtended(up: seq<Link>, more: seq<Link>, c: nat, x: nat)
    requires x < |up|
    ensures Under(up + more, c, x) == Under(up, c, x)
    decreases x
  {
    if x != c && up[x].0 < x {
      UnderExtended(up, more, c, up[x].0);
    }
  }

  /** Binding in map m leaves every map that does not hang from m as it was. */
  lemma {:induction false} BoundFrame(maps: seq<Map>, up: seq<Link>, m: nat, keys: Keys, slot: Slot, x: nat)
    requires Forest(maps, up) && m < |maps| && ValidKeys(keys) && keys != [] && !slot.Sub?
    requires x < |maps| && !Under(up, m, x)
    ensures Bound(maps, m, keys, slot)[x] == maps[x]
    decreases |keys|
  {
    if |keys| > 1 {
      var k := keys[0];
      var maps1: seq<Map>, up1: seq<Link> := Opened(maps, m, k), OpenedUp(maps, up, m, k);
      OpenedForest(maps, up, m, k);
      NotUnderOpened(maps, up, m, k, x);
      BoundFrame(maps1, up1, maps1[m][k].to, keys[1..], slot, x);
    }
  }

  lemma NotUnderOpened(maps: seq<Map>, up: seq<Link>, m: nat, k: nat, x: nat)
    requires Forest(maps, up) && m < |maps| && k < Size && x < |maps| && !Under(up, m, x)
    ensures var up1 := OpenedUp(maps, up, m, k); x < |up1| && !Under(up1, Opened(maps, m, k)[m][k].to, x)
  {
    var up1, c := OpenedUp(maps, up, m, k), Opened(maps, m, k)[m][k].to;
    OpenedForest(maps, up, m, k);
    if !maps[m][k].Sub? {
      UnderExtended(up, [(m, k)], m, x);
    }
    if Under(up1, c, x) {
      assert up1[c] == (m, k) && Under(up1, m, m) && Under(up1, m, c);
      UnderTrans(up1, m, c, x);
    }
  }

  /** A lookup reads only maps that hang from where it starts. */
  lemma {:induction false} FoundFrame(maps: seq<Map>, up: seq<Link>, maps': seq<Map>, d: nat, keys: Keys)
    requires Forest(maps, up) && Closed(maps') && |maps| <= |maps'|
    requires d < |maps| && ValidKeys(keys) && keys != []
    requires forall x | 0 <= x < |maps| && Under(up, d, x) :: maps'[x] == maps[x]
    ensures Found(maps', d, keys) == Found(maps, d, keys)
    decreases |keys|
  {
    assert Under(up, d, d);
    var s := maps[d][keys[0]];
    if |keys| > 1 && s.Sub? {
      forall x | 0 <= x < |maps| && Under(up, s.to, x)
        ensures Under(up, d, x)
      {
        assert Under(up, d, s.to);
        UnderTrans(up, d, s.to, x);
      }
      FoundFrame(maps, up, maps', s.to, keys[1..]);
    }
  }

  /** The forest stays one. */
  lemma {:induction false} BoundForest(maps: seq<Map>, up: seq<Link>, m: nat, keys: Keys, slot: Slot)
    returns (up': seq<Link>)
    requires Forest(maps, up) && m < |maps| && ValidKeys(keys) && keys != [] && !slot.Sub?
    ensures Forest(Bound(maps, m, keys, slot), up')
    decreases |keys|
  {
    var k := keys[0];
    if |keys| == 1 {
      up' := up;
    } else {
      OpenedForest(maps, up, m, k);
      var maps1: seq<Map> := Opened(maps, m, k);
      up' := BoundForest(maps1, OpenedUp(maps, up, m, k), maps1[m][k].to, keys[1..], slot);
    }
  }

  /** Lookups along a different key of m do not see what is bound behind c. */
  lemma BranchApart(maps: seq<Map>, up: seq<Link>, m: nat, keys: Keys, slot: Slot, other: Keys)
    requires Forest(maps, up) && m < |maps| && ValidKeys(keys) && keys != [] && !slot.Sub?
    requires ValidKeys(other) && other != [] && other[0] != keys[0]
    ensures Found(Bound(maps, m, keys, slot), m, other) == Found(maps, m, other)
  {
    hide Bound;
    var maps' := Bound(maps, m, keys, slot);
    var s := maps[m][other[0]];
    RootKept(maps, up, m, keys, slot);
    if |other| > 1 && s.Sub? {
      forall x | 0 <= x < |maps| && Under(up, s.to, x)
        ensures maps'[x] == maps[x]
      {
        UnderIsYounger(up, s.to, x);
        SiblingKept(maps, up, m, keys, slot, s.to, x);
      }
      FoundFrame(maps, up, maps', s.to, other[1..]);
    }
  }

  lemma SiblingKept(maps: seq<Map>, up: seq<Link>, m: nat, keys: Keys, slot: Slot, d: nat, x: nat)
    requires Forest(maps, up) && m < |maps| && ValidKeys(keys) && keys != [] && !slot.Sub?
    requires m < d < |maps| && up[d].0 == m && up[d].1 != keys[0] && d <= x < |maps| && Under(up, d, x)
    ensures Bound(maps, m, keys, slot)[x] == maps[x]
  {
    if |keys| > 1 {
      var k := keys[0];
      var maps1: seq<Map>, up1: seq<Link> := Opened(maps, m, k), OpenedUp(maps, up, m, k);
      OpenedForest(maps, up, m, k);
      var c := maps1[m][k].to;
      UnderExtended(up, [(m, k)], d, x);
      SiblingsApart(up1, m, c, d, x);
      BoundFrame(maps1, up1, c, keys[1..], slot, x);
    }
  }

  /** In map m itself only the first key's slot changes. */
  lemma RootKept(maps: seq<Map>, up: seq<Link>, m: nat, keys: Keys, slot: Slot)
    requires Forest(maps, up) && m < |maps| && ValidKeys(keys) && keys != [] && !slot.Sub?
    ensures var k := keys[0];
      Bound(maps, m, keys, slot)[m] == maps[m][k := if |keys| == 1 then slot else Opened(maps, m, k)[m][k]]
  {
    if |keys| > 1 {
      var k := keys[0];
      var maps1: seq<Map>, up1: seq<Link> := Opened(maps, m, k), OpenedUp(maps, up, m, k);
      OpenedForest(maps, up, m, k);
      var c := maps1[m][k].to;
      if Under(up1, c, m) {
        UnderIsYounger(up1, c, m);
      }
      BoundFrame(maps1, up1, c, keys[1..], slot, m);
    }
  }

  // ------------------------------------------------------------- the law of binding

  /** keys and other part ways after d keys. */
  predicate PartAt(keys: Keys, other: Keys, d: nat) {
    d <= |keys| && d <= |other| && keys[..d] == other[..d] && (d < |keys| && d < |other| ==> keys[d] != other[d])
  }

  /** What any keys find after keys were bound.  Keys that begin with the bound ones
      find the new slot, a proper beginning of them finds a map.  All others find
      what they found before, unless a slot that held no map was in the way of the
      binding: then they find what a fresh map holds. */
  lemma {:induction false} FoundAfterBound(maps: seq<Map>, up: seq<Link>, m: nat, keys: Keys, slot: Slot, other: Keys,
                                           d: nat)
    requires Forest(maps, up) && m < |maps| && ValidKeys(keys) && keys != [] && !slot.Sub?
    requires ValidKeys(other) && other != [] && PartAt(keys, other, d)
    ensures var found := Found(Bound(maps, m, keys, slot), m, other);
      if d == |keys| then found == slot
      else if d == |other| then found.Sub?
      else found == if Open(maps, m, keys[..d]) then Found(maps, m, other) else Bare(other[d])
    decreases |keys|
  {
    hide Bound, Found, Open, Forest, BareMap;
    ForestIsClosed(maps, up);
    RootKept(maps, up, m, keys, slot);
    FoundAt(Bound(maps, m, keys, slot), m, other);
    if d == 0 {
      BranchApart(maps, up, m, keys, slot, other);
      OpenNothing(maps, m);
    } else if |keys| > 1 && |other| > 1 {
      FoundBehind(maps, up, m, keys, slot, other, d);
    }
  }

  /** The case in which the first key is the same and neither ends there. */
  lemma {:induction false} FoundBehind(maps: seq<Map>, up: seq<Link>, m: nat, keys: Keys, slot: Slot, other: Keys,
                                       d: nat)
    requires Forest(maps, up) && m < |maps| && ValidKeys(keys) && |keys| > 1 && !slot.Sub?
    requires ValidKeys(other) && |other| > 1 && PartAt(keys, other, d) && d > 0
    ensures var found := Found(Bound(maps, m, keys, slot), m, other);
      if d == |keys| then found == slot
      else if d == |other| then found.Sub?
      else found == if Open(maps, m, keys[..d]) then Found(maps, m, other) else Bare(other[d])
    decreases |keys|, 0
  {
    hide Bound, Found, Open, Forest, BareMap;
    var k := keys[0];
    ForestIsClosed(maps, up);
    var maps1: seq<Map> := Opened(maps, m, k);
    OpenedForest(maps, up, m, k);
    ForestIsClosed(maps1, OpenedUp(maps, up, m, k));
    var c := maps1[m][k].to;
    assert keys[1..][..d - 1] == keys[..d][1..] && other[1..][..d - 1] == other[..d][1..];
    assert keys[..d][0] == k && other[..d][0] == other[0];
    BoundAt(maps, m, keys, slot);
    RootKept(maps, up, m, keys, slot);
    FoundAt(Bound(maps, m, keys, slot), m, other);
    FoundAfterBound(maps1, OpenedUp(maps, up, m, k), c, keys[1..], slot, other[1..], d - 1);
    if d < |keys| && d < |other| {
      FoundOpened(maps, m, k, keys[..d], other);
    }
  }

  lemma ForestIsClosed(maps: seq<Map>, up: seq<Link>)
    requires Forest(maps, up)
    ensures Closed(maps)
  {
  }

  lemma OpenNothing(maps: seq<Map>, m: nat)
    requires Closed(maps) && m < |maps|
    ensures Open(maps, m, [])
  {
  }

  lemma FoundAt(maps: seq<Map>, m: nat, keys: Keys)
    requires Closed(maps) && m < |maps| && ValidKeys(keys) && keys != []
    ensures Found(maps, m, keys) ==
      if |keys| > 1 && maps[m][keys[0]].Sub? then Found(maps, maps[m][keys[0]].to, keys[1..]) else maps[m][keys[0]]
  {
  }

  /** Seen from below, opening a slot turns it into a bare map. */
  lemma FoundOpened(maps: seq<Map>, m: nat, k: nat, keys: Keys, other: Keys)
    requires Closed(maps) && m < |maps| && ValidKeys(keys) && ValidKeys(other)
    requires 0 < |keys| < |other| && keys[0] == k == other[0]
    requires Closed(Opened(maps, m, k)) && Opened(maps, m, k)[m][k].Sub?
    ensures var maps1: seq<Map> := Opened(maps, m, k); var c := maps1[m][k].to;
      (if Open(maps1, c, keys[1..]) then Found(maps1, c, other[1..]) else Bare(other[|keys|]))
        == if Open(maps, m, keys) then Found(maps, m, other) else Bare(other[|keys|])
  {
  }

  // ------------------------------------------------------------------- the code

  datatype BindResult = Nothing | PastEnd | Done

  /** OutOfMap: a key that is negative, as bytes from 128 on are where a plain `char` is
      signed, is used as a place before the map. */
  datatype Lookup = OutOfMap | Slotted(slot: Slot)

  /** What a C string of keys finds. */
  function LookedUp(maps: seq<Map>, m: nat, keys: Keys, signed: bool): Lookup
    requires Closed(maps) && m < |maps| && ValidKeys(keys)
    decreases |keys|
  {
    if keys == [] then Slotted(Fn(Null))
    else if signed && keys[0] >= 128 then OutOfMap
    else
      var s := maps[m][keys[0]];
      if |keys| > 1 && s.Sub? then LookedUp(maps, s.to, keys[1..], signed) else Slotted(s)
  }

  /** One negative key is enough, whatever is bound. */
  lemma NegativeKey(maps: seq<Map>, m: nat)
    requires Closed(maps) && m < |maps|
    ensures LookedUp(maps, m, [200], true) == OutOfMap
  {
  }

  /** A lookup leaves the map exactly when maps lead to a key that is negative;
      otherwise it finds what the keys lead to. */
  lemma {:induction false} LookedUpIff(maps: seq<Map>, m: nat, keys: Keys, signed: bool)
    requires Closed(maps) && m < |maps| && ValidKeys(keys)
    ensures LookedUp(maps, m, keys, signed) == OutOfMap
      <==> signed && exists d | 0 <= d < |keys| :: keys[d] >= 128 && Open(maps, m, keys[..d])
    ensures LookedUp(maps, m, keys, signed) != OutOfMap ==>
      LookedUp(maps, m, keys, signed) == Slotted(if keys == [] then Fn(Null) else Found(maps, m, keys))
    decreases |keys|
  {
    if keys != [] {
      var s := maps[m][keys[0]];
      if s.Sub? {
        LookedUpIff(maps, s.to, keys[1..], signed);
      }
      forall d | 0 <= d < |keys|
        ensures Open(maps, m, keys[..d])
          <==> d == 0 || (s.Sub? && Open(maps, s.to, keys[1..][..d - 1]))
      {
        assert d > 0 ==> keys[..d][1..] == keys[1..][..d - 1];
      }
      assert forall d | 0 < d < |keys| :: keys[d] == keys[1..][d - 1];
    }
  }

  /** The keymaps reachable from the programs' own; `up` records where each hangs. */
  class Keymaps {
    var maps: seq<Map>
    ghost var up: seq<Link>

    ghost predicate Valid() reads this {
      Forest(maps, up)
    }

    constructor ()
      ensures Valid() && maps == [BareMap()]
    {
      maps, up := [BareMap()], [(0, 0)];
    }

    /** `rl_make_bare_keymap`. */
    method MakeBareKeymap() returns (m: nat)
      requires Valid()
      modifies this`maps
      ensures m == |old(maps)| && maps == old(maps) + [BareMap()]
    {
      var keymap := new Slot[Size](i => Fn(Null));
      var i := 0;
      while i < Size
        invariant i <= Size
        invariant forall k | 0 <= k < i :: keymap[k] == Fn(Null)
        modifies keymap
      {
        keymap[i] := Fn(Null);
        i := i + 1;
      }
      i := 'A' as int;
      while i < 'Z' as int + 1
        invariant 'A' as int <= i <= 'Z' as int + 1
        invariant forall k | 0 <= k < Size :: keymap[k] == if k < i then Bare(k) else Fn(Null)
        modifies keymap
      {
        keymap[i] := Fn(LowercaseVersion);
        i := i + 1;
      }
      assert keymap[..] == BareMap();
      m := |maps|;
      maps := maps + [keymap[..]];
    }

    /** A slot on the way that holds no map gets a fresh one. */
    method OpenSlot(at: nat, ic: nat)
      requires Valid() && at < |maps| && ic < Size
      modifies this
      ensures Valid() && maps == Opened(old(maps), at, ic)
    {
      OpenedForest(maps, up, at, ic);
      if !maps[at][ic].Sub? {
        ghost var before := maps;
        var made := MakeBareKeymap();
        maps := maps[at := maps[at][ic := Sub(made)]];
        assert maps == Opened(before, at, ic);
        up := up + [(at, ic)];
      }
    }

    /** The loop of `rl_generic_bind`. */
    method BindKeys(root: nat, keys: Keys, slot: Slot)
      requires Valid() && root < |maps| && ValidKeys(keys) && keys != [] && !slot.Sub?
      modifies this
      ensures Valid() && maps == Bound(old(maps), root, keys, slot)
    {
      hide Bound, Opened;
      var at: nat := root;
      var i := 0;
      while i < |keys|
        invariant i <= |keys| && Valid() && at < |maps|
        invariant if i < |keys| then Bound(maps, at, keys[i..], slot) == Bound(old(maps), root, keys, slot)
                  else maps == Bound(old(maps), root, keys, slot)
      {
        var ic := keys[i];
        assert keys[i..][1..] == keys[i + 1..];
        OpenedForest(maps, up, at, ic);
        BoundAt(maps, at, keys[i..], slot);
        if i + 1 < |keys| {
          OpenSlot(at, ic);
          at := maps[at][ic].to;
        } else {
          maps := maps[at := maps[at][ic := slot]];
        }
        i := i + 1;
      }
    }

    /** `rl_generic_bind` for a function or a macro, in written form.  Nothing is bound
        to an empty text; a text that ends behind a `\C-` waiting for its character is
        read past its end. */
    method GenericBind(slot: Slot, keyseq: string, root: nat) returns (r: BindResult)
      requires Valid() && root < |maps| && !slot.Sub? && KeySyntax.Bytes(keyseq)
      modifies this
      ensures Valid()
      ensures r.Nothing? <==> keyseq == ""
      ensures r.PastEnd? <==> KeySyntax.PlaceAfter(KeySyntax.Between, keyseq) == KeySyntax.Control
      ensures r.Done? ==>
        var read := KeySyntax.Translate(keyseq);
        && read.Some? && KeySyntax.Bytes(read.value)
        && maps == if read.value == "" then old(maps) else Bound(old(maps), root, Codes(read.value), slot)
    {
      if keyseq == "" {
        return Nothing;
      }
      var buf := new char[1 + 2 * |keyseq|];
      KeySyntax.TranslateBytes(keyseq);
      var len, ok := KeySyntax.TranslateKeyseq(keyseq, buf);
      if !ok {
        return PastEnd;
      }
      var keys := Codes(buf[..len]);
      if keys != [] {
        BindKeys(root, keys, slot);
      }
      return Done;
    }

    /** `rl_function_of_keyseq`; the keys come as a C string, and are used as places
        in a map as they are. */
    method FunctionOfKeyseq(root: nat, keys: Keys, signed: bool) returns (r: Lookup)
      requires Valid() && root < |maps| && ValidKeys(keys) && 0 !in keys
      ensures r == LookedUp(maps, root, keys, signed)
    {
      var at: nat := root;
      var i := 0;
      while i < |keys|
        invariant i <= |keys| && at < |maps|
        invariant keys != [] ==> i < |keys|
        invariant keys != [] ==> LookedUp(maps, at, keys[i..], signed) == LookedUp(maps, root, keys, signed)
      {
        var ic := keys[i];
        assert keys[i..][1..] == keys[i + 1..];
        if signed && ic >= 128 {
          return OutOfMap;
        }
        if !maps[at][ic].Sub? || i + 1 == |keys| {
          return Slotted(maps[at][ic]);
        }
        at := maps[at][ic].to;
        i := i + 1;
      }
      return Slotted(Fn(Null));
    }
  }

  function Codes(s: string): (keys: Keys)
    requires KeySyntax.Bytes(s)
    ensures |keys| == |s| && ValidKeys(keys) && forall i | 0 <= i < |s| :: keys[i] == s[i] as int
  {
    seq(|s|, i requires 0 <= i < |s| => s[i] as int)
  }

  /** In a fresh map the keys that stand for another are the capital letters. */
  lemma CapitalsStandForSmall(c: char)
    requires (c as int) < 256
    ensures BareMap()[c as int] == Fn(LowercaseVersion) <==> KeySyntax.ToLower(c) != c
    ensures BareMap()[c as int] == Fn(LowercaseVersion) || BareMap()[c as int] == Fn(Null)
  {
  }

  /** Binding what is written for some keys: looking the keys up finds the new slot. */
  lemma BindWritten(maps: seq<Map>, up: seq<Link>, m: nat, signed: bool, s: string, slot: Slot)
    requires Forest(maps, up) && m < |maps| && !slot.Sub?
    requires KeySyntax.Keys(s) && s != "" && KeySyntax.ControlBackslash !in s
    requires forall i | 0 <= i < |s| :: !KeySyntax.Meta(signed, s[i])
    ensures KeySyntax.Translate(KeySyntax.Untranslate(signed, s)) == KeySyntax.Some(s)
    ensures Found(Bound(maps, m, Codes(s), slot), m, Codes(s)) == slot
  {
    KeySyntax.RoundTrip(signed, s);
    FoundAfterBound(maps, up, m, Codes(s), slot, Codes(s), |s|);
  }
}
