/** The hash table of file names: libs/kpathsea/hash.c. */
module Hash {

  datatype Pair = Pair(key: string, value: string)

  const UintMod: nat := 0x1_0000_0000

  // ------------------------------------------------------------- the association log

  /** The values logged for a key, in the order they came. */
  function Values(log: seq<Pair>, key: string): seq<string> {
    if log == [] then []
    else (if log[0].key == key then [log[0].value] else []) + Values(log[1..], key)
  }

  /** The log without the first entry equal to p. */
  function Without(log: seq<Pair>, p: Pair): seq<Pair> {
    if log == [] then []
    else if log[0] == p then log[1..]
    else [log[0]] + Without(log[1..], p)
  }

  // ------------------------------------------------------------------ what a bucket holds

  /** One step of the hash function, in 32-bit unsigned arithmetic. */
  function Mix(n: nat, c: char, size: nat): (m: nat)
    requires size > 0
    ensures m < size
  {
    (n + n + c as int) % UintMod % size
  }

  function Code(key: string, size: nat): (n: nat)
    requires size > 0
    ensures n < size
  {
    if key == "" then 0 else Mix(Code(key[..|key| - 1], size), key[|key| - 1], size)
  }

  /** The entries whose keys belong in bucket b, in order. */
  function InBucket(log: seq<Pair>, b: nat, size: nat): seq<Pair>
    requires size > 0
  {
    if log == [] then []
    else (if Code(log[0].key, size) == b then [log[0]] else []) + InBucket(log[1..], b, size)
  }

  /** How the functions take a first entry. */
  lemma Cons(p: Pair, log: seq<Pair>)
    ensures forall key ::
      Values([p] + log, key) == if p.key == key then [p.value] + Values(log, key) else Values(log, key)
    ensures forall q :: Without([p] + log, q) == if p == q then log else [p] + Without(log, q)
    ensures forall b: nat, size: nat | size > 0 ::
      InBucket([p] + log, b, size)
      == if Code(p.key, size) == b then [p] + InBucket(log, b, size) else InBucket(log, b, size)
  {
    hide Code;
    assert ([p] + log)[1..] == log;
    assert forall s: seq<string> :: [] + s == s;
    assert forall s: seq<Pair> :: [] + s == s;
  }

  lemma {:induction false} InBucketSnoc(log: seq<Pair>, p: Pair, b: nat, size: nat)
    requires size > 0
    ensures InBucket(log + [p], b, size) == InBucket(log, b, size) + (if Code(p.key, size) == b then [p] else [])
    decreases |log|
  {
    hide Code;
    if log == [] {
      Cons(p, []);
      assert log + [p] == [p] + [];
    } else {
      var tail := log[1..];
      assert log == [log[0]] + tail && log + [p] == [log[0]] + (tail + [p]);
      Cons(log[0], tail);
      Cons(log[0], tail + [p]);
      InBucketSnoc(tail, p, b, size);
    }
  }

  lemma {:induction false} InBucketWithout(log: seq<Pair>, p: Pair, b: nat, size: nat)
    requires size > 0
    ensures InBucket(Without(log, p), b, size) ==
      if Code(p.key, size) == b then Without(InBucket(log, b, size), p) else InBucket(log, b, size)
    decreases |log|
  {
    hide Code;
    if log != [] {
      var tail := log[1..];
      assert log == [log[0]] + tail;
      InBucketWithout(tail, p, b, size);
      Cons(log[0], tail);
      Cons(log[0], Without(tail, p));
      Cons(log[0], InBucket(tail, b, size));
    }
  }

  /** A bucket answers for its keys like the whole log. */
  lemma {:induction false} ValuesInBucket(log: seq<Pair>, key: string, size: nat)
    requires size > 0
    ensures Values(InBucket(log, Code(key, size), size), key) == Values(log, key)
    decreases |log|
  {
    hide Code;
    if log != [] {
      var tail := log[1..];
      assert log == [log[0]] + tail;
      ValuesInBucket(tail, key, size);
      Cons(log[0], tail);
      Cons(log[0], InBucket(tail, Code(key, size), size));
    }
  }

  // ------------------------------------------------------------------ runs of operations

  datatype Op = Insert(p: Pair) | Remove(p: Pair)

  function Apply(log: seq<Pair>, op: Op): seq<Pair> {
    match op
    case Insert(p) => log + [p]
    case Remove(p) => Without(log, p)
  }

  lemma {:induction false} ValuesConcat(a: seq<Pair>, b: seq<Pair>, key: string)
    ensures Values(a + b, key) == Values(a, key) + Values(b, key)
    decreases |a|
  {
    if a == [] {
      assert a + b == b;
    } else {
      assert (a + b)[1..] == a[1..] + b;
      ValuesConcat(a[1..], b, key);
    }
  }

  function WithoutValue(values: seq<string>, v: string): seq<string> {
    if values == [] then []
    else if values[0] == v then values[1..]
    else [values[0]] + WithoutValue(values[1..], v)
  }

  lemma WithoutValueCons(w: string, values: seq<string>, v: string)
    ensures WithoutValue([w] + values, v) == if w == v then values else [w] + WithoutValue(values, v)
  {
    assert ([w] + values)[1..] == values;
  }

  /** What an operation does to the answers: an insertion adds the value at the end of
      its key's list, a removal drops its first occurrence there; other keys keep
      their answers. */
  lemma {:induction false} ValuesAfter(log: seq<Pair>, op: Op, key: string)
    ensures Values(Apply(log, op), key) ==
      if op.p.key != key then Values(log, key)
      else if op.Insert? then Values(log, key) + [op.p.value]
      else WithoutValue(Values(log, key), op.p.value)
    decreases |log|
  {
    if op.Insert? {
      ValuesConcat(log, [op.p], key);
      assert [op.p][1..] == [];
    } else if log != [] {
      var tail := log[1..];
      assert log == [log[0]] + tail;
      ValuesAfter(tail, op, key);
      Cons(log[0], tail);
      Cons(log[0], Without(tail, op.p));
      WithoutValueCons(log[0].value, Values(tail, key), op.p.value);
    }
  }

  /** Operations on different keys can be exchanged. */
  lemma OtherKeysCommute(log: seq<Pair>, a: Op, b: Op, key: string)
    requires a.p.key != b.p.key
    ensures Values(Apply(Apply(log, a), b), key) == Values(Apply(Apply(log, b), a), key)
  {
    ValuesAfter(log, a, key);
    ValuesAfter(log, b, key);
    ValuesAfter(Apply(log, a), b, key);
    ValuesAfter(Apply(log, b), a, key);
  }

  // ------------------------------------------------------------------ the table

  /** An element of a bucket's chain. */
  class Elt {
    const key: string
    const value: string
    var next: Elt?

    constructor (key: string, value: string)
      ensures this.key == key && this.value == value && next == null
    {
      this.key, this.value, next := key, value, null;
    }
  }

  function CellAt(chain: seq<Elt>, i: nat): Elt? {
    if i < |chain| then chain[i] else null
  }

  function Pairs(chain: seq<Elt>): (r: seq<Pair>)
    ensures |r| == |chain| && forall i | 0 <= i < |r| :: r[i] == Pair(chain[i].key, chain[i].value)
  {
    seq(|chain|, i requires 0 <= i < |chain| => Pair(chain[i].key, chain[i].value))
  }

  predicate Distinct(chain: seq<Elt>) {
    forall i, j | 0 <= i < j < |chain| :: chain[i] != chain[j]
  }

  function Skipping(i: nat, j: nat): nat {
    if j < i then j else j + 1
  }

  /** The chain without its element i. */
  function Dropped(chain: seq<Elt>, i: nat): (r: seq<Elt>)
    requires i < |chain|
    ensures |r| == |chain| - 1 && forall j | 0 <= j < |r| :: r[j] == chain[Skipping(i, j)]
  {
    seq(|chain| - 1, j requires 0 <= j < |chain| - 1 => chain[Skipping(i, j)])
  }

  lemma DroppedPairs(chain: seq<Elt>, i: nat)
    requires i < |chain|
    ensures Pairs(Dropped(chain, i)) == Pairs(chain)[..i] + Pairs(chain)[i + 1..]
  {
  }

  lemma DroppedCell(chain: seq<Elt>, i: nat, j: nat)
    requires i < |chain|
    ensures CellAt(Dropped(chain, i), j) == CellAt(chain, Skipping(i, j))
    ensures Distinct(chain) ==> Distinct(Dropped(chain, i))
  {
  }

  lemma DroppedLinks(chain: seq<Elt>, i: nat)
    requires i < |chain|
    requires forall j: nat | j < |chain| :: chain[j].next == CellAt(chain, if j + 1 == i then i + 1 else j + 1)
    ensures var r := Dropped(chain, i); forall j | 0 <= j < |r| :: r[j].next == CellAt(r, j + 1)
  {
    hide CellAt, Dropped;
    var r := Dropped(chain, i);
    forall j | 0 <= j < |r|
      ensures r[j].next == CellAt(r, j + 1)
    {
      assert r[j] == chain[Skipping(i, j)];
      DroppedCell(chain, i, j + 1);
    }
  }

  class Table {
    const size: nat
    const buckets: array<Elt?>
    ghost var log: seq<Pair>
    ghost var chains: seq<seq<Elt>>
    ghost var cells: set<Elt>

    /** Following the links of a bucket goes through its chain, and no chain has an
        element of another bucket. */
    ghost predicate Linked(b: nat)
      reads this`chains, this`cells, buckets, cells
      requires b < |chains| == buckets.Length && 0 < size
    {
      && buckets[b] == CellAt(chains[b], 0) && Distinct(chains[b])
      && (forall i | 0 <= i < |chains[b]| :: chains[b][i] in cells && Code(chains[b][i].key, size) == b)
      && forall i | 0 <= i < |chains[b]| :: chains[b][i].next == CellAt(chains[b], i + 1)
    }

    /** The buckets refine the log: each holds exactly the entries the hash function
        sends there, in order. */
    ghost predicate Valid() reads this, buckets, cells {
      && 0 < size < UintMod && buckets.Length == size == |chains|
      && (forall b | 0 <= b < size :: Linked(b))
      && forall b | 0 <= b < size :: Pairs(chains[b]) == InBucket(log, b, size)
    }

    /** `hash_create`. */
    constructor (size: nat)
      requires 0 < size < UintMod
      ensures Valid() && fresh(buckets) && cells == {} && log == [] && this.size == size
    {
      this.size := size;
      buckets := new Elt?[size](_ => null);
      log, cells, chains := [], {}, seq(size, _ => []);
    }

    /** `hash`. */
    method HashOf(key: string) returns (n: nat)
      requires 0 < size
      ensures n == Code(key, size)
    {
      n := 0;
      var k := 0;
      assert key[..0] == "";
      while k < |key|
        invariant k <= |key| && n == Code(key[..k], size)
      {
        assert key[..k + 1][..k] == key[..k];
        n := (n + n + key[k] as int) % UintMod % size;
        k := k + 1;
      }
      assert key[..k] == key;
    }

    method LastOf(n: nat) returns (loc: Elt)
      requires Valid() && n < size && buckets[n] != null
      ensures chains[n] != [] && loc == chains[n][|chains[n]| - 1]
    {
      hide Code, InBucket, Pairs;
      assert Linked(n);
      loc := buckets[n];
      ghost var i := 0;
      while loc.next != null
        invariant i < |chains[n]| && loc == chains[n][i]
        decreases |chains[n]| - i
      {
        loc := loc.next;
        i := i + 1;
      }
    }

    /** The pointer update of `hash_insert`. */
    method Attach(n: nat, elt: Elt)
      requires Valid() && n < size && elt !in cells && elt.next == null
      modifies buckets, cells
      ensures elt.next == null
      ensures forall b | 0 <= b < size && b != n :: Linked(b)
      ensures buckets[n] == CellAt(chains[n] + [elt], 0)
      ensures forall j: nat | j < |chains[n]| :: chains[n][j].next == CellAt(chains[n] + [elt], j + 1)
    {
      hide Code, InBucket, Pairs;
      ghost var chain := chains[n];
      assert Linked(n);
      if buckets[n] == null {
        buckets[n] := elt;
      } else {
        var loc := LastOf(n);
        OthersElsewhere(n, |chain| - 1);
        loc.next := elt;
      }
      forall b | 0 <= b < size && b != n
        ensures Linked(b)
      {
        assert old(Linked(b));
      }
    }

    /** Putting the new element behind the last one of its chain. */
    method Append(n: nat, elt: Elt)
      requires Valid() && n < size && elt !in cells && elt.next == null && Code(elt.key, size) == n
      modifies this`chains, this`cells, buckets, cells
      ensures cells == old(cells) + {elt} && chains == old(chains[n := chains[n] + [elt]])
      ensures 0 < size && buckets.Length == size == |chains| && forall b | 0 <= b < size :: Linked(b)
    {
      hide Code, InBucket, Pairs;
      ghost var chain := chains[n];
      assert Linked(n);
      Attach(n, elt);
      label attached:
      chains, cells := chains[n := chain + [elt]], cells + {elt};
      forall b | 0 <= b < size && b != n
        ensures Linked(b)
      {
        assert old@attached(Linked(b));
      }
      assert Linked(n);
    }

    /** An element is in no other place. */
    lemma OthersElsewhere(n: nat, i: nat)
      requires Valid() && n < size && i < |chains[n]|
      ensures forall b, j | 0 <= b < size && 0 <= j < |chains[b]| && (b != n || j != i) :: chains[b][j] != chains[n][i]
    {
      hide Code, InBucket;
      forall b, j | 0 <= b < size && 0 <= j < |chains[b]| && (b != n || j != i)
        ensures chains[b][j] != chains[n][i]
      {
        assert Linked(b) && Linked(n);
      }
    }

    /** `hash_insert`. */
    method HashInsert(key: string, value: string)
      requires Valid()
      modifies this, buckets, cells
      ensures Valid() && log == Apply(old(log), Insert(Pair(key, value))) && fresh(cells - old(cells))
    {
      hide InBucket, Code, Linked;
      var n := HashOf(key);
      ghost var p, was := Pair(key, value), log;
      var elt := new Elt(key, value);
      forall b | 0 <= b < size
        ensures InBucket(was + [p], b, size) == InBucket(was, b, size) + (if Code(key, size) == b then [p] else [])
      {
        InBucketSnoc(was, p, b, size);
      }
      Append(n, elt);
      log := log + [p];
      assert Pairs(old(chains[n]) + [elt]) == Pairs(old(chains[n])) + [p];
      forall b | 0 <= b < size
        ensures Pairs(chains[b]) == InBucket(log, b, size)
      {
        assert old(Pairs(chains[b]) == InBucket(log, b, size));
      }
    }

    /** The search of `hash_remove`: p is the first equal pair, q the element before it. */
    method FindPair(n: nat, key: string, value: string) returns (p: Elt?, q: Elt?, ghost i: nat)
      requires Valid() && n < size
      ensures i <= |chains[n]| && p == CellAt(chains[n], i) && q == (if i == 0 then null else chains[n][i - 1])
      ensures var pairs, target := Pairs(chains[n]), Pair(key, value);
        Without(pairs, target) == if p == null then pairs else pairs[..i] + pairs[i + 1..]
    {
      hide InBucket, Code, Without;
      ghost var chain, pairs, target := chains[n], Pairs(chains[n]), Pair(key, value);
      assert Linked(n);
      p, q, i := buckets[n], null, 0;
      assert pairs[0..] == pairs;
      while p != null && !(p.key == key && p.value == value)
        invariant i <= |chain| && p == CellAt(chain, i) && q == (if i == 0 then null else chain[i - 1])
        invariant Without(pairs, target) == pairs[..i] + Without(pairs[i..], target)
        decreases |chain| - i
        modifies {}
      {
        WithoutAt(pairs, i, target);
        q, p := p, p.next;
        i := i + 1;
      }
      WithoutAt(pairs, i, target);
    }

    /** The pointer update of `hash_remove`. */
    method Bypass(n: nat, p: Elt, q: Elt?, ghost i: nat)
      requires Valid() && n < size && i < |chains[n]| && p == chains[n][i]
        && q == (if i == 0 then null else chains[n][i - 1])
      modifies buckets, cells
      ensures forall b | 0 <= b < size && b != n :: Linked(b)
      ensures buckets[n] == if i == 0 then CellAt(chains[n], 1) else CellAt(chains[n], 0)
      ensures forall j: nat | j < |chains[n]| ::
        chains[n][j].next == CellAt(chains[n], if j + 1 == i then i + 1 else j + 1)
    {
      hide Code, InBucket, Pairs;
      assert Linked(n);
      if q != null {
        OthersElsewhere(n, i - 1);
        q.next := p.next;
      } else {
        buckets[n] := p.next;
      }
      forall b | 0 <= b < size && b != n
        ensures Linked(b)
      {
        assert old(Linked(b));
      }
    }

    /** Taking element i out of its chain. */
    method Unlink(n: nat, p: Elt, q: Elt?, ghost i: nat)
      requires Valid() && n < size && i < |chains[n]| && p == chains[n][i]
        && q == (if i == 0 then null else chains[n][i - 1])
      modifies this`chains, buckets, cells
      ensures cells == old(cells) && chains == old(chains[n := Dropped(chains[n], i)])
      ensures 0 < size && buckets.Length == size == |chains| && forall b | 0 <= b < size :: Linked(b)
    {
      hide Code, InBucket, Pairs, CellAt, Distinct;
      ghost var chain := chains[n];
      assert Linked(n);
      Bypass(n, p, q, i);
      label bypassed:
      DroppedLinks(chain, i);
      DroppedCell(chain, i, 0);
      chains := chains[n := Dropped(chain, i)];
      forall b | 0 <= b < size && b != n
        ensures Linked(b)
      {
        assert old@bypassed(Linked(b));
      }
      assert Linked(n);
    }

    /** `hash_remove`. */
    method HashRemove(key: string, value: string)
      requires Valid()
      modifies this`log, this`chains, buckets, cells
      ensures Valid() && log == Apply(old(log), Remove(Pair(key, value))) && cells == old(cells)
    {
      hide InBucket, Code, Without, Linked, Distinct;
      var n := HashOf(key);
      ghost var target, was := Pair(key, value), log;
      forall b | 0 <= b < size
        ensures InBucket(Without(was, target), b, size) ==
          if Code(key, size) == b then Without(InBucket(was, b, size), target) else InBucket(was, b, size)
      {
        InBucketWithout(was, target, b, size);
      }
      var p, q, i := FindPair(n, key, value);
      if p != null {
        Unlink(n, p, q, i);
        DroppedPairs(old(chains[n]), i);
      }
      log := Without(log, target);
      forall b | 0 <= b < size
        ensures Pairs(chains[b]) == InBucket(log, b, size)
      {
        assert old(Pairs(chains[b]) == InBucket(log, b, size));
      }
    }

    /** `hash_lookup`; an empty list stands for none. */
    method HashLookup(key: string) returns (r: seq<string>)
      requires Valid()
      ensures r == Values(log, key)
    {
      hide InBucket, Code, Values, Distinct;
      var n := HashOf(key);
      ghost var chain, pairs := chains[n], Pairs(chains[n]);
      assert Linked(n);
      ValuesInBucket(log, key, size);
      r := [];
      var p := buckets[n];
      ghost var i := 0;
      assert pairs[0..] == pairs;
      while p != null
        invariant i <= |chain| && p == CellAt(chain, i) && r + Values(pairs[i..], key) == Values(pairs, key)
        decreases |chain| - i
      {
        OneMoreValue(r, pairs, i, key);
        if p.key == key {
          r := r + [p.value];
        }
        p := p.next;
        i := i + 1;
      }
      ValuesAt(pairs, i, key);
    }
  }

  lemma ValuesAt(pairs: seq<Pair>, i: nat, key: string)
    requires i <= |pairs|
    ensures Values(pairs[i..], key) ==
      if i == |pairs| then []
      else (if pairs[i].key == key then [pairs[i].value] else []) + Values(pairs[i + 1..], key)
  {
    assert i < |pairs| ==> pairs[i..][1..] == pairs[i + 1..];
  }

  /** The key as a number, its characters being digits of base 2. */
  function Number(key: string): nat {
    if key == "" then 0 else 2 * Number(key[..|key| - 1]) + key[|key| - 1] as int
  }

  lemma LessTimes(p: nat, q: nat, size: nat)
    requires p < q
    ensures p * size + size <= q * size
  {
    assert (p + 1) * size <= q * size;
  }

  lemma RemainderIs(x: nat, q: nat, r: nat, size: nat)
    requires r < size && x == q * size + r
    ensures x % size == r
  {
    var p, s := x / size, x % size;
    assert x == p * size + s;
    if p < q {
      LessTimes(p, q, size);
    } else if q < p {
      LessTimes(q, p, size);
    }
  }

  lemma TwiceRemainder(n: nat, c: nat, size: nat)
    requires size > 0
    ensures (2 * (n % size) + c) % size == (2 * n + c) % size
  {
    var q, m := n / size, n % size;
    var x := 2 * m + c;
    QuotientOf(n, size);
    QuotientOf(x, size);
    Distribute(q, x / size, size);
    RemainderIs(2 * n + c, 2 * q + x / size, x % size, size);
  }

  lemma QuotientOf(n: nat, size: nat)
    requires size > 0
    ensures n == n / size * size + n % size && n % size < size
  {
  }

  lemma Distribute(a: nat, b: nat, size: nat)
    ensures (2 * a + b) * size == 2 * (a * size) + b * size
  {
  }

  lemma MixIs(n: nat, c: char, size: nat)
    requires 0 < size <= 0x7fff_0000 && n < size && (c as int) < 256
    ensures Mix(n, c, size) == (2 * n + c as int) % size
  {
    RemainderIs(2 * n + c as int, 0, 2 * n + c as int, UintMod);
  }

  /** In tables of reasonable size nothing wraps around: the bucket is that number modulo
      the size. */
  lemma {:induction false} CodeIsRemainder(key: string, size: nat)
    requires 0 < size <= 0x7fff_0000 && forall i | 0 <= i < |key| :: (key[i] as int) < 256
    ensures Code(key, size) == Number(key) % size
    decreases |key|
  {
    hide Mix;
    if key == "" {
      RemainderIs(0, 0, 0, size);
    } else {
      var front, c := key[..|key| - 1], key[|key| - 1];
      CodeIsRemainder(front, size);
      MixIs(Code(front, size), c, size);
      TwiceRemainder(Number(front), c as int, size);
    }
  }

  /** A step of the look-up. */
  lemma OneMoreValue(r: seq<string>, pairs: seq<Pair>, i: nat, key: string)
    requires i < |pairs|
    ensures r + Values(pairs[i..], key)
         == (if pairs[i].key == key then r + [pairs[i].value] else r) + Values(pairs[i + 1..], key)
  {
    hide Values;
    ValuesAt(pairs, i, key);
  }

  /** A step along the chain. */
  lemma WithoutAt(chain: seq<Pair>, p: nat, target: Pair)
    requires p <= |chain|
    ensures p < |chain| && chain[p] != target ==>
      chain[..p] + Without(chain[p..], target) == chain[..p + 1] + Without(chain[p + 1..], target)
    ensures p < |chain| && chain[p] == target ==>
      chain[..p] + Without(chain[p..], target) == chain[..p] + chain[p + 1..]
    ensures p == |chain| ==> chain[..p] + Without(chain[p..], target) == chain
  {
    if p < |chain| {
      assert chain[p..][1..] == chain[p + 1..];
      assert chain[..p + 1] == chain[..p] + [chain[p]];
    }
  }
}
