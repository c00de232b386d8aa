/** Looking for a font at the resolutions around the wanted one:
    `try_fallback_resolutions` of libs/kpathsea/tex-glyph.c. */
module Fallback {

  const IntMax: nat := 0x7fff_ffff
  const UintMod: nat := 0x1_0000_0000

  /** What `abs` and the subtractions of the C code compute on 32-bit unsigned values. */
  function USub(a: nat, b: nat): nat
    requires b <= UintMod
  {
    (UintMod + a - b) % UintMod
  }

  function AbsAsInt(u: nat): nat
    requires u < UintMod
  {
    if u <= IntMax then u else UintMod - u
  }

  function Dist(a: nat, b: nat): nat {
    if a < b then b - a else a - b
  }

  lemma UnsignedDiff(a: nat, b: nat)
    requires a < IntMax && b < IntMax
    ensures USub(a, b) < UintMod && AbsAsInt(USub(a, b)) == Dist(a, b)
    ensures USub(a, b) == if a >= b then a - b else UintMod - (b - a)
  {
  }

  /** The list as it is read in: positive, in ascending order, equal ones allowed. */
  predicate SizeList(sizes: seq<nat>) {
    && (forall i | 0 <= i < |sizes| :: 0 < sizes[i] < IntMax)
    && forall i, j | 0 <= i < j < |sizes| :: sizes[i] <= sizes[j]
  }

  /** The first of the closest among the first n sizes. */
  predicate IsNearest(sizes: seq<nat>, dpi: nat, n: nat, loc: nat)
    requires n <= |sizes|
  {
    && loc < n
    && (forall j | 0 <= j < n :: Dist(sizes[loc], dpi) <= Dist(sizes[j], dpi))
    && forall j | 0 <= j < loc :: Dist(sizes[loc], dpi) < Dist(sizes[j], dpi)
  }

  function Nearest(sizes: seq<nat>, dpi: nat, n: nat): (loc: nat)
    requires 0 < n <= |sizes|
    ensures IsNearest(sizes, dpi, n, loc)
  {
    if n == 1 then 0
    else
      var loc := Nearest(sizes, dpi, n - 1);
      if Dist(sizes[n - 1], dpi) < Dist(sizes[loc], dpi) then n - 1 else loc
  }

  /** The closest size is below dpi and comes twice. */
  predicate DoubledBelow(sizes: seq<nat>, dpi: nat) {
    && sizes != []
    && var loc := Nearest(sizes, dpi, |sizes|);
       loc + 1 < |sizes| && sizes[loc + 1] == sizes[loc] && sizes[loc] < dpi
  }

  datatype Outcome = Found(size: nat) | NotFound | OutOfBounds

  /** The first loop. */
  method FindClosest(sizes: seq<nat>, dpi: nat) returns (loc: nat)
    requires SizeList(sizes) && sizes != [] && dpi < IntMax
    ensures loc == Nearest(sizes, dpi, |sizes|)
  {
    var closestDiff := UintMod - 1;
    loc := 0;
    var s := 0;
    while s < |sizes|
      invariant s <= |sizes|
      invariant if s == 0 then closestDiff == UintMod - 1
        else loc == Nearest(sizes, dpi, s) && closestDiff == Dist(sizes[loc], dpi)
    {
      UnsignedDiff(sizes[s], dpi);
      var thisDiff := AbsAsInt(USub(sizes[s], dpi));
      if thisDiff < closestDiff {
        closestDiff := thisDiff;
        loc := s;
      }
      s := s + 1;
    }
  }

  /** Beyond the closest size the list lies on the far sides of dpi. */
  lemma Sides(sizes: seq<nat>, dpi: nat)
    requires SizeList(sizes) && sizes != [] && dpi < IntMax
    ensures var loc := Nearest(sizes, dpi, |sizes|);
      && (forall j | 0 <= j < loc :: sizes[j] < dpi)
      && (!DoubledBelow(sizes, dpi) ==> forall j | loc < j < |sizes| :: dpi <= sizes[j])
      && (DoubledBelow(sizes, dpi) ==> loc + 1 < |sizes| && sizes[loc + 1] < dpi)
  {
    var loc := Nearest(sizes, dpi, |sizes|);
    if loc + 1 < |sizes| && !DoubledBelow(sizes, dpi) {
      assert dpi <= sizes[loc + 1];
    }
  }

  /** Tried so far: the sizes between the two fronts, each once, never dpi, outward. */
  predicate Outward(sizes: seq<nat>, dpi: nat, tried: seq<nat>) {
    && (forall a | 0 <= a < |tried| :: tried[a] < |sizes| && sizes[tried[a]] != dpi)
    && forall a, b | 0 <= a < b < |tried| ::
         tried[a] != tried[b] && Dist(sizes[tried[a]], dpi) <= Dist(sizes[tried[b]], dpi)
  }

  predicate Missed(sizes: seq<nat>, tried: seq<nat>, available: set<nat>) {
    forall a | 0 <= a < |tried| :: tried[a] < |sizes| && sizes[tried[a]] !in available
  }

  /** loc has just been added to the sizes between the fronts; the fronts are
      farther than everything between them. */
  predicate Fronts(sizes: seq<nat>, dpi: nat, lower: int, upper: int, loc: int) {
    && -1 <= lower < loc < upper <= |sizes|
    && (forall i | lower < i < upper :: Dist(sizes[i], dpi) <= Dist(sizes[loc], dpi))
    && (forall j | 0 <= j <= lower :: sizes[j] < dpi && Dist(sizes[loc], dpi) <= Dist(sizes[j], dpi))
    && (!DoubledBelow(sizes, dpi) ==> forall j | upper <= j < |sizes| ::
          dpi <= sizes[j] && Dist(sizes[loc], dpi) <= Dist(sizes[j], dpi))
    && (DoubledBelow(sizes, dpi) ==>
          var near := Nearest(sizes, dpi, |sizes|); upper == near + 1 && loc == lower + 1 && loc <= near)
  }

  lemma FrontsStart(sizes: seq<nat>, dpi: nat)
    requires SizeList(sizes) && sizes != [] && dpi < IntMax
    ensures var loc := Nearest(sizes, dpi, |sizes|); Fronts(sizes, dpi, loc - 1, loc + 1, loc)
  {
    Sides(sizes, dpi);
  }

  /** How far a front is, as the C code measures it. */
  function LowerDiff(sizes: seq<nat>, dpi: nat, lower: int): nat
    requires lower < |sizes| && SizeList(sizes)
  {
    if lower > -1 then USub(dpi, sizes[lower]) else IntMax
  }

  function UpperDiff(sizes: seq<nat>, dpi: nat, upper: nat): nat
    requires dpi < IntMax
  {
    if upper < |sizes| then USub(sizes[upper], dpi) else IntMax
  }

  lemma Diffs(sizes: seq<nat>, dpi: nat, lower: int, upper: int, loc: int)
    requires SizeList(sizes) && sizes != [] && dpi < IntMax && Fronts(sizes, dpi, lower, upper, loc)
    ensures -1 <= lower < loc < upper <= |sizes| && (lower > -1 ==> sizes[lower] < dpi)
    ensures !DoubledBelow(sizes, dpi) && upper < |sizes| ==> dpi <= sizes[upper]
    ensures LowerDiff(sizes, dpi, lower) == if lower > -1 then dpi - sizes[lower] else IntMax
    ensures DoubledBelow(sizes, dpi) ==> upper < |sizes| && UpperDiff(sizes, dpi, upper) > IntMax
    ensures !DoubledBelow(sizes, dpi) ==>
      UpperDiff(sizes, dpi, upper) == if upper < |sizes| then sizes[upper] - dpi else IntMax
  {
    hide USub, Nearest;
    Sides(sizes, dpi);
    if lower > -1 {
      UnsignedDiff(dpi, sizes[lower]);
    }
    if upper < |sizes| {
      UnsignedDiff(sizes[upper], dpi);
    }
  }

  /** With the doubled size ahead the search can only go down. */
  lemma DownStep(sizes: seq<nat>, dpi: nat, lower: int, upper: int, loc: int)
    requires SizeList(sizes) && sizes != [] && dpi < IntMax && Fronts(sizes, dpi, lower, upper, loc)
    requires lower > -1
    requires DoubledBelow(sizes, dpi) || upper == |sizes| || dpi - sizes[lower] <= sizes[upper] - dpi
    ensures Fronts(sizes, dpi, lower - 1, upper, lower)
  {
  }

  lemma UpStep(sizes: seq<nat>, dpi: nat, lower: int, upper: int, loc: int)
    requires SizeList(sizes) && sizes != [] && dpi < IntMax && Fronts(sizes, dpi, lower, upper, loc)
    requires !DoubledBelow(sizes, dpi) && upper < |sizes|
    requires lower == -1 || sizes[upper] - dpi <= dpi - sizes[lower]
    ensures Fronts(sizes, dpi, lower, upper + 1, upper)
  {
  }

  /** All sizes between the fronts but the last one have been tried, in vain. */
  predicate TriedBetween(sizes: seq<nat>, dpi: nat, lower: int, upper: int, loc: int, tried: seq<nat>,
                         available: set<nat>) {
    && upper <= |sizes| && -1 <= lower
    && Outward(sizes, dpi, tried) && Missed(sizes, tried, available)
    && (forall i | lower < i < upper && i != loc && sizes[i] != dpi :: i in tried)
    && forall a | 0 <= a < |tried| :: lower < tried[a] < upper && tried[a] != loc
  }

  lemma TryHere(sizes: seq<nat>, dpi: nat, lower: int, upper: int, loc: int, tried: seq<nat>, available: set<nat>)
    requires Fronts(sizes, dpi, lower, upper, loc) && TriedBetween(sizes, dpi, lower, upper, loc, tried, available)
    requires sizes[loc] != dpi
    ensures Outward(sizes, dpi, tried + [loc])
    ensures sizes[loc] !in available ==> Missed(sizes, tried + [loc], available)
  {
  }

  /** What is found is closest. */
  lemma NoneCloser(sizes: seq<nat>, dpi: nat, lower: int, upper: int, loc: int, tried: seq<nat>, available: set<nat>,
                   i: nat)
    requires Fronts(sizes, dpi, lower, upper, loc) && TriedBetween(sizes, dpi, lower, upper, loc, tried, available)
    requires !DoubledBelow(sizes, dpi) && i < |sizes| && sizes[i] != dpi && sizes[i] in available
    ensures Dist(sizes[loc], dpi) <= Dist(sizes[i], dpi)
  {
  }

  /** Going on in one direction. */
  lemma TriedOn(sizes: seq<nat>, dpi: nat, lower: int, upper: int, loc: int, tried: seq<nat>, available: set<nat>,
                tried': seq<nat>)
    requires Fronts(sizes, dpi, lower, upper, loc) && TriedBetween(sizes, dpi, lower, upper, loc, tried, available)
    requires tried' == if sizes[loc] == dpi then tried else tried + [loc]
    requires Outward(sizes, dpi, tried') && Missed(sizes, tried', available)
    ensures lower > -1 ==> TriedBetween(sizes, dpi, lower - 1, upper, lower, tried', available)
    ensures upper < |sizes| ==> TriedBetween(sizes, dpi, lower, upper + 1, upper, tried', available)
    ensures forall i | lower < i < upper && sizes[i] != dpi :: i in tried' && sizes[i] !in available
  {
    assert sizes[loc] != dpi ==> tried'[|tried|] == loc;
    forall i | lower < i < upper && sizes[i] != dpi
      ensures i in tried' && sizes[i] !in available
    {
      assert i != loc ==> i in tried;
    }
  }

  /** No available size but dpi is closer. */
  predicate Closest(sizes: seq<nat>, dpi: nat, available: set<nat>, size: nat) {
    forall i | 0 <= i < |sizes| && sizes[i] != dpi && sizes[i] in available :: Dist(size, dpi) <= Dist(sizes[i], dpi)
  }

  /** The last available size up to n. */
  predicate LastUpTo(sizes: seq<nat>, available: set<nat>, n: nat, size: nat)
    requires n < |sizes|
  {
    size in available && exists i | 0 <= i <= n :: sizes[i] == size && forall h | i < h <= n :: sizes[h] !in available
  }

  /** The outcome of the search.  The attempts go outward, each size once.  Unless the
      closest size is doubled below dpi, what is found is closest among what is
      available, and nothing is found only if nothing is available.  If it is doubled,
      only the sizes up to it are tried, and if none is available the search runs off
      the list. */
  predicate Outcomes(sizes: seq<nat>, dpi: nat, available: set<nat>, r: Outcome, tried: seq<nat>) {
    && Outward(sizes, dpi, tried)
    && (r.OutOfBounds? <==>
          DoubledBelow(sizes, dpi) && forall i | 0 <= i <= Nearest(sizes, dpi, |sizes|) :: sizes[i] !in available)
    && (r.NotFound? ==> Missed(sizes, tried, available) && forall i | 0 <= i < |sizes| && sizes[i] != dpi :: i in tried)
    && (r.Found? ==>
          && tried != [] && r.size == sizes[tried[|tried| - 1]] && r.size in available
          && Missed(sizes, tried[..|tried| - 1], available))
    && (!DoubledBelow(sizes, dpi) && r.Found? ==> Closest(sizes, dpi, available, r.size))
    && (DoubledBelow(sizes, dpi) && r.Found? ==> LastUpTo(sizes, available, Nearest(sizes, dpi, |sizes|), r.size))
  }

  /** Whether a size that was found is closest: always, unless the closest size of the
      list is doubled below dpi; then exactly if no available size above it is closer
      than all the available ones up to it. */
  lemma FoundIsClosestIff(sizes: seq<nat>, dpi: nat, available: set<nat>, r: Outcome, tried: seq<nat>)
    requires SizeList(sizes) && sizes != [] && dpi < IntMax && r.Found? && Outcomes(sizes, dpi, available, r, tried)
    ensures Closest(sizes, dpi, available, r.size) <==>
      (DoubledBelow(sizes, dpi) ==> var near := Nearest(sizes, dpi, |sizes|);
        forall j | near < j < |sizes| && sizes[j] in available ::
          exists i | 0 <= i <= near :: sizes[i] in available && Dist(sizes[i], dpi) <= Dist(sizes[j], dpi))
  {
    hide Outward, Missed, Nearest, SizeList, Closest;
    if DoubledBelow(sizes, dpi) {
      LastIsBest(sizes, dpi, available, r.size);
    }
  }

  /** Below dpi the last available size is the closest one. */
  lemma LastIsBest(sizes: seq<nat>, dpi: nat, available: set<nat>, size: nat)
    requires SizeList(sizes) && sizes != [] && dpi < IntMax && DoubledBelow(sizes, dpi)
    requires LastUpTo(sizes, available, Nearest(sizes, dpi, |sizes|), size)
    ensures var near := Nearest(sizes, dpi, |sizes|);
      && (exists i | 0 <= i <= near :: sizes[i] == size && sizes[i] in available)
      && (forall i | 0 <= i <= near && sizes[i] in available :: Dist(size, dpi) <= Dist(sizes[i], dpi))
      && (forall i | 0 <= i < |sizes| :: sizes[i] != dpi)
      && (Closest(sizes, dpi, available, size) <==>
            forall j | near < j < |sizes| && sizes[j] in available :: Dist(size, dpi) <= Dist(sizes[j], dpi))
  {
    hide Nearest;
    var near := Nearest(sizes, dpi, |sizes|);
    Sides(sizes, dpi);
    var i :| 0 <= i <= near && sizes[i] == size && forall h | i < h <= near :: sizes[h] !in available;
    assert forall h | 0 <= h <= near && sizes[h] in available :: h <= i;
  }

  /** A list for which a farther size is found: 100 comes twice, so 130 is never tried. */
  lemma FartherIsFound(r: Outcome, tried: seq<nat>)
    requires Outcomes([10, 100, 100, 130], 110, {10, 130}, r, tried)
    ensures r == Found(10) && !Closest([10, 100, 100, 130], 110, {10, 130}, 10)
  {
    var sizes := [10, 100, 100, 130];
    hide Outward, Missed;
    assert Nearest(sizes, 110, 1) == 0 && Nearest(sizes, 110, 2) == 1 && Nearest(sizes, 110, 3) == 1
      && Nearest(sizes, 110, 4) == 1;
    assert sizes[0] == 10 && sizes[3] == 130;
  }

  /** A list the search runs off: its only size is below dpi, comes twice and is not
      available. */
  lemma RunsOff(r: Outcome, tried: seq<nat>)
    requires Outcomes([100, 100], 110, {}, r, tried)
    ensures r == OutOfBounds
  {
    assert Nearest([100, 100], 110, 1) == 0 && Nearest([100, 100], 110, 2) == 0;
  }

  lemma LastHere(sizes: seq<nat>, dpi: nat, lower: int, upper: int, loc: int, tried: seq<nat>, available: set<nat>)
    requires SizeList(sizes) && sizes != [] && dpi < IntMax && DoubledBelow(sizes, dpi)
    requires Fronts(sizes, dpi, lower, upper, loc) && TriedBetween(sizes, dpi, lower, upper, loc, tried, available)
    requires sizes[loc] != dpi && sizes[loc] in available
    ensures LastUpTo(sizes, available, Nearest(sizes, dpi, |sizes|), sizes[loc])
  {
    hide Nearest, DoubledBelow;
    var near := Nearest(sizes, dpi, |sizes|);
    InBounds(sizes, dpi, lower, upper, loc, tried, available);
    forall h | loc < h <= near
      ensures sizes[h] !in available
    {
      assert h in tried;
    }
  }

  lemma FoundHere(sizes: seq<nat>, dpi: nat, lower: int, upper: int, loc: int, tried: seq<nat>, available: set<nat>)
    requires SizeList(sizes) && sizes != [] && dpi < IntMax
    requires Fronts(sizes, dpi, lower, upper, loc) && TriedBetween(sizes, dpi, lower, upper, loc, tried, available)
    requires sizes[loc] != dpi && sizes[loc] in available
    ensures Outcomes(sizes, dpi, available, Found(sizes[loc]), tried + [loc])
  {
    hide Fronts, TriedBetween, Outward;
    InBounds(sizes, dpi, lower, upper, loc, tried, available);
    TryHere(sizes, dpi, lower, upper, loc, tried, available);
    assert (tried + [loc])[..|tried|] == tried;
    if DoubledBelow(sizes, dpi) {
      LastHere(sizes, dpi, lower, upper, loc, tried, available);
    }
    forall i | 0 <= i < |sizes| && sizes[i] != dpi && sizes[i] in available && !DoubledBelow(sizes, dpi)
      ensures Dist(sizes[loc], dpi) <= Dist(sizes[i], dpi)
    {
      NoneCloser(sizes, dpi, lower, upper, loc, tried, available, i);
    }
  }

  /** The attempt at loc failed, or loc is dpi itself. */
  predicate Failed(sizes: seq<nat>, dpi: nat, lower: int, upper: int, loc: int, tried: seq<nat>, tried': seq<nat>,
                   available: set<nat>)
  {
    && -1 <= lower < loc < upper <= |sizes|
    && tried' == (if sizes[loc] == dpi then tried else tried + [loc])
    && (sizes[loc] == dpi || sizes[loc] !in available)
  }

  lemma NoneFound(sizes: seq<nat>, dpi: nat, lower: int, upper: int, loc: int, tried: seq<nat>, tried': seq<nat>,
                  available: set<nat>)
    requires SizeList(sizes) && sizes != [] && dpi < IntMax
    requires Fronts(sizes, dpi, lower, upper, loc) && TriedBetween(sizes, dpi, lower, upper, loc, tried, available)
    requires Failed(sizes, dpi, lower, upper, loc, tried, tried', available) && lower == -1
    ensures upper == |sizes| && !DoubledBelow(sizes, dpi) ==> Outcomes(sizes, dpi, available, NotFound, tried')
    ensures DoubledBelow(sizes, dpi) ==> Outcomes(sizes, dpi, available, OutOfBounds, tried')
  {
    hide Fronts, TriedBetween, Outward, Missed, Nearest, IsNearest, SizeList;
    InBounds(sizes, dpi, lower, upper, loc, tried, available);
    if sizes[loc] != dpi {
      TryHere(sizes, dpi, lower, upper, loc, tried, available);
    }
    TriedOn(sizes, dpi, lower, upper, loc, tried, available, tried');
  }

  lemma GoOn(sizes: seq<nat>, dpi: nat, lower: int, upper: int, loc: int, tried: seq<nat>, tried': seq<nat>,
             available: set<nat>)
    requires SizeList(sizes) && sizes != [] && dpi < IntMax
    requires Fronts(sizes, dpi, lower, upper, loc) && TriedBetween(sizes, dpi, lower, upper, loc, tried, available)
    requires Failed(sizes, dpi, lower, upper, loc, tried, tried', available)
    ensures lower > -1 ==> TriedBetween(sizes, dpi, lower - 1, upper, lower, tried', available)
    ensures upper < |sizes| ==> TriedBetween(sizes, dpi, lower, upper + 1, upper, tried', available)
  {
    hide Fronts, TriedBetween, Outward;
    InBounds(sizes, dpi, lower, upper, loc, tried, available);
    if sizes[loc] != dpi {
      TryHere(sizes, dpi, lower, upper, loc, tried, available);
    }
    TriedOn(sizes, dpi, lower, upper, loc, tried, available, tried');
  }

  /** `try_fallback_resolutions`, given the sizes at which the font is available;
      `tried` logs the attempts. */
  method TryFallbackResolutions(sizes: seq<nat>, dpi: nat, available: set<nat>) returns (r: Outcome, tried: seq<nat>)
    requires SizeList(sizes) && dpi < IntMax
    ensures Outcomes(sizes, dpi, available, r, tried)
  {
    hide Fronts, TriedBetween, DoubledBelow, Outcomes, SizeList, IsNearest, Nearest, Outward, Missed;
    tried := [];
    if sizes == [] {
      NothingListed(dpi, available);
      return NotFound, tried;
    }
    var near := FindClosest(sizes, dpi);
    FrontsStart(sizes, dpi);
    var loc: int := near;
    var lower: int := loc - 1;
    var upper: int := loc + 1;
    TriedStart(sizes, dpi, near, available);
    while true
      invariant Fronts(sizes, dpi, lower, upper, loc) && TriedBetween(sizes, dpi, lower, upper, loc, tried, available)
      decreases lower + |sizes| - upper + 1
    {
      FrontOrder(sizes, dpi, lower, upper, loc);
      ghost var before := tried;
      var size := sizes[loc];
      if size != dpi {
        tried := tried + [loc];
        if size in available {
          FoundHere(sizes, dpi, lower, upper, loc, before, available);
          return Found(size), tried;
        }
      }
      GoOn(sizes, dpi, lower, upper, loc, before, tried, available);
      if lower == -1 {
        NoneFound(sizes, dpi, lower, upper, loc, before, tried, available);
      }
      var quit;
      quit, lower, upper, loc := NextFront(sizes, dpi, lower, upper, loc);
      if quit {
        return NotFound, tried;
      }
      if loc == -1 {
        return OutOfBounds, tried;
      }
    }
  }

  /** The end of a round: to the nearer front, or quit. */
  method NextFront(sizes: seq<nat>, dpi: nat, lower0: int, upper0: int, loc0: int)
      returns (quit: bool, lower: int, upper: int, loc: int)
    requires SizeList(sizes) && sizes != [] && dpi < IntMax && Fronts(sizes, dpi, lower0, upper0, loc0)
    ensures quit ==> lower0 == -1 && upper0 == |sizes| && !DoubledBelow(sizes, dpi)
    ensures !quit ==> || (loc == lower0 == lower + 1 && upper == upper0)
                      || (loc == upper0 == upper - 1 && lower == lower0 && upper <= |sizes|)
    ensures !quit && loc == -1 ==> DoubledBelow(sizes, dpi)
    ensures !quit && loc != -1 ==> Fronts(sizes, dpi, lower, upper, loc)
  {
    hide Fronts, DoubledBelow, LowerDiff, UpperDiff;
    Diffs(sizes, dpi, lower0, upper0, loc0);
    quit, lower, upper, loc := false, lower0, upper0, loc0;
    var l, u := LowerDiff(sizes, dpi, lower), UpperDiff(sizes, dpi, upper);
    if l == IntMax && u == IntMax {
      quit := true;
    } else if l < u {
      if lower > -1 {
        DownStep(sizes, dpi, lower, upper, loc);
      }
      loc := lower;
      lower := lower - 1;
    } else {
      UpStep(sizes, dpi, lower, upper, loc);
      loc := upper;
      upper := upper + 1;
    }
  }

  lemma NothingListed(dpi: nat, available: set<nat>)
    ensures Outcomes([], dpi, available, NotFound, [])
  {
  }

  lemma FrontOrder(sizes: seq<nat>, dpi: nat, lower: int, upper: int, loc: int)
    requires Fronts(sizes, dpi, lower, upper, loc)
    ensures -1 <= lower < loc < upper <= |sizes|
  {
  }

  lemma TriedStart(sizes: seq<nat>, dpi: nat, near: nat, available: set<nat>)
    requires near < |sizes|
    ensures TriedBetween(sizes, dpi, near - 1, near + 1, near, [], available) && Outward(sizes, dpi, [])
  {
  }

  lemma InBounds(sizes: seq<nat>, dpi: nat, lower: int, upper: int, loc: int, tried: seq<nat>, available: set<nat>)
    requires SizeList(sizes) && dpi < IntMax
    requires Fronts(sizes, dpi, lower, upper, loc) && TriedBetween(sizes, dpi, lower, upper, loc, tried, available)
    ensures -1 <= lower < loc < upper <= |sizes|
    ensures Outward(sizes, dpi, tried) && Missed(sizes, tried, available)
    ensures DoubledBelow(sizes, dpi) ==> upper == Nearest(sizes, dpi, |sizes|) + 1
    ensures DoubledBelow(sizes, dpi) ==> forall i | 0 <= i < upper :: sizes[i] < dpi
    ensures loc <= Nearest(sizes, dpi, |sizes|) || !DoubledBelow(sizes, dpi)
  {
  }
}
