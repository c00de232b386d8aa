/** Matching a file name against a path element with `//` wildcards: `match` of
    libs/kpathsea/db.c. */
module DbMatch {

  // --------------------------------------------------------------- the matcher

  /** The two cursors advance together: how far they agree. */
  function Common(f: string, p: string, k: nat): (r: nat)
    requires k <= |f| && k <= |p|
    ensures k <= r <= |f| && r <= |p|
    ensures forall i | k <= i < r :: f[i] == p[i]
    ensures r < |f| && r < |p| ==> f[r] != p[r]
    decreases |p| - k
  {
    if k < |f| && k < |p| && f[k] == p[k] then Common(f, p, k + 1) else k
  }

  function SkipSlashes(p: string, k: nat): (j: nat)
    requires k <= |p|
    ensures k <= j <= |p|
    ensures (forall i | k <= i < j :: p[i] == '/') && (j < |p| ==> p[j] != '/')
    decreases |p| - k
  {
    if k < |p| && p[k] == '/' then SkipSlashes(p, k + 1) else k
  }

  /** At most one slash, then the last component. */
  predicate LastComponent(r: string) {
    '/' !in if r != "" && r[0] == '/' then r[1..] else r
  }

  /** What `match` returns. */
  predicate Matches(f: string, p: string)
    decreases |p|, 0
  {
    var k := Common(f, p, 0);
    if k == |p| then LastComponent(f[k..])
    else if k == |f| || !Wild(p, k) then false
    else
      var j := SkipSlashes(p, k);
      j == |p| || MatchesLater(f, k, p[j..])
  }

  /** The second slash of a doubled one is at k. */
  predicate Wild(p: string, k: nat)
    requires k < |p|
  {
    k > 0 && p[k - 1] == '/' && p[k] == '/'
  }

  /** Some place after a slash, from k on, where the rest of the element matches. */
  predicate MatchesLater(f: string, k: nat, rest: string)
    requires 0 < k && rest != ""
    decreases |rest|, 1
  {
    exists i | k <= i < |f| :: f[i - 1] == '/' && f[i] == rest[0] && Matches(f[i..], rest)
  }

  /** Trying every position after a slash. */
  method MatchRest(f: string, k: nat, rest: string) returns (matched: bool)
    requires 0 < k && rest != ""
    ensures matched == MatchesLater(f, k, rest)
    decreases |rest|, 1
  {
    matched := false;
    var i := k;
    while !matched && i < |f|
      invariant k <= i
      invariant matched <==> exists h | k <= h < i && h < |f| ::
        f[h - 1] == '/' && f[h] == rest[0] && Matches(f[h..], rest)
    {
      if f[i - 1] == '/' && f[i] == rest[0] {
        matched := Match(f[i..], rest);
      }
      i := i + 1;
    }
  }

  method AtLastComponent(f: string, k: nat) returns (matched: bool)
    requires k <= |f|
    ensures matched == LastComponent(f[k..])
  {
    var i := if k < |f| && f[k] == '/' then k + 1 else k;
    ghost var i0 := i;
    assert f[i0..] == if f[k..] != "" && f[k..][0] == '/' then f[k..][1..] else f[k..];
    while i < |f| && f[i] != '/'
      invariant i0 <= i <= |f| && '/' !in f[i0..i]
    {
      i := i + 1;
    }
    matched := i == |f|;
    assert i < |f| ==> f[i] == f[i0..][i - i0];
    assert i == |f| ==> f[i0..i] == f[i0..];
  }

  method Match(f: string, p: string) returns (matched: bool)
    ensures matched == Matches(f, p)
    decreases |p|, 0
  {
    hide Matches, MatchesLater;
    var k := 0;
    while k < |f| && k < |p| && f[k] == p[k]
      invariant k <= |f| && k <= |p| && Common(f, p, k) == Common(f, p, 0)
    {
      k := k + 1;
    }
    MatchesAt(f, p, k);
    if k < |f| && k < |p| && p[k] == '/' && k > 0 && p[k - 1] == '/' {
      var j := k;
      while j < |p| && p[j] == '/'
        invariant k <= j <= |p| && SkipSlashes(p, j) == SkipSlashes(p, k)
      {
        j := j + 1;
      }
      if j == |p| {
        return true;
      }
      matched := MatchRest(f, k, p[j..]);
    } else if k == |p| {
      matched := AtLastComponent(f, k);
    } else {
      matched := false;
    }
  }

  // --------------------------------------------------------------- the meaning

  /** The first index whose character and predecessor are both slashes. */
  function FirstRun(p: string, k: nat): (r: nat)
    requires 1 <= k && (k <= |p| || p == "")
    ensures k <= r && (r <= |p| || p == "")
    ensures r < |p| ==> p[r - 1] == '/' && p[r] == '/'
    ensures forall i | k <= i < r && i < |p| :: p[i - 1] != '/' || p[i] != '/'
    decreases |p| - k
  {
    if k < |p| && (p[k - 1] != '/' || p[k] != '/') then FirstRun(p, k + 1) else k
  }

  /** The literal parts of p between runs of two or more slashes.  A part keeps
      the first slash of the run that ends it; a run at the end of p leaves an
      empty last part. */
  function Segments(p: string): (segs: seq<string>)
    ensures segs != []
    decreases |p|
  {
    var k := FirstRun(p, 1);
    if k >= |p| then [p] else [p[..k]] + Segments(p[SkipSlashes(p, k)..])
  }

  /** The parts stand in f in order, the first at the start, each later one
      somewhere after a slash; after the last comes the last component of f, or,
      when p ends in a wildcard, anything but nothing. */
  ghost predicate Placed(f: string, segs: seq<string>)
    requires segs != []
    decreases |segs|, 0
  {
    && segs[0] <= f
    && if |segs| == 1 then LastComponent(f[|segs[0]|..])
       else PlacedLater(f, |segs[0]|, segs[1..])
  }

  ghost predicate PlacedLater(f: string, r: nat, segs: seq<string>)
    requires segs != []
    decreases |segs|, 2
  {
    exists d | r <= d <= |f| :: NextPlaced(f, d, segs)
  }

  ghost predicate NextPlaced(f: string, d: nat, segs: seq<string>)
    requires segs != [] && d <= |f|
    decreases |segs|, 1
  {
    d > 0 && f[d - 1] == '/' && if segs == [""] then d < |f| else Placed(f[d..], segs)
  }

  ghost predicate Means(f: string, p: string) {
    Placed(f, Segments(p))
  }

  /** f[i] is the second of two slashes. */
  predicate Doubled(f: string, i: nat)
    requires i < |f|
  {
    i > 0 && f[i - 1] == '/' && f[i] == '/'
  }

  /** A doubled slash stands only before the last component, and only two slashes. */
  predicate LateDouble(f: string) {
    forall i | 0 <= i < |f| && Doubled(f, i) :: i + 1 < |f| && '/' !in f[i + 1..]
  }

  /** The meaning taken apart at the first wildcard of p. */
  ghost predicate MeansLater(f: string, r: nat, rest: string) {
    exists d | r <= d <= |f| :: MeansFrom(f, d, rest)
  }

  ghost predicate MeansFrom(f: string, d: nat, rest: string)
    requires d <= |f|
  {
    d > 0 && f[d - 1] == '/' && if rest == "" then d < |f| else Means(f[d..], rest)
  }

  lemma SegmentsAt(p: string)
    ensures var r := FirstRun(p, 1);
      Segments(p) == if r >= |p| then [p] else [p[..r]] + Segments(p[SkipSlashes(p, r)..])
  {
  }

  lemma NextPlacedAt(f: string, d: nat, rest: string)
    requires d <= |f| && (rest != "" ==> rest[0] != '/')
    ensures NextPlaced(f, d, Segments(rest)) == MeansFrom(f, d, rest)
  {
    hide Segments, Placed;
    if rest == "" {
      SegmentsAt(rest);
    } else {
      SegmentsStart(rest);
    }
  }

  lemma PlacedAt(f: string, s: string, segs: seq<string>)
    ensures Placed(f, [s]) == (s <= f && LastComponent(f[|s|..]))
    ensures segs != [] ==> Placed(f, [s] + segs) == (s <= f && PlacedLater(f, |s|, segs))
  {
    hide PlacedLater;
    assert ([s] + segs)[1..] == segs;
  }

  lemma PlacedLaterAt(f: string, r: nat, rest: string)
    requires rest != "" ==> rest[0] != '/'
    ensures PlacedLater(f, r, Segments(rest)) == MeansLater(f, r, rest)
  {
    hide Segments, NextPlaced, MeansFrom;
    forall d | r <= d <= |f|
      ensures NextPlaced(f, d, Segments(rest)) == MeansFrom(f, d, rest)
    {
      NextPlacedAt(f, d, rest);
    }
  }

  lemma MeansAt(f: string, p: string)
    ensures var r := FirstRun(p, 1);
      Means(f, p) == if r >= |p| then p <= f && LastComponent(f[|p|..])
                     else p[..r] <= f && MeansLater(f, r, p[SkipSlashes(p, r)..])
  {
    hide Segments, Placed, PlacedLater, MeansLater;
    var r := FirstRun(p, 1);
    SegmentsAt(p);
    PlacedAt(f, p, []);
    if r < |p| {
      var rest := p[SkipSlashes(p, r)..];
      PlacedAt(f, p[..r], Segments(rest));
      PlacedLaterAt(f, r, rest);
    }
  }

  lemma SegmentsStart(p: string)
    requires p != "" && p[0] != '/'
    ensures var s := Segments(p)[0]; s != "" && s[0] == p[0]
  {
  }

  lemma MeansStart(f: string, p: string)
    requires Means(f, p) && p != "" && p[0] != '/'
    ensures f != "" && f[0] == p[0]
  {
    SegmentsStart(p);
  }

  lemma MatchesAt(f: string, p: string, k: nat)
    requires k == Common(f, p, 0)
    ensures k == |p| ==> Matches(f, p) == LastComponent(f[k..])
    ensures k < |p| && !Wild(p, k) ==> !Matches(f, p)
    ensures k < |p| && Wild(p, k) ==>
      Matches(f, p) == (k < |f| && (SkipSlashes(p, k) == |p| || MatchesLater(f, k, p[SkipSlashes(p, k)..])))
  {
  }

  lemma MatchesLaterDrop(f: string, k: nat, rest: string, j: nat)
    requires 0 <= j < k && rest != ""
    ensures MatchesLater(f, k, rest) == (j <= |f| && MatchesLater(f[j..], k - j, rest))
  {
    hide Matches;
    if MatchesLater(f, k, rest) {
      var i :| k <= i < |f| && f[i - 1] == '/' && f[i] == rest[0] && Matches(f[i..], rest);
      assert f[j..][i - j..] == f[i..] && f[j..][i - j] == f[i] && f[j..][i - j - 1] == f[i - 1];
    }
    if j <= |f| && MatchesLater(f[j..], k - j, rest) {
      var g := f[j..];
      var i :| k - j <= i < |g| && g[i - 1] == '/' && g[i] == rest[0] && Matches(g[i..], rest);
      assert g[i..] == f[i + j..] && g[i] == f[i + j] && g[i - 1] == f[i + j - 1];
    }
  }

  /** Agreement in front can be dropped when no wildcard is cut in two. */
  lemma MatchesDrop(f: string, p: string, j: nat)
    requires 0 < j <= Common(f, p, 0) && j < |p| && p[j] != '/'
    ensures Matches(f, p) == Matches(f[j..], p[j..])
  {
    hide Matches, MatchesLater, Common, LastComponent, SkipSlashes, Wild;
    var k := Common(f, p, 0);
    CommonDrop(f, p, j);
    MatchesAt(f, p, k);
    MatchesAt(f[j..], p[j..], k - j);
    assert f[j..][k - j..] == f[k..];
    WildDrop(p, j, k);
    if j < k < |p| && k < |f| && Wild(p, k) {
      SkipDrop(p, j, k);
      var e := SkipSlashes(p, k);
      assert p[j..][e - j..] == p[e..];
      if e < |p| {
        MatchesLaterDrop(f, k, p[e..], j);
      }
    }
  }

  lemma WildDrop(p: string, j: nat, k: nat)
    requires 0 < j <= k <= |p| && j < |p| && p[j] != '/'
    ensures k < |p| ==> (Wild(p, k) <==> Wild(p[j..], k - j)) && p[j..][k - j] == p[k]
    ensures k == j ==> !Wild(p, k)
  {
    assert k < |p| ==> p[j..][k - j] == p[k] && (j < k ==> p[j..][k - j - 1] == p[k - 1]);
  }

  lemma CommonDrop(f: string, p: string, j: nat)
    requires j <= Common(f, p, 0)
    ensures Common(f[j..], p[j..], 0) == Common(f, p, 0) - j
  {
    var k := Common(f, p, 0);
    CommonIs(f[j..], p[j..], 0, k - j);
  }

  lemma {:induction false} CommonIs(f: string, p: string, k: nat, r: nat)
    requires k <= r <= |f| && r <= |p|
    requires forall i | k <= i < r :: f[i] == p[i]
    requires r < |f| && r < |p| ==> f[r] != p[r]
    ensures Common(f, p, k) == r
    decreases r - k
  {
    if k < r {
      CommonIs(f, p, k + 1, r);
    }
  }

  lemma {:induction false} SkipDrop(p: string, j: nat, k: nat)
    requires j <= k <= |p|
    ensures SkipSlashes(p[j..], k - j) == SkipSlashes(p, k) - j
    decreases |p| - k
  {
    if k < |p| && p[k] == '/' {
      SkipDrop(p, j, k + 1);
    }
  }

  /** Whatever is accepted has the meaning, for every file name. */
  lemma {:induction false} MatchesMeans(f: string, p: string)
    requires Matches(f, p)
    ensures Means(f, p)
    decreases |p|
  {
    hide Matches, MatchesLater, Means, MeansLater;
    var k, r := Common(f, p, 0), FirstRun(p, 1);
    MatchesAt(f, p, k);
    MeansAt(f, p);
    assert p[..k] == f[..k];
    if r < |p| {
      var j := SkipSlashes(p, r);
      assert f[r - 1] == '/';
      assert p[..r] == f[..r];
      MatchesMeansRest(f, p, k, r, j);
    }
  }

  lemma {:induction false} MatchesMeansRest(f: string, p: string, k: nat, r: nat, j: nat)
    requires Matches(f, p) && k == Common(f, p, 0) && r == FirstRun(p, 1) < |p| && j == SkipSlashes(p, r)
    ensures MeansLater(f, r, p[j..])
    decreases |p|, 0
  {
    hide Matches, Means;
    MatchesAt(f, p, k);
    assert r <= k;
    assert f[r - 1] == p[r - 1];
    if j == |p| {
      assert MeansFrom(f, r, p[j..]);
    } else if j <= k {
      assert f[j - 1] == p[j - 1];
      MatchesDrop(f, p, j);
      MatchesMeans(f[j..], p[j..]);
      assert MeansFrom(f, j, p[j..]);
    } else {
      SkipWithin(p, r, k);
      var i :| k <= i < |f| && f[i - 1] == '/' && f[i] == p[j] && Matches(f[i..], p[j..]);
      MatchesMeans(f[i..], p[j..]);
      assert MeansFrom(f, i, p[j..]);
    }
  }

  lemma {:induction false} SkipWithin(p: string, r: nat, k: nat)
    requires r <= |p| && r <= k <= SkipSlashes(p, r)
    ensures SkipSlashes(p, k) == SkipSlashes(p, r)
    decreases k - r
  {
    if r < k {
      SkipWithin(p, r + 1, k);
    }
  }

  lemma LateDoubleSuffix(f: string, d: nat)
    requires LateDouble(f) && d <= |f|
    ensures LateDouble(f[d..])
  {
    var g := f[d..];
    forall i | 0 <= i < |g| && Doubled(g, i)
      ensures i + 1 < |g| && '/' !in g[i + 1..]
    {
      assert g[i] == f[d + i] && g[i - 1] == f[d + i - 1] && Doubled(f, d + i);
      assert g[i + 1..] == f[d + i + 1..];
    }
  }

  /** A name with slashes doubled at most before the last component is accepted if
      it has the meaning. */
  lemma {:induction false} MeansMatches(f: string, p: string)
    requires Means(f, p) && LateDouble(f)
    ensures Matches(f, p)
    decreases |p|
  {
    hide Matches, MatchesLater, Means, MeansLater, LateDouble;
    var r := FirstRun(p, 1);
    MatchesAt(f, p, Common(f, p, 0));
    MeansAt(f, p);
    CommonOfPrefix(f, p, if r < |p| then r else |p|);
    if r < |p| {
      WildNotEnd(f, p, r);
      if f[r] == '/' {
        MeansMatchesLate(f, p, r, SkipSlashes(p, r));
      } else {
        CommonIs(f, p, 0, r);
        MeansMatchesRest(f, p, r, SkipSlashes(p, r), r);
      }
    }
  }

  lemma WildNotEnd(f: string, p: string, r: nat)
    requires r == FirstRun(p, 1) < |p| && MeansLater(f, r, p[SkipSlashes(p, r)..])
    ensures r < |f|
  {
    hide Means;
    var rest := p[SkipSlashes(p, r)..];
    var d :| r <= d <= |f| && MeansFrom(f, d, rest);
    if rest != "" {
      MeansStart(f[d..], rest);
    }
  }

  /** The place the meaning names is one the loop tries. */
  lemma {:induction false} MeansMatchesRest(f: string, p: string, r: nat, j: nat, k: nat)
    requires LateDouble(f) && r == FirstRun(p, 1) < |p| && j == SkipSlashes(p, r) && MeansLater(f, r, p[j..])
    requires r <= k < |f| && (k == r || (k == r + 1 && f[r - 1] == '/' && f[r] == '/'))
    ensures j < |p| ==> MatchesLater(f, k, p[j..])
    decreases |p|, 0
  {
    hide Matches, Means, LateDouble;
    var rest := p[j..];
    if j < |p| {
      var d :| r <= d <= |f| && MeansFrom(f, d, rest);
      MeansStart(f[d..], rest);
      LateDoubleSuffix(f, d);
      MeansMatches(f[d..], rest);
      assert d >= k;
    }
  }

  /** Where f doubles the slash too. */
  lemma {:induction false} MeansMatchesLate(f: string, p: string, r: nat, j: nat)
    requires LateDouble(f) && r == FirstRun(p, 1) < |p| && j == SkipSlashes(p, r) && MeansLater(f, r, p[j..])
    requires p[..r] <= f && r < |f| && f[r] == '/'
    ensures Matches(f, p)
    decreases |p|, 1
  {
    hide Matches, MatchesLater, Means, MeansLater;
    CommonOfPrefix(f, p, r);
    assert f[r - 1] == p[r - 1] && Doubled(f, r);
    var tail := f[r + 1..];
    assert tail != "" && tail[0] == f[r + 1] && tail[0] in tail;
    if j > r + 1 {
      CommonIs(f, p, 0, r + 1);
      MatchesAt(f, p, r + 1);
      SkipWithin(p, r, r + 1);
      MeansMatchesRest(f, p, r, j, r + 1);
    } else {
      assert Common(f, p, 0) >= j by { CommonAtLeast(f, p, j); }
      if j == |p| {
        MatchesAt(f, p, j);
      } else {
        MeansBehindDouble(f, r, p[j..]);
        LateDoubleSuffix(f, j);
        MeansMatches(f[j..], p[j..]);
        MatchesDrop(f, p, j);
      }
    }
  }

  lemma CommonAtLeast(f: string, p: string, j: nat)
    requires j <= |f| && j <= |p| && forall i | 0 <= i < j :: f[i] == p[i]
    ensures Common(f, p, 0) >= j
  {
  }

  lemma MeansBehindDouble(f: string, r: nat, rest: string)
    requires LateDouble(f) && r < |f| && Doubled(f, r) && rest != "" && rest[0] != '/' && MeansLater(f, r, rest)
    ensures r + 1 < |f| && Means(f[r + 1..], rest)
  {
    hide Means;
    var d :| r <= d <= |f| && MeansFrom(f, d, rest);
    MeansStart(f[d..], rest);
    NoSlashBehind(f, r + 1);
  }

  lemma NoSlashBehind(f: string, k: nat)
    requires k <= |f| && '/' !in f[k..]
    ensures forall h | k <= h < |f| :: f[h] != '/'
  {
    forall h | k <= h < |f|
      ensures f[h] != '/'
    {
      assert f[k..][h - k] == f[h];
    }
  }

  lemma CommonOfPrefix(f: string, p: string, r: nat)
    requires r <= |p| && p[..r] <= f
    ensures Common(f, p, 0) >= r
    ensures forall i | 0 <= i < r :: f[i] == p[i]
  {
    assert forall i | 0 <= i < r :: p[..r][i] == p[i];
  }

  /** Which file names the matcher gets right, for every path element: those whose
      slashes are doubled at most before the last component.  Elsewhere a doubled
      slash can be taken literally, and the wildcard is never tried. */
  lemma MatchesIffMeans(f: string)
    ensures (forall p :: Matches(f, p) == Means(f, p)) <==> LateDouble(f)
  {
    hide Matches, Means;
    if LateDouble(f) {
      forall p
        ensures Matches(f, p) == Means(f, p)
      {
        if Matches(f, p) {
          MatchesMeans(f, p);
        }
        if Means(f, p) {
          MeansMatches(f, p);
        }
      }
    } else {
      var p := Hidden(f);
      assert Matches(f, p) != Means(f, p);
    }
  }

  /** A path element that a name with an early doubled slash has the meaning of, but
      that is rejected. */
  lemma Hidden(f: string) returns (p: string)
    requires !LateDouble(f)
    ensures Means(f, p) && !Matches(f, p)
  {
    hide Matches, Means, FirstRun, LateDouble;
    var i := FirstDouble(f);
    if i + 1 == |f| {
      p := f + "/";
      HiddenAtEnd(f, i, p);
    } else if !LastComponent(f[i + 1..]) {
      p := f[..i + 1];
      HiddenByComponents(f, i, p);
    } else if i + 2 == |f| {
      p := f + "/";
      HiddenAtEnd(f, i, p);
    } else {
      p := f[..i + 1] + f[i + 2..];
      HiddenBySlashes(f, i, p);
    }
  }

  /** The first doubled slash. */
  lemma FirstDouble(f: string) returns (i: nat)
    requires !LateDouble(f)
    ensures 0 < i < |f| && Doubled(f, i) && FirstRun(f, 1) == i
    ensures i + 1 == |f| || '/' in f[i + 1..]
    ensures forall g: string | |g| > i && g[..i + 1] == f[..i + 1] :: FirstRun(g, 1) == i
  {
    i := FirstRun(f, 1);
    var v :| 0 <= v < |f| && Doubled(f, v) && (v + 1 == |f| || '/' in f[v + 1..]);
    assert i <= v;
    assert v > i ==> f[i + 1..][v - i - 1] == '/';
    assert v == i || '/' in f[i + 1..];
    forall g: string | |g| > i && g[..i + 1] == f[..i + 1]
      ensures FirstRun(g, 1) == i
    {
      assert forall h | 0 <= h <= i :: g[h] == g[..i + 1][h] == f[h];
    }
  }

  lemma {:induction false} AllSlashes(p: string, k: nat)
    requires k <= |p| && forall i | k <= i < |p| :: p[i] == '/'
    ensures SkipSlashes(p, k) == |p|
    decreases |p| - k
  {
    if k < |p| {
      AllSlashes(p, k + 1);
    }
  }

  /** The name ends in its slashes and the element has one more. */
  lemma HiddenAtEnd(f: string, i: nat, p: string)
    requires 0 < i < |f| && Doubled(f, i) && (forall h | i <= h < |f| :: f[h] == '/') && p == f + "/"
      && FirstRun(p, 1) == i
    ensures Means(f, p) && !Matches(f, p)
  {
    hide Matches, Means, MeansLater;
    CommonIs(f, p, 0, |f|);
    MatchesAt(f, p, |f|);
    AllSlashes(p, i);
    MeansAt(f, p);
    assert p[..i] == f[..i] && p[|p|..] == "";
    MeansAnything(f, i);
  }

  lemma MeansAnything(f: string, i: nat)
    requires 0 < i < |f| && f[i - 1] == '/'
    ensures MeansLater(f, i, "")
  {
    assert MeansFrom(f, i, "");
  }

  /** The element ends in a wildcard that is taken literally. */
  lemma HiddenByComponents(f: string, i: nat, p: string)
    requires 0 < i < |f| && Doubled(f, i) && p == f[..i + 1] && FirstRun(p, 1) == i && !LastComponent(f[i + 1..])
    ensures Means(f, p) && !Matches(f, p)
  {
    hide Matches, Means, MeansLater;
    CommonIs(f, p, 0, i + 1);
    MatchesAt(f, p, i + 1);
    AllSlashes(p, i);
    MeansAt(f, p);
    assert p[..i] == f[..i] && p[|p|..] == "";
    MeansAnything(f, i);
  }

  /** The name has three slashes, the element two. */
  lemma HiddenBySlashes(f: string, i: nat, p: string)
    requires 0 < i && i + 2 < |f| && Doubled(f, i) && f[i + 1] == '/' && '/' !in f[i + 2..]
    requires p == f[..i + 1] + f[i + 2..] && FirstRun(p, 1) == i
    ensures Means(f, p) && !Matches(f, p)
  {
    hide Matches, Means, MeansLater;
    var rest := f[i + 2..];
    assert rest[0] in rest && p[i + 1] == rest[0];
    CommonIs(f, p, 0, i + 1);
    MatchesAt(f, p, i + 1);
    assert SkipSlashes(p, i) == i + 1 by { assert SkipSlashes(p, i + 1) == i + 1; }
    MeansAt(f, p);
    assert p[i + 1..] == rest && p[..i] == f[..i];
    MeansItself(rest);
    MeansHere(f, i + 2, rest, i);
  }

  lemma MeansHere(f: string, d: nat, rest: string, r: nat)
    requires 0 < d <= |f| && r <= d && f[d - 1] == '/' && rest != "" && Means(f[d..], rest)
    ensures MeansLater(f, r, rest)
  {
    hide Means;
    assert MeansFrom(f, d, rest);
  }

  /** A single component means itself. */
  lemma MeansItself(s: string)
    requires s != "" && '/' !in s
    ensures Means(s, s)
  {
    hide Means;
    assert s[0..] == s;
    NoSlashBehind(s, 0);
    MeansAt(s, s);
    assert s[|s|..] == "";
  }

  // ------------------------------------------------------- elements as they are written

  predicate NoDouble(s: string) {
    forall i | 0 <= i < |s| :: !Doubled(s, i)
  }

  /** The file n in a directory that is written with or without a slash at the end. */
  predicate FileIn(f: string, dir: string, n: string) {
    '/' !in n && (f == dir + n || f == dir + "/" + n)
  }

  /** The last component, taken from the end of the name. */
  lemma LastComponentIs(f: string, dir: string)
    ensures (dir <= f && LastComponent(f[|dir|..])) <==> exists n :: FileIn(f, dir, n)
  {
    if dir <= f && LastComponent(f[|dir|..]) {
      var r := f[|dir|..];
      var n := if r != "" && r[0] == '/' then r[1..] else r;
      assert f == dir + r;
      assert FileIn(f, dir, n);
    }
    if n :| FileIn(f, dir, n) {
      assert n != "" ==> n[0] in n;
      assert f[|dir|..] == n || (f[|dir|..] == "/" + n && f[|dir|..][1..] == n);
    }
  }

  /** An element without wildcards matches exactly the files in that directory. */
  lemma MatchesDirectory(f: string, p: string)
    requires NoDouble(p)
    ensures Matches(f, p) <==> exists n :: FileIn(f, p, n)
  {
    hide Matches, LastComponent;
    var k := Common(f, p, 0);
    MatchesAt(f, p, k);
    LastComponentIs(f, p);
    if p <= f {
      CommonAtLeast(f, p, |p|);
    } else {
      assert k < |p| && !Doubled(p, k);
    }
  }

  lemma FirstRunIs(p: string, a: string, w: string, b: string)
    requires p == a + "/" + w + b && NoDouble(a + "/") && w != "" && (forall i | 0 <= i < |w| :: w[i] == '/')
    requires b != "" ==> b[0] != '/'
    ensures var r := |a| + 1;
      && FirstRun(p, 1) == r && p[..r] == a + "/"
      && SkipSlashes(p, r) == r + |w| && p[r + |w|..] == b
  {
    var r, h := |a| + 1, a + "/";
    assert forall i | 0 <= i < r :: p[i] == h[i];
    forall i | 1 <= i < r
      ensures p[i - 1] != '/' || p[i] != '/'
    {
      assert !Doubled(h, i) && p[i] == h[i] && p[i - 1] == h[i - 1];
    }
    assert forall i | r <= i < r + |w| :: p[i] == w[i - r];
    assert p[r - 1] == '/' && p[r] == '/';
    assert r + |w| < |p| ==> p[r + |w|] == b[0];
  }

  lemma MeansDirectory(f: string, p: string)
    requires NoDouble(p)
    ensures Means(f, p) <==> exists n :: FileIn(f, p, n)
  {
    hide LastComponent, Means;
    MeansAt(f, p);
    LastComponentIs(f, p);
    var r := FirstRun(p, 1);
    assert r < |p| ==> Doubled(p, r);
    assert p == "" || r >= |p|;
  }

  /** The file n in a directory below a, at any depth, that ends in the components b. */
  predicate FileBelow(f: string, a: string, m: string, b: string, n: string) {
    (m == "" || m[|m| - 1] == '/') && FileIn(f, a + "/" + m + b, n)
  }

  /** What an element with a wildcard in the middle means. */
  lemma MeansBelow(f: string, a: string, w: string, b: string)
    requires NoDouble(a + "/") && w != "" && (forall i | 0 <= i < |w| :: w[i] == '/')
    requires b != "" && b[0] != '/' && NoDouble(b)
    ensures Means(f, a + "/" + w + b) <==> exists m, n :: FileBelow(f, a, m, b, n)
  {
    hide Means, FileBelow, MeansLater;
    FirstRunIs(a + "/" + w + b, a, w, b);
    MeansAt(f, a + "/" + w + b);
    if a + "/" <= f && MeansLater(f, |a| + 1, b) {
      var m, n := LaterIsBelow(f, a, b);
    }
    if m, n :| FileBelow(f, a, m, b, n) {
      BelowIsLater(f, a, m, b, n);
    }
  }

  lemma LaterIsBelow(f: string, a: string, b: string) returns (m: string, n: string)
    requires NoDouble(b) && b != "" && a + "/" <= f && MeansLater(f, |a| + 1, b)
    ensures FileBelow(f, a, m, b, n)
  {
    hide Means;
    var r := |a| + 1;
    var d :| r <= d <= |f| && MeansFrom(f, d, b);
    MeansDirectory(f[d..], b);
    n :| FileIn(f[d..], b, n);
    m := f[r..d];
    assert f == (a + "/" + m) + f[d..];
    assert a + "/" + m + b + n == (a + "/" + m) + (b + n);
    assert a + "/" + m + b + "/" + n == (a + "/" + m) + (b + "/" + n);
  }

  lemma BelowIsLater(f: string, a: string, m: string, b: string, n: string)
    requires FileBelow(f, a, m, b, n) && NoDouble(b) && b != ""
    ensures a + "/" <= f && MeansLater(f, |a| + 1, b)
  {
    hide Means, FileBelow;
    BelowSplits(f, a, m, b, n);
    var d := |a| + 1 + |m|;
    MeansDirectory(f[d..], b);
    assert MeansFrom(f, d, b);
  }

  lemma BelowSplits(f: string, a: string, m: string, b: string, n: string)
    requires FileBelow(f, a, m, b, n)
    ensures var d := |a| + 1 + |m|;
      d <= |f| && f[d - 1] == '/' && f[..|a| + 1] == a + "/" && FileIn(f[d..], b, n)
  {
    var d := |a| + 1 + |m|;
    var g := if f == a + "/" + m + b + n then b + n else b + "/" + n;
    assert f == (a + "/" + m) + g;
    assert f[d..] == g;
  }

  /** An element with a wildcard at the end means every file below. */
  lemma MeansAllBelow(f: string, a: string, w: string)
    requires NoDouble(a + "/") && w != "" && (forall i | 0 <= i < |w| :: w[i] == '/')
    ensures Means(f, a + "/" + w) <==> a + "/" < f
  {
    hide Means;
    var p, r := a + "/" + w, |a| + 1;
    assert p == a + "/" + w + "";
    FirstRunIs(p, a, w, "");
    MeansAt(f, p);
    if a + "/" < f {
      assert f[r - 1] == '/' && f[..r] == a + "/";
      assert MeansFrom(f, r, "");
    }
  }

  /** What elements with one wildcard match, where the matcher is right at all. */
  lemma MatchesBelow(f: string, a: string, w: string, b: string)
    requires LateDouble(f) && NoDouble(a + "/") && w != "" && (forall i | 0 <= i < |w| :: w[i] == '/')
    requires b != "" ==> b[0] != '/' && NoDouble(b)
    ensures b != "" ==> (Matches(f, a + "/" + w + b) <==> exists m, n :: FileBelow(f, a, m, b, n))
    ensures b == "" ==> (Matches(f, a + "/" + w + b) <==> a + "/" < f)
  {
    hide Matches, Means, LateDouble, FileBelow;
    MatchesIffMeans(f);
    var p := a + "/" + w + b;
    assert Matches(f, p) == Means(f, p);
    if b != "" {
      MeansBelow(f, a, w, b);
    } else {
      assert p == a + "/" + w;
      MeansAllBelow(f, a, w);
    }
  }
}
