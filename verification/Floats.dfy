// Floats of a block formatting context: what the line at a height has left
// between them, the one-entry caches for it, and the search for the next height
// where a box fits.  Lengths are exact reals.
module Floats {

  datatype Side = LeftSide | RightSide | NoSide

  // A placed float; coordinates are relative to the formatting context's root.
  datatype Box = Box(x: real, y: real, width: real, height: real, context: int, el: nat) {
    function Right(): real { x + width }
    function Bottom(): real { y + height }
    predicate Covers(at: real) { y <= at < Bottom() }
  }

  // One remembered answer.
  datatype Cache = Cache(hash: real, val: real, valid: bool, isDefault: bool)

  const NO_CACHE := Cache(0.0, 0.0, false, false)

  function Max(a: real, b: real): real { if a < b then b else a }

  function Min(a: real, b: real): real { if b < a then b else a }

  // ------------------------------------------------- the scan, without caches

  // Rightmost right edge of the boxes at height `y`, or 0.
  function ScanLeft(fs: seq<Box>, y: real): real {
    if fs == [] then 0.0
    else
      var w := ScanLeft(fs[..|fs| - 1], y);
      var f := fs[|fs| - 1];
      if f.Covers(y) then Max(w, f.Right()) else w
  }

  // Leftmost left edge of the boxes at height `y`, or `limit`.
  function ScanRight(fs: seq<Box>, y: real, limit: real): real {
    if fs == [] then limit
    else
      var w := ScanRight(fs[..|fs| - 1], y, limit);
      var f := fs[|fs| - 1];
      if f.Covers(y) then Min(w, f.x) else w
  }

  predicate Free(fs: seq<Box>, y: real) {
    forall i | 0 <= i < |fs| :: !fs[i].Covers(y)
  }

  lemma ScanRightMore(fs: seq<Box>, i: nat, y: real, limit: real)
    requires i < |fs|
    ensures ScanRight(fs[..i + 1], y, limit) ==
            var w := ScanRight(fs[..i], y, limit); if fs[i].Covers(y) then Min(w, fs[i].x) else w
    ensures Free(fs[..i + 1], y) <==> Free(fs[..i], y) && !fs[i].Covers(y)
  {
    var front := fs[..i + 1];
    assert front[..i] == fs[..i] && front[i] == fs[i];
    assert Free(fs[..i], y) <==> forall k | 0 <= k < i :: !front[k].Covers(y);
  }

  lemma ScanRightNone(y: real, limit: real)
    ensures ScanRight([], y, limit) == limit && Free([], y)
  {
  }

  // Two heights covered by the same boxes give the same scans.
  lemma {:induction false} ScanSame(fs: seq<Box>, y: real, z: real, limit: real)
    requires forall i | 0 <= i < |fs| :: fs[i].Covers(y) == fs[i].Covers(z)
    ensures ScanLeft(fs, y) == ScanLeft(fs, z)
    ensures ScanRight(fs, y, limit) == ScanRight(fs, z, limit)
  {
    if fs != [] { ScanSame(fs[..|fs| - 1], y, z, limit); }
  }

  lemma {:induction false} ScanFree(fs: seq<Box>, y: real, limit: real)
    requires Free(fs, y)
    ensures ScanLeft(fs, y) == 0.0 && ScanRight(fs, y, limit) == limit
  {
    if fs != [] { ScanFree(fs[..|fs| - 1], y, limit); }
  }

  // The line at height `y` runs beside the box.
  predicate Beside(b: Box, y: real) { b.y <= y < b.y + b.height }

  // What the scan is: an upper bound of every box at that height, and reached.
  lemma {:induction false} ScanLeftIsMax(fs: seq<Box>, y: real)
    ensures ScanLeft(fs, y) >= 0.0
    ensures forall i | 0 <= i < |fs| && Beside(fs[i], y) :: fs[i].x + fs[i].width <= ScanLeft(fs, y)
    ensures ScanLeft(fs, y) == 0.0 ||
            exists i :: 0 <= i < |fs| && Beside(fs[i], y) && fs[i].x + fs[i].width == ScanLeft(fs, y)
  {
    if fs != [] {
      var n := |fs| - 1;
      ScanLeftIsMax(fs[..n], y);
      if ScanLeft(fs, y) != 0.0 {
        if Beside(fs[n], y) && ScanLeft(fs, y) == fs[n].x + fs[n].width {
        } else {
          var i :| 0 <= i < n && Beside(fs[..n][i], y) && fs[..n][i].x + fs[..n][i].width == ScanLeft(fs[..n], y);
          assert Beside(fs[i], y) && fs[i].x + fs[i].width == ScanLeft(fs, y);
        }
      }
    }
  }

  lemma {:induction false} ScanRightIsMin(fs: seq<Box>, y: real, limit: real)
    ensures ScanRight(fs, y, limit) <= limit
    ensures forall i | 0 <= i < |fs| && Beside(fs[i], y) :: ScanRight(fs, y, limit) <= fs[i].x
    ensures ScanRight(fs, y, limit) == limit ||
            exists i :: 0 <= i < |fs| && Beside(fs[i], y) && fs[i].x == ScanRight(fs, y, limit)
  {
    if fs != [] {
      var n := |fs| - 1;
      ScanRightIsMin(fs[..n], y, limit);
      if ScanRight(fs, y, limit) != limit {
        if Beside(fs[n], y) && ScanRight(fs, y, limit) == fs[n].x {
        } else {
          var i :| 0 <= i < n && Beside(fs[..n][i], y) && fs[..n][i].x == ScanRight(fs[..n], y, limit);
          assert Beside(fs[i], y) && fs[i].x == ScanRight(fs, y, limit);
        }
      }
    }
  }

  // Leftmost left edge among the boxes at `y`, when there is one.
  function Nearest(fs: seq<Box>, y: real): real
    requires !Free(fs, y)
  {
    var n := |fs| - 1;
    if Free(fs[..n], y) then
      assert fs[n].Covers(y);
      fs[n].x
    else if fs[n].Covers(y) then Min(Nearest(fs[..n], y), fs[n].x)
    else Nearest(fs[..n], y)
  }

  // The limit only cuts the nearest edge off.
  lemma {:induction false} NearestCut(fs: seq<Box>, y: real, limit: real)
    requires !Free(fs, y)
    ensures ScanRight(fs, y, limit) == Min(limit, Nearest(fs, y))
  {
    var n := |fs| - 1;
    if Free(fs[..n], y) {
      ScanFree(fs[..n], y, limit);
    } else {
      NearestCut(fs[..n], y, limit);
    }
  }

  // ------------------------------------------------------------------- order

  // Left floats: right edges descend.  Right floats: left edges ascend.
  predicate SortedLeft(fs: seq<Box>) {
    forall i, j | 0 <= i < j < |fs| :: fs[i].Right() >= fs[j].Right()
  }

  predicate SortedRight(fs: seq<Box>) {
    forall i, j | 0 <= i < j < |fs| :: fs[i].x <= fs[j].x
  }

  // What clearing keeps, in order.
  function Kept(fs: seq<Box>, context: int): seq<Box> {
    if fs == [] then []
    else Kept(fs[..|fs| - 1], context) + (if fs[|fs| - 1].context >= context then [] else [fs[|fs| - 1]])
  }

  lemma {:induction false} KeptSorted(fs: seq<Box>, context: int)
    ensures forall b | b in Kept(fs, context) :: b in fs
    ensures SortedLeft(fs) ==> SortedLeft(Kept(fs, context))
    ensures SortedRight(fs) ==> SortedRight(Kept(fs, context))
  {
    if fs != [] {
      var n := |fs| - 1;
      KeptSorted(fs[..n], context);
      var ks := Kept(fs[..n], context);
      forall i | 0 <= i < |ks|
        ensures SortedLeft(fs) ==> ks[i].Right() >= fs[n].Right()
        ensures SortedRight(fs) ==> ks[i].x <= fs[n].x
      {
        assert ks[i] in fs[..n];
        var k :| 0 <= k < n && fs[..n][k] == ks[i];
        assert fs[k] == ks[i];
      }
    }
  }

  // The floats of outer contexts, each as often as it was there; together with their
  // order that is all of it.
  lemma {:induction false} KeptAre(fs: seq<Box>, context: int, b: Box)
    ensures multiset(Kept(fs, context))[b] == if b.context < context then multiset(fs)[b] else 0
  {
    if fs != [] {
      var n := |fs| - 1;
      KeptAre(fs[..n], context, b);
      assert fs == fs[..n] + [fs[n]];
      assert multiset(fs) == multiset(fs[..n]) + multiset([fs[n]]);
    }
  }

  // What is kept of two parts is kept of the whole, in their order.
  lemma {:induction false} KeptOfParts(a: seq<Box>, b: seq<Box>, context: int)
    ensures Kept(a + b, context) == Kept(a, context) + Kept(b, context)
  {
    if b == [] {
      assert a + b == a;
    } else {
      var n := |b| - 1;
      KeptOfParts(a, b[..n], context);
      assert (a + b)[..|a| + n] == a + b[..n];
      var last := if b[n].context >= context then [] else [b[n]];
      assert (Kept(a, context) + Kept(b[..n], context)) + last == Kept(a, context) + (Kept(b[..n], context) + last);
    }
  }

  function Moved(b: Box, dy: real, under: nat -> bool): Box {
    if under(b.el) then b.(y := b.y + dy) else b
  }

  // The list after `k` steps of the in-place filter.
  function Filtering(fs: seq<Box>, k: nat, context: int): seq<Box>
    requires k <= |fs|
  {
    Kept(fs[..k], context) + fs[k..]
  }

  lemma FilteringEnds(fs: seq<Box>, context: int)
    ensures Filtering(fs, 0, context) == fs
    ensures Filtering(fs, |fs|, context) == Kept(fs, context)
    ensures Kept(fs[..0], context) == []
  {
    assert fs[..|fs|] == fs;
  }

  lemma FilteringStep(fs: seq<Box>, k: nat, context: int, i: nat)
    requires k < |fs| && i == |Kept(fs[..k], context)|
    ensures var cur, next := Filtering(fs, k, context), Filtering(fs, k + 1, context);
            && i < |cur| && cur[i] == fs[k]
            && if fs[k].context >= context
               then next == cur[..i] + cur[i + 1..] && |Kept(fs[..k + 1], context)| == i
               else next == cur && |Kept(fs[..k + 1], context)| == i + 1
  {
    assert fs[..k + 1][..k] == fs[..k];
    assert fs[k..] == [fs[k]] + fs[k + 1..];
  }

  // `r` is `fs` with one box added somewhere.
  ghost predicate Inserted(fs: seq<Box>, b: Box, r: seq<Box>) {
    exists k | 0 <= k <= |fs| :: r == fs[..k] + [b] + fs[k..]
  }

  lemma InsertedLeft(fs: seq<Box>, b: Box, k: nat)
    requires SortedLeft(fs) && k <= |fs|
    requires forall j | 0 <= j < k :: b.Right() <= fs[j].Right()
    requires k < |fs| ==> b.Right() > fs[k].Right()
    ensures Inserted(fs, b, fs[..k] + [b] + fs[k..])
    ensures SortedLeft(fs[..k] + [b] + fs[k..])
  {
    var r := fs[..k] + [b] + fs[k..];
    forall i, j | 0 <= i < j < |r| ensures r[i].Right() >= r[j].Right() {
      if i <= k <= j && k < |fs| { assert fs[k].Right() >= fs[if j > k then j - 1 else k].Right(); }
    }
  }

  lemma InsertedRight(fs: seq<Box>, b: Box, k: nat)
    requires SortedRight(fs) && k <= |fs|
    requires forall j | 0 <= j < k :: b.x >= fs[j].x
    requires k < |fs| ==> b.x < fs[k].x
    ensures Inserted(fs, b, fs[..k] + [b] + fs[k..])
    ensures SortedRight(fs[..k] + [b] + fs[k..])
  {
    var r := fs[..k] + [b] + fs[k..];
    forall i, j | 0 <= i < j < |r| ensures r[i].x <= r[j].x {
      if i <= k <= j && k < |fs| { assert fs[k].x <= fs[if j > k then j - 1 else k].x; }
    }
  }

  // A right edge remembered at `hash` with the limit `filled` stands for a query
  // with another default edge.
  predicate ServesFor(fr: seq<Box>, left: real, hash: real, filled: real, defRight: real) {
    if Free(fr, hash) then defRight >= 0.0
    else
      var nearest := Nearest(fr, hash);
      || defRight + left <= filled
      || nearest <= filled
      || Min(nearest, defRight + left) <= left
  }

  // One narrow query, then a wide one: the float's own edge at 100 is lost.
  lemma StaleRightEdge()
    ensures var fr := [Box(100.0, 0.0, 20.0, 10.0, 0, 0)];
            && !ServesFor(fr, 0.0, 5.0, 50.0, 200.0)
            && ScanRight(fr, 5.0, 50.0) == 50.0
            && ScanRight(fr, 5.0, 200.0) == 100.0
  {
    var fr := [Box(100.0, 0.0, 20.0, 10.0, 0, 0)];
    assert fr[0].Covers(5.0) && fr[..0] == [];
    assert Free(fr[..0], 5.0);
  }

  // ------------------------------------------------------ the room at a height

  // Edges of the line at absolute height `at`, relative to the origin's left.
  function LeftEdge(fl: seq<Box>, left: real, at: real): real {
    Max(0.0, ScanLeft(fl, at) - left)
  }

  function RightEdge(fr: seq<Box>, left: real, at: real, defRight: real): real {
    Max(0.0, ScanRight(fr, at, defRight + left) - left)
  }

  // Where a line may start: at or after the edge of its block and of the formatting
  // context, behind every float beside it, and no later than that asks for.
  lemma LeftEdgeIs(fl: seq<Box>, left: real, at: real)
    ensures var e := LeftEdge(fl, left, at);
            && e >= 0.0 && e >= -left
            && (forall i | 0 <= i < |fl| && Beside(fl[i], at) :: e >= fl[i].x + fl[i].width - left)
            && (e == 0.0 || e == -left ||
                exists i :: 0 <= i < |fl| && Beside(fl[i], at) && e == fl[i].x + fl[i].width - left)
  {
    ScanLeftIsMax(fl, at);
    var w := ScanLeft(fl, at);
    if w != 0.0 {
      var i :| 0 <= i < |fl| && Beside(fl[i], at) && fl[i].x + fl[i].width == w;
      assert w - left == fl[i].x + fl[i].width - left;
    }
  }

  // Where it must end: not behind the default edge or any float beside it, unless that is
  // before its block, and no earlier than that asks for.
  lemma RightEdgeIs(fr: seq<Box>, left: real, at: real, defRight: real)
    ensures var e := RightEdge(fr, left, at, defRight);
            && e >= 0.0 && (e > 0.0 ==> e <= defRight)
            && (forall i | 0 <= i < |fr| && Beside(fr[i], at) :: e > 0.0 ==> e <= fr[i].x - left)
            && (e > 0.0 ==> e == defRight || exists i :: 0 <= i < |fr| && Beside(fr[i], at) && e == fr[i].x - left)
            && (e == 0.0 ==> defRight <= 0.0 || exists i :: 0 <= i < |fr| && Beside(fr[i], at) && fr[i].x <= left)
  {
    ScanRightIsMin(fr, at, defRight + left);
    var w := ScanRight(fr, at, defRight + left);
    if w != defRight + left {
      var i :| 0 <= i < |fr| && Beside(fr[i], at) && fr[i].x == w;
      assert w - left == fr[i].x - left;
    }
  }

  // A box this wide fits between the floats at that height.
  predicate FitsAt(fl: seq<Box>, fr: seq<Box>, left: real, at: real, width: real, defRight: real) {
    RightEdge(fr, left, at, defRight) - LeftEdge(fl, left, at) >= width
  }

  // ... and where no float is in the way.
  predicate FitsAlone(left: real, width: real, defRight: real) {
    Max(0.0, defRight) - Max(0.0, -left) >= width
  }

  // Room for a box of that width with its left side at `x`: inside the limits, right of
  // every left float beside it and left of every right one.
  ghost predicate HasRoom(fl: seq<Box>, fr: seq<Box>, left: real, at: real, x: real, width: real, defRight: real) {
    && x >= 0.0 && left + x >= 0.0 && x + width <= defRight
    && (forall i | 0 <= i < |fl| && Beside(fl[i], at) :: fl[i].x + fl[i].width <= left + x)
    && (forall i | 0 <= i < |fr| && Beside(fr[i], at) :: left + x + width <= fr[i].x)
  }

  // A box fits exactly where there is such room for it.
  lemma FitsIs(fl: seq<Box>, fr: seq<Box>, left: real, at: real, width: real, defRight: real)
    requires width > 0.0
    ensures FitsAt(fl, fr, left, at, width, defRight) <==> exists x :: HasRoom(fl, fr, left, at, x, width, defRight)
  {
    hide LeftEdge, RightEdge, Beside;
    LeftEdgeIs(fl, left, at);
    RightEdgeIs(fr, left, at, defRight);
    if FitsAt(fl, fr, left, at, width, defRight) {
      assert HasRoom(fl, fr, left, at, LeftEdge(fl, left, at), width, defRight);
    }
  }

  lemma FitsAloneIs(left: real, at: real, width: real, defRight: real)
    ensures FitsAlone(left, width, defRight) <==> FitsAt([], [], left, at, width, defRight)
  {
    hide ScanLeft, ScanRight;
    ScanLeftIsMax([], at);
    ScanRightIsMin([], at, defRight + left);
  }

  ghost predicate IsEdge(fs: seq<Box>, p: real) {
    exists i | 0 <= i < |fs| :: fs[i].y == p || fs[i].Bottom() == p
  }

  lemma EdgeStep(fs: seq<Box>, k: nat)
    requires k < |fs|
    ensures forall p :: IsEdge(fs[..k + 1], p) <==> IsEdge(fs[..k], p) || fs[k].y == p || fs[k].Bottom() == p
  {
    forall p ensures IsEdge(fs[..k + 1], p) <==> IsEdge(fs[..k], p) || fs[k].y == p || fs[k].Bottom() == p {
      if IsEdge(fs[..k], p) {
        var i :| 0 <= i < k && (fs[..k][i].y == p || fs[..k][i].Bottom() == p);
        assert fs[..k + 1][i] == fs[..k][i];
      }
      assert fs[..k + 1][k] == fs[k];
    }
  }

  // A top or bottom edge of a float at or below `at`.
  ghost predicate IsPoint(fl: seq<Box>, fr: seq<Box>, at: real, p: real) {
    p >= at && (IsEdge(fl, p) || IsEdge(fr, p))
  }

  // The first edge where the box fits, or the last edge, or `at` without edges.
  ghost predicate NextPoint(fl: seq<Box>, fr: seq<Box>, left: real, at: real, width: real, defRight: real, p: real) {
    || (p == at && forall q :: !IsPoint(fl, fr, at, q))
    || (&& IsPoint(fl, fr, at, p)
        && (forall q | IsPoint(fl, fr, at, q) && q < p :: !FitsAt(fl, fr, left, q, width, defRight))
        && (FitsAt(fl, fr, left, p, width, defRight) || forall q | IsPoint(fl, fr, at, q) :: q <= p))
  }

  // The right edge as the remembered entry gives it.
  function SeenRight(cache: Cache, fr: seq<Box>, left: real, at: real, defRight: real): real {
    if !cache.valid || cache.hash != at then RightEdge(fr, left, at, defRight)
    else if cache.isDefault then defRight
    else Max(0.0, Min(cache.val, defRight + left) - left)
  }

  predicate FitsSeen(cache: Cache, fl: seq<Box>, fr: seq<Box>, left: real, at: real, width: real, defRight: real) {
    SeenRight(cache, fr, left, at, defRight) - LeftEdge(fl, left, at) >= width
  }

  // A remembered edge is never farther right than the real one.
  lemma SeenIsNarrower(cache: Cache, filled: real, fl: seq<Box>, fr: seq<Box>, left: real, at: real, width: real,
                       defRight: real)
    requires cache.valid ==>
               && cache.val == ScanRight(fr, cache.hash, filled)
               && (cache.isDefault <==> Free(fr, cache.hash))
    ensures SeenRight(cache, fr, left, at, defRight) <= RightEdge(fr, left, at, defRight)
    ensures FitsSeen(cache, fl, fr, left, at, width, defRight) ==> FitsAt(fl, fr, left, at, width, defRight)
  {
    if cache.valid && cache.hash == at {
      if Free(fr, at) {
        ScanFree(fr, at, defRight + left);
      } else {
        NearestCut(fr, at, filled);
        NearestCut(fr, at, defRight + left);
      }
    }
  }

  // The search passes by its answer: the first edge fits, the remembered right edge
  // there is too narrow, and there are more edges.
  ghost predicate Misses(cache: Cache, fl: seq<Box>, fr: seq<Box>, left: real, at: real, width: real, defRight: real) {
    && cache.valid
    && IsPoint(fl, fr, at, cache.hash) && (forall q | IsPoint(fl, fr, at, q) :: q >= cache.hash)
    && FitsAt(fl, fr, left, cache.hash, width, defRight)
    && !FitsSeen(cache, fl, fr, left, cache.hash, width, defRight)
    && exists q :: IsPoint(fl, fr, at, q) && q > cache.hash
  }

  // A float at 100 from height 10 to 20, asked for before with a line to 50 only: a box
  // of 80 fits at 10 in a line to 200, but the remembered edge turns it away.
  lemma MissedEdge(cache: Cache)
    requires cache == Cache(10.0, 50.0, true, false)
    ensures var fr := [Box(100.0, 10.0, 20.0, 10.0, 0, 0)];
            && cache.val == ScanRight(fr, cache.hash, 50.0) && !Free(fr, cache.hash)
            && Misses(cache, [], fr, 0.0, 0.0, 80.0, 200.0)
  {
    var fr := [Box(100.0, 10.0, 20.0, 10.0, 0, 0)];
    assert fr[0].Covers(10.0) && fr[..0] == [] && fr[0].y == 10.0 && fr[0].Bottom() == 20.0;
    assert ScanRight(fr[..0], 10.0, 50.0) == 50.0 && ScanRight(fr[..0], 10.0, 200.0) == 200.0;
    assert IsPoint([], fr, 0.0, 10.0) && IsPoint([], fr, 0.0, 20.0);
  }

  // The first edge behind another where the box fits, or the last.
  ghost predicate NextBehind(fl: seq<Box>, fr: seq<Box>, left: real, at: real, width: real, defRight: real,
                             from: real, p: real) {
    && IsPoint(fl, fr, at, p) && p > from
    && (forall q | IsPoint(fl, fr, at, q) && from < q < p :: !FitsAt(fl, fr, left, q, width, defRight))
    && (FitsAt(fl, fr, left, p, width, defRight) || forall q | IsPoint(fl, fr, at, q) :: q <= p)
  }

  // No edge in (a, b]: the same floats are at both heights.
  lemma BandIsConstant(fl: seq<Box>, fr: seq<Box>, left: real, a: real, b: real, width: real, defRight: real)
    requires a <= b
    requires forall q | a < q <= b :: !IsEdge(fl, q) && !IsEdge(fr, q)
    ensures FitsAt(fl, fr, left, a, width, defRight) <==> FitsAt(fl, fr, left, b, width, defRight)
  {
    SameCover(fl, a, b);
    SameCover(fr, a, b);
    ScanSame(fl, a, b, 0.0);
    ScanSame(fr, a, b, defRight + left);
  }

  lemma SameCover(fs: seq<Box>, a: real, b: real)
    requires a <= b && forall q | a < q <= b :: !IsEdge(fs, q)
    ensures forall i | 0 <= i < |fs| :: fs[i].Covers(a) == fs[i].Covers(b)
  {
    forall i | 0 <= i < |fs| ensures fs[i].Covers(a) == fs[i].Covers(b) {
      assert IsEdge(fs, fs[i].y) && IsEdge(fs, fs[i].Bottom());
    }
  }

  // The last edge at or before `y`, among those at or below `at`.
  lemma {:induction false} LastEdge(fs: seq<Box>, at: real, y: real) returns (found: bool, e: real)
    ensures found ==> at <= e <= y && IsEdge(fs, e)
    ensures forall q | at <= q <= y && IsEdge(fs, q) :: found && q <= e
  {
    if fs == [] {
      found, e := false, at;
    } else {
      var n := |fs| - 1;
      var found0, e0 := LastEdge(fs[..n], at, y);
      found, e := found0, e0;
      if at <= fs[n].y <= y && (!found || e < fs[n].y) { found, e := true, fs[n].y; }
      if at <= fs[n].Bottom() <= y && (!found || e < fs[n].Bottom()) { found, e := true, fs[n].Bottom(); }
      EdgeStep(fs, n);
      assert fs[..n + 1] == fs;
      forall q | at <= q <= y && IsEdge(fs, q) ensures found && q <= e {
        assert IsEdge(fs[..n], q) || fs[n].y == q || fs[n].Bottom() == q;
        if IsEdge(fs[..n], q) { assert found0 && q <= e0; }
      }
      if found0 { assert IsEdge(fs, e0); }
    }
  }

  // The height found is the least one, over all real heights, where the box
  // fits, whenever it does not fit at the start but fits without floats.
  lemma LeastFit(fl: seq<Box>, fr: seq<Box>, left: real, at: real, width: real, defRight: real, p: real)
    requires NextPoint(fl, fr, left, at, width, defRight, p)
    requires !FitsAt(fl, fr, left, at, width, defRight) && FitsAlone(left, width, defRight)
    ensures p >= at && FitsAt(fl, fr, left, p, width, defRight)
    ensures forall y | at <= y < p :: !FitsAt(fl, fr, left, y, width, defRight)
  {
    LastPointFits(fl, fr, left, at, width, defRight, p);
    forall y | at <= y < p ensures !FitsAt(fl, fr, left, y, width, defRight) {
      NoFitBefore(fl, fr, left, at, width, defRight, p, y);
    }
  }

  lemma NoFitBefore(fl: seq<Box>, fr: seq<Box>, left: real, at: real, width: real, defRight: real, p: real, y: real)
    requires NextPoint(fl, fr, left, at, width, defRight, p)
    requires !FitsAt(fl, fr, left, at, width, defRight) && at <= y < p
    ensures !FitsAt(fl, fr, left, y, width, defRight)
  {
    var foundL, l := LastEdge(fl, at, y);
    var foundR, r := LastEdge(fr, at, y);
    var e := at;
    if foundL && e < l { e := l; }
    if foundR && e < r { e := r; }
    BandIsConstant(fl, fr, left, e, y, width, defRight);
    if e != at { assert IsPoint(fl, fr, at, e); }
  }

  lemma LastPointFits(fl: seq<Box>, fr: seq<Box>, left: real, at: real, width: real, defRight: real, p: real)
    requires NextPoint(fl, fr, left, at, width, defRight, p)
    requires !FitsAt(fl, fr, left, at, width, defRight) && FitsAlone(left, width, defRight)
    ensures FitsAt(fl, fr, left, p, width, defRight)
  {
    if !FitsAt(fl, fr, left, p, width, defRight) {
      NoneBelow(fl, fr, at, fl, p);
      NoneBelow(fl, fr, at, fr, p);
      ScanFree(fl, p, 0.0);
      ScanFree(fr, p, defRight + left);
    }
  }

  // No float reaches past the last edge.
  lemma NoneBelow(fl: seq<Box>, fr: seq<Box>, at: real, fs: seq<Box>, p: real)
    requires fs == fl || fs == fr
    requires p >= at && forall q | IsPoint(fl, fr, at, q) :: q <= p
    ensures Free(fs, p)
  {
    forall i | 0 <= i < |fs| ensures !fs[i].Covers(p) {
      assert IsEdge(fs, fs[i].Bottom());
      if fs[i].Bottom() >= at { assert IsPoint(fl, fr, at, fs[i].Bottom()); }
    }
  }
}
