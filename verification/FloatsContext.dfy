// The formatting context: it keeps the float lists sorted and the caches true.
module FloatsContext {
  import opened Floats

  class FormattingContext {
    var floatsLeft: seq<Box>
    var floatsRight: seq<Box>
    var cacheLeft: Cache
    var cacheRight: Cache
    var currentTop: real
    var currentLeft: real
    ghost var filledWith: real   // absolute default edge the right entry was filled with

    ghost predicate Valid()
      reads this
    {
      && SortedLeft(floatsLeft) && SortedRight(floatsRight)
      && (cacheLeft.valid ==> cacheLeft.val == ScanLeft(floatsLeft, cacheLeft.hash))
      && (cacheRight.valid ==>
            && cacheRight.val == ScanRight(floatsRight, cacheRight.hash, filledWith)
            && (cacheRight.isDefault <==> Free(floatsRight, cacheRight.hash)))
    }

    // The edges at relative height `y`, scanned afresh.
    ghost function LineLeft(y: real): real
      reads this
    {
      LeftEdge(floatsLeft, currentLeft, y + currentTop)
    }

    ghost function LineRight(y: real, defRight: real): real
      reads this
    {
      RightEdge(floatsRight, currentLeft, y + currentTop, defRight)
    }

    // The remembered right edge stands for this default edge too.
    ghost predicate Serves(defRight: real)
      reads this
    {
      cacheRight.valid ==> ServesFor(floatsRight, currentLeft, cacheRight.hash, filledWith, defRight)
    }

    constructor ()
      ensures Valid() && floatsLeft == [] && floatsRight == []
      ensures currentTop == 0.0 && currentLeft == 0.0
    {
      floatsLeft, floatsRight := [], [];
      cacheLeft, cacheRight := NO_CACHE, NO_CACHE;
      currentTop, currentLeft, filledWith := 0.0, 0.0, 0.0;
    }

    method PushPosition(x: real, y: real)
      requires Valid()
      modifies `currentLeft, `currentTop
      ensures Valid()
      ensures currentLeft == old(currentLeft) + x && currentTop == old(currentTop) + y
    {
      currentLeft := currentLeft + x;
      currentTop := currentTop + y;
    }

    method PopPosition(x: real, y: real)
      requires Valid()
      modifies `currentLeft, `currentTop
      ensures Valid()
      ensures currentLeft == old(currentLeft) - x && currentTop == old(currentTop) - y
    {
      currentLeft := currentLeft - x;
      currentTop := currentTop - y;
    }

    // Places a box given in the current position's coordinates.
    method AddFloat(box: Box, side: Side)
      requires Valid()
      modifies `floatsLeft, `floatsRight, `cacheLeft, `cacheRight
      ensures Valid()
      ensures var fb := box.(x := box.x + currentLeft, y := box.y + currentTop);
              && (if side.LeftSide? then Inserted(old(floatsLeft), fb, floatsLeft) else floatsLeft == old(floatsLeft))
              && (if side.RightSide? then Inserted(old(floatsRight), fb, floatsRight)
                  else floatsRight == old(floatsRight))
      ensures if side.LeftSide? then !cacheLeft.valid else cacheLeft == old(cacheLeft)
      ensures if side.RightSide? then !cacheRight.valid else cacheRight == old(cacheRight)
    {
      var fb := box.(x := box.x + currentLeft, y := box.y + currentTop);
      if side.LeftSide? {
        AddLeft(fb);
      } else if side.RightSide? {
        AddRight(fb);
      }
    }

    method AddLeft(fb: Box)
      requires Valid()
      modifies `floatsLeft, `cacheLeft
      ensures Valid() && Inserted(old(floatsLeft), fb, floatsLeft) && !cacheLeft.valid
    {
      var i := 0;
      while i < |floatsLeft| && fb.Right() <= floatsLeft[i].Right()
        invariant i <= |floatsLeft| && floatsLeft == old(floatsLeft)
        invariant forall j | 0 <= j < i :: fb.Right() <= floatsLeft[j].Right()
      {
        i := i + 1;
      }
      InsertedLeft(floatsLeft, fb, i);
      floatsLeft := floatsLeft[..i] + [fb] + floatsLeft[i..];
      cacheLeft := cacheLeft.(valid := false, isDefault := false);
    }

    method AddRight(fb: Box)
      requires Valid()
      modifies `floatsRight, `cacheRight
      ensures Valid() && Inserted(old(floatsRight), fb, floatsRight) && !cacheRight.valid
    {
      var i := 0;
      while i < |floatsRight| && fb.x >= floatsRight[i].x
        invariant i <= |floatsRight| && floatsRight == old(floatsRight)
        invariant forall j | 0 <= j < i :: fb.x >= floatsRight[j].x
      {
        i := i + 1;
      }
      InsertedRight(floatsRight, fb, i);
      floatsRight := floatsRight[..i] + [fb] + floatsRight[i..];
      cacheRight := cacheRight.(valid := false, isDefault := false);
    }

    // The left edge; a repeated query at the same height uses the cache.
    method GetLineLeft(y: real) returns (r: real)
      requires Valid()
      modifies `cacheLeft
      ensures Valid() && r == LineLeft(y)
      ensures cacheLeft.valid && cacheLeft.hash == y + currentTop
    {
      var at := y + currentTop;
      if cacheLeft.valid && cacheLeft.hash == at {
        return if cacheLeft.val - currentLeft < 0.0 then 0.0 else cacheLeft.val - currentLeft;
      }
      var w := 0.0;
      var i := 0;
      while i < |floatsLeft|
        invariant i <= |floatsLeft|
        invariant w == ScanLeft(floatsLeft[..i], at)
      {
        ghost var front := floatsLeft[..i + 1];
        assert front[..i] == floatsLeft[..i];
        var fb := floatsLeft[i];
        if at >= fb.y && at < fb.Bottom() {
          w := Max(w, fb.Right());
          if w < fb.Right() { break; }
        }
        i := i + 1;
      }
      assert floatsLeft[..i] == floatsLeft;
      cacheLeft := cacheLeft.(hash := at, val := w, valid := true);
      w := w - currentLeft;
      if w < 0.0 { return 0.0; }
      return w;
    }

    // The right edge; right exactly when the remembered entry serves.
    method GetLineRight(y: real, defRight: real) returns (r: real)
      requires Valid()
      modifies `cacheRight, `filledWith
      ensures Valid()
      ensures !(old(cacheRight.valid) && old(cacheRight.hash) == y + currentTop) ==> r == LineRight(y, defRight)
      ensures old(cacheRight.valid) && old(cacheRight.hash) == y + currentTop ==>
                (r == LineRight(y, defRight) <==> old(Serves(defRight)))
      ensures r == SeenRight(old(cacheRight), floatsRight, currentLeft, y + currentTop, defRight)
      ensures (cacheRight == old(cacheRight) && filledWith == old(filledWith)) ||
              (cacheRight.hash == y + currentTop && filledWith == defRight + currentLeft)
      ensures cacheRight.valid && cacheRight.hash == y + currentTop
    {
      var at := y + currentTop;
      var limit := defRight + currentLeft;
      hide ScanRight;
      if cacheRight.valid && cacheRight.hash == at {
        if Free(floatsRight, at) {
          ScanFree(floatsRight, at, limit);
        } else {
          NearestCut(floatsRight, at, limit);
          NearestCut(floatsRight, at, filledWith);
        }
        if cacheRight.isDefault {
          return limit - currentLeft;
        }
        var w := Min(cacheRight.val, limit) - currentLeft;
        if w < 0.0 { return 0.0; }
        return w;
      }
      var w := limit;
      cacheRight := cacheRight.(isDefault := true);
      ScanRightNone(at, limit);
      var i := 0;
      while i < |floatsRight|
        invariant i <= |floatsRight|
        invariant w == ScanRight(floatsRight[..i], at, limit)
        invariant cacheRight.isDefault <==> Free(floatsRight[..i], at)
      {
        ScanRightMore(floatsRight, i, at, limit);
        var fb := floatsRight[i];
        if at >= fb.y && at < fb.Bottom() {
          w := Min(w, fb.x);
          cacheRight := cacheRight.(isDefault := false);
          if w > fb.x { break; }
        }
        i := i + 1;
      }
      assert floatsRight[..i] == floatsRight;
      cacheRight := cacheRight.(hash := at, val := w, valid := true);
      filledWith := limit;
      w := w - currentLeft;
      if w < 0.0 { return 0.0; }
      return w;
    }

    // Drops the floats of this block and of the blocks inside it.
    method ClearFloats(context: int)
      requires Valid()
      modifies `floatsLeft, `floatsRight, `cacheLeft, `cacheRight
      ensures Valid()
      ensures floatsLeft == Kept(old(floatsLeft), context)
      ensures floatsRight == Kept(old(floatsRight), context)
    {
      ClearLeft(context);
      ClearRight(context);
    }

    method ClearLeft(context: int)
      requires Valid()
      modifies `floatsLeft, `cacheLeft
      ensures Valid() && floatsLeft == Kept(old(floatsLeft), context)
    {
      KeptSorted(floatsLeft, context);
      EraseLeft(context);
    }

    method EraseLeft(context: int)
      modifies `floatsLeft, `cacheLeft
      ensures floatsLeft == Kept(old(floatsLeft), context)
      ensures cacheLeft.valid ==> floatsLeft == old(floatsLeft) && cacheLeft == old(cacheLeft)
    {
      hide Filtering, Kept;
      ghost var l := floatsLeft;
      FilteringEnds(l, context);
      ghost var k := 0;
      var i := 0;
      while i < |floatsLeft|
        invariant k <= |l| && floatsLeft == Filtering(l, k, context)
        invariant i == |Kept(l[..k], context)| && |floatsLeft| - i == |l| - k
        invariant cacheLeft.valid ==> floatsLeft == l && cacheLeft == old(cacheLeft)
        decreases |l| - k
      {
        FilteringStep(l, k, context, i);
        if floatsLeft[i].context >= context {
          floatsLeft := floatsLeft[..i] + floatsLeft[i + 1..];
          cacheLeft := cacheLeft.(valid := false, isDefault := false);
        } else {
          i := i + 1;
        }
        k := k + 1;
      }
    }

    method ClearRight(context: int)
      requires Valid()
      modifies `floatsRight, `cacheRight
      ensures Valid() && floatsRight == Kept(old(floatsRight), context)
    {
      KeptSorted(floatsRight, context);
      EraseRight(context);
    }

    method EraseRight(context: int)
      modifies `floatsRight, `cacheRight
      ensures floatsRight == Kept(old(floatsRight), context)
      ensures cacheRight.valid ==> floatsRight == old(floatsRight) && cacheRight == old(cacheRight)
    {
      hide Filtering, Kept;
      ghost var r := floatsRight;
      FilteringEnds(r, context);
      ghost var k := 0;
      var i := 0;
      while i < |floatsRight|
        invariant k <= |r| && floatsRight == Filtering(r, k, context)
        invariant i == |Kept(r[..k], context)| && |floatsRight| - i == |r| - k
        invariant cacheRight.valid ==> floatsRight == r && cacheRight == old(cacheRight)
        decreases |r| - k
      {
        FilteringStep(r, k, context, i);
        if floatsRight[i].context >= context {
          floatsRight := floatsRight[..i] + floatsRight[i + 1..];
          cacheRight := cacheRight.(valid := false, isDefault := false);
        } else {
          i := i + 1;
        }
        k := k + 1;
      }
    }

    // Moves the floats under one block by `dy`.
    method UpdateFloats(dy: real, under: nat -> bool)
      requires Valid()
      modifies `floatsLeft, `floatsRight, `cacheLeft, `cacheRight
      ensures Valid()
      ensures |floatsLeft| == |old(floatsLeft)| && |floatsRight| == |old(floatsRight)|
      ensures forall i | 0 <= i < |floatsLeft| :: floatsLeft[i] == Moved(old(floatsLeft)[i], dy, under)
      ensures forall i | 0 <= i < |floatsRight| :: floatsRight[i] == Moved(old(floatsRight)[i], dy, under)
    {
      UpdateLeft(dy, under);
      UpdateRight(dy, under);
    }

    method UpdateLeft(dy: real, under: nat -> bool)
      requires Valid()
      modifies `floatsLeft, `cacheLeft
      ensures Valid() && |floatsLeft| == |old(floatsLeft)|
      ensures forall i | 0 <= i < |floatsLeft| :: floatsLeft[i] == Moved(old(floatsLeft)[i], dy, under)
    {
      ghost var l := floatsLeft;
      var reset := false;
      for i := |floatsLeft| downto 0
        invariant |floatsLeft| == |l| && cacheLeft == old(cacheLeft)
        invariant forall j | 0 <= j < |l| :: floatsLeft[j] == if j < i then l[j] else Moved(l[j], dy, under)
        invariant !reset ==> floatsLeft == l
      {
        if under(floatsLeft[i].el) {
          reset := true;
          floatsLeft := floatsLeft[i := floatsLeft[i].(y := floatsLeft[i].y + dy)];
        }
      }
      if reset {
        cacheLeft := cacheLeft.(valid := false, isDefault := false);
      }
    }

    method UpdateRight(dy: real, under: nat -> bool)
      requires Valid()
      modifies `floatsRight, `cacheRight
      ensures Valid() && |floatsRight| == |old(floatsRight)|
      ensures forall i | 0 <= i < |floatsRight| :: floatsRight[i] == Moved(old(floatsRight)[i], dy, under)
    {
      ghost var r := floatsRight;
      var reset := false;
      for i := |floatsRight| downto 0
        invariant |floatsRight| == |r| && cacheRight == old(cacheRight)
        invariant forall j | 0 <= j < |r| :: floatsRight[j] == if j < i then r[j] else Moved(r[j], dy, under)
        invariant !reset ==> floatsRight == r
      {
        if under(floatsRight[i].el) {
          reset := true;
          floatsRight := floatsRight[i := floatsRight[i].(y := floatsRight[i].y + dy)];
        }
      }
      if reset {
        cacheRight := cacheRight.(valid := false, isDefault := false);
      }
    }

    // The next height where a box fits between the floats; wrong exactly when the
    // first edge is missed for a remembered right edge.
    method FindNextLineTop(top: real, width: real, defRight: real) returns (r: real)
      requires Valid()
      modifies `cacheLeft, `cacheRight, `filledWith
      ensures Valid()
      ensures var at, p := top + currentTop, r + currentTop;
              var missed := Misses(old(cacheRight), floatsLeft, floatsRight, currentLeft, at, width, defRight);
              && (NextPoint(floatsLeft, floatsRight, currentLeft, at, width, defRight, p) <==> !missed)
              && (missed ==> NextBehind(floatsLeft, floatsRight, currentLeft, at, width, defRight,
                                        old(cacheRight.hash), p))
    {
      var at := top + currentTop;
      var newTop := at;
      var points := CollectPoints(at);
      if points != [] {
        points := Sort(points);
        newTop := FirstFit(points, width, defRight, newTop);
      }
      r := newTop - currentTop;
    }

    method FirstFit(points: seq<real>, width: real, defRight: real, ghost at: real) returns (newTop: real)
      requires Valid() && points != [] && Ascending(points)
      requires forall p :: p in points <==> IsPoint(floatsLeft, floatsRight, at, p)
      modifies `cacheLeft, `cacheRight, `filledWith
      ensures Valid()
      ensures var missed := Misses(old(cacheRight), floatsLeft, floatsRight, currentLeft, at, width, defRight);
              && (NextPoint(floatsLeft, floatsRight, currentLeft, at, width, defRight, newTop) <==> !missed)
              && (missed ==> NextBehind(floatsLeft, floatsRight, currentLeft, at, width, defRight,
                                        old(cacheRight.hash), newTop))
    {
      SeenIsNarrower(cacheRight, filledWith, floatsLeft, floatsRight, currentLeft, points[0], width, defRight);
      hide ScanLeft, ScanRight, IsPoint, Free, FitsSeen, FitsAt, NextPoint, NextBehind, Misses;
      newTop := points[|points| - 1];
      ghost var entry := cacheRight;
      var i := 0;
      while i < |points|
        invariant i <= |points| && Valid() && newTop == points[|points| - 1]
        invariant if i == 0 then cacheRight == entry else cacheRight.valid && cacheRight.hash == points[i - 1]
        invariant i > 0 ==> !FitsSeen(entry, floatsLeft, floatsRight, currentLeft, points[0], width, defRight)
        invariant forall j | 0 < j < i :: !FitsAt(floatsLeft, floatsRight, currentLeft, points[j], width, defRight)
      {
        var y := points[i] - currentTop;
        assert y + currentTop == points[i];
        var posLeft := GetLineLeft(y);
        var posRight := GetLineRight(y, defRight);
        Fitting(entry, i == 0, points[i], y, width, defRight, posLeft, posRight);
        if posRight - posLeft >= width {
          newTop := points[i];
          break;
        }
        i := i + 1;
      }
      Found(entry, points, width, defRight, at, i, newTop);
    }

    // What the two edges say at one point.
    lemma Fitting(entry: Cache, first: bool, p: real, y: real, width: real, defRight: real,
                  posLeft: real, posRight: real)
      requires y + currentTop == p && posLeft == LineLeft(y)
      requires posRight ==
               if first then SeenRight(entry, floatsRight, currentLeft, p, defRight) else LineRight(y, defRight)
      ensures if first then
                posRight - posLeft >= width <==>
                FitsSeen(entry, floatsLeft, floatsRight, currentLeft, p, width, defRight)
              else
                posRight - posLeft >= width <==> FitsAt(floatsLeft, floatsRight, currentLeft, p, width, defRight)
    {
      hide ScanLeft, ScanRight;
    }

    // The point the loop stops at.
    lemma Found(entry: Cache, points: seq<real>, width: real, defRight: real, at: real, i: nat, newTop: real)
      requires points != [] && Ascending(points) && i <= |points|
      requires forall p :: p in points <==> IsPoint(floatsLeft, floatsRight, at, p)
      requires FitsSeen(entry, floatsLeft, floatsRight, currentLeft, points[0], width, defRight) ==>
                 FitsAt(floatsLeft, floatsRight, currentLeft, points[0], width, defRight)
      requires i > 0 ==> !FitsSeen(entry, floatsLeft, floatsRight, currentLeft, points[0], width, defRight)
      requires forall j | 0 < j < i :: !FitsAt(floatsLeft, floatsRight, currentLeft, points[j], width, defRight)
      requires newTop == points[if i < |points| then i else |points| - 1]
      requires i == 0 ==> FitsSeen(entry, floatsLeft, floatsRight, currentLeft, points[0], width, defRight)
      requires 0 < i < |points| ==> FitsAt(floatsLeft, floatsRight, currentLeft, points[i], width, defRight)
      ensures var missed := Misses(entry, floatsLeft, floatsRight, currentLeft, at, width, defRight);
              && (NextPoint(floatsLeft, floatsRight, currentLeft, at, width, defRight, newTop) <==> !missed)
              && (missed ==> NextBehind(floatsLeft, floatsRight, currentLeft, at, width, defRight, entry.hash, newTop))
    {
      hide IsPoint, FitsAt, LeftEdge, RightEdge;
      assert forall p | p in points :: points[0] <= p <= points[|points| - 1];
      assert points[0] in points && newTop in points;
      assert (entry.valid && entry.hash == points[0]) ||
             (FitsSeen(entry, floatsLeft, floatsRight, currentLeft, points[0], width, defRight) <==>
              FitsAt(floatsLeft, floatsRight, currentLeft, points[0], width, defRight)) 
      by {
        if !entry.valid || entry.hash != points[0] { SeenAfresh(entry, points[0], width, defRight); }
      }
    }

    lemma SeenAfresh(entry: Cache, p: real, width: real, defRight: real)
      requires !entry.valid || entry.hash != p
      ensures FitsSeen(entry, floatsLeft, floatsRight, currentLeft, p, width, defRight) <==>
              FitsAt(floatsLeft, floatsRight, currentLeft, p, width, defRight)
    {
    }

    // Every edge at or below `top`, once.
    method CollectPoints(top: real) returns (points: seq<real>)
      ensures forall p :: p in points <==> IsPoint(floatsLeft, floatsRight, top, p)
      ensures NoRepeats(points)
    {
      points := [];
      for i := 0 to |floatsLeft|
        invariant forall p :: p in points <==> p >= top && IsEdge(floatsLeft[..i], p)
        invariant NoRepeats(points)
      {
        EdgeStep(floatsLeft, i);
        if floatsLeft[i].y >= top && floatsLeft[i].y !in points { points := points + [floatsLeft[i].y]; }
        if floatsLeft[i].Bottom() >= top && floatsLeft[i].Bottom() !in points {
          points := points + [floatsLeft[i].Bottom()];
        }
      }
      assert floatsLeft[..|floatsLeft|] == floatsLeft;
      for i := 0 to |floatsRight|
        invariant forall p :: p in points <==> p >= top && (IsEdge(floatsLeft, p) || IsEdge(floatsRight[..i], p))
        invariant NoRepeats(points)
      {
        EdgeStep(floatsRight, i);
        if floatsRight[i].y >= top && floatsRight[i].y !in points { points := points + [floatsRight[i].y]; }
        if floatsRight[i].Bottom() >= top && floatsRight[i].Bottom() !in points {
          points := points + [floatsRight[i].Bottom()];
        }
      }
      assert floatsRight[..|floatsRight|] == floatsRight;
    }
  }

  predicate NoRepeats(s: seq<real>) {
    forall i, j | 0 <= i < j < |s| :: s[i] != s[j]
  }

  predicate Ascending(s: seq<real>) {
    forall i, j | 0 <= i < j < |s| :: s[i] < s[j]
  }

  // The library sort, on distinct numbers.
  method Sort(s: seq<real>) returns (r: seq<real>)
    requires NoRepeats(s)
    ensures Ascending(r) && |r| == |s|
    ensures forall p :: p in r <==> p in s
  {
    r := [];
    for k := 0 to |s|
      invariant Ascending(r) && |r| == k
      invariant forall p :: p in r <==> p in s[..k]
    {
      assert s[k] !in s[..k];
      var i := 0;
      while i < |r| && r[i] < s[k]
        invariant i <= |r| && forall j | 0 <= j < i :: r[j] < s[k]
      {
        i := i + 1;
      }
      assert forall j | i <= j < |r| :: s[k] < r[j] by {
        if i < |r| { assert r[i] in r; }
      }
      r := r[..i] + [s[k]] + r[i..];
      assert s[..k + 1] == s[..k] + [s[k]];
    }
    assert s[..|s|] == s;
  }
}
