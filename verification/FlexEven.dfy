// A line whose sizes fill its container exactly goes through the shrinking loop,
// too.  Nothing should change; exactly when the loop leaves it alone.
module FlexEven {
  import opened FlexModel
  import opened FlexLaws
  import opened FlexRounds

  // A flexible item held below its base size by its maximum.
  predicate Over(it: Item) {
    !IsInflexible(it, Shrink) && it.base > it.main
  }

  // A flexible item that can be shrunk.
  predicate Loose(it: Item) {
    !IsInflexible(it, Shrink) && Weight(it, Shrink) > 0.0 && it.base == it.main > it.min
  }

  // No item is over its maximum, or no other can be shrunk.
  predicate KeepsEven(s0: seq<Item>) {
    (forall i | 0 <= i < |s0| :: !Over(s0[i])) || (forall i | 0 <= i < |s0| :: !Loose(s0[i]))
  }

  // There is something to share and no item to share it.
  predicate EvenDivides(s0: seq<Item>) {
    && (exists i | 0 <= i < |s0| :: Over(s0[i]))
    && (forall i | 0 <= i < |s0| :: IsInflexible(s0[i], Shrink) || Weightless(s0[i], Shrink))
  }

  // The sizes are as they were exactly when the line allows it; otherwise the loop
  // has made items narrower and left room.
  ghost predicate Evened(s0: seq<Item>, f: seq<Item>) {
    && |f| == |s0|
    && ((forall i | 0 <= i < |f| :: f[i].main == s0[i].main) <==> KeepsEven(s0))
    && (!KeepsEven(s0) ==> Sum(f, Shrink, Main) < Sum(s0, Shrink, Main))
  }

  // ------------------------------------------------------------------ between passes

  // Only items over their maximum freeze, at it; a size that should not change may
  // have become stale.
  predicate EvenItem(i0: Item, it: Item) {
    && SameStatic(i0, it) && InBounds(it)
    && (IsInflexible(i0, Shrink) ==> it == Frozen0(i0, Shrink))
    && (!IsInflexible(i0, Shrink) && it.frozen ==> it.main == i0.main && Over(i0))
    && (!IsInflexible(i0, Shrink) && !it.frozen ==>
          && it.state == Unclamped && it.main <= i0.main
          && (i0.base == i0.main && !Loose(i0) ==> it.main == i0.main))
  }

  ghost predicate EvenItems(s0: seq<Item>, s: seq<Item>) {
    |s| == |s0| && forall i | 0 <= i < |s| :: EvenItem(s0[i], s[i])
  }

  // After a pass that shrank, every item that can be shrunk is too narrow, and an
  // item over its maximum has a weight if it is not frozen there.
  ghost predicate Narrow(s0: seq<Item>, s: seq<Item>) {
    && |s| == |s0|
    && (exists i | 0 <= i < |s0| :: Over(s0[i]))
    && (forall i | 0 <= i < |s0| && Loose(s0[i]) :: s[i].main < s0[i].main)
    && (forall i | 0 <= i < |s0| && Over(s0[i]) && Weightless(s0[i], Shrink) :: s[i].frozen)
    && !EvenDivides(s0)
  }

  ghost predicate EvenState(s0: seq<Item>, s: seq<Item>) {
    EvenItems(s0, s) && (s == Start(s0, Shrink) || Narrow(s0, s))
  }

  lemma EvenStart(s0: seq<Item>)
    requires FreshLine(s0, Shrink)
    ensures EvenState(s0, Start(s0, Shrink))
  {
    forall i | 0 <= i < |s0| ensures EvenItem(s0[i], Start(s0, Shrink)[i]) { assert Fresh(s0[i]); }
  }

  // The free space is what the items over their maximum are over it.
  lemma EvenFree(s0: seq<Item>, s: seq<Item>)
    requires FreshLine(s0, Shrink) && EvenItems(s0, s)
    ensures Sum(s0, Shrink, Main) <= Sum(s, Shrink, Used)
    ensures Sum(s0, Shrink, Main) == Sum(s, Shrink, Used) <==> forall i | 0 <= i < |s| :: s[i].frozen || !Over(s0[i])
  {
    forall i | 0 <= i < |s|
      ensures Val(s0[i], Shrink, Main) <= Val(s[i], Shrink, Used)
      ensures Val(s0[i], Shrink, Main) == Val(s[i], Shrink, Used) <==> s[i].frozen || !Over(s0[i])
    {
      assert Fresh(s0[i]) && EvenItem(s0[i], s[i]);
    }
    SumLe(s0, Main, s, Used, Shrink);
    if i :| 0 <= i < |s| && !s[i].frozen && Over(s0[i]) {
      SumLt(s0, Main, s, Used, Shrink, i);
    } else {
      SumEq(s0, Main, s, Used, Shrink);
    }
  }

  // What step 4.b makes of the free space: nothing exactly when no unfrozen item is
  // over its maximum, and then some of it.
  lemma EvenRemaining(s0: seq<Item>, s: seq<Item>, initial: real, rem: real, k: nat)
    requires FreshLine(s0, Shrink) && EvenItems(s0, s) && k < |s| && !s[k].frozen
    requires initial == InitialFreeSpace(s0, Shrink, Sum(s0, Shrink, Main))
    requires rem == Capped(Shrink, initial, Sum(s0, Shrink, Main) - Sum(s, Shrink, Used), Sum(s, Shrink, Factors))
    ensures rem == 0.0 <==> forall i | 0 <= i < |s| :: s[i].frozen || !Over(s0[i])
    ensures Sum(s0, Shrink, Main) - Sum(s, Shrink, Used) <= rem <= 0.0
  {
    EvenFree(s0, s);
    EvenStart(s0);
    EvenFree(s0, Start(s0, Shrink));
    assert forall i | 0 <= i < |s| :: EvenItem(s0[i], s[i]);
    FactorsPositive(s0, s, k);
    CappedShare(initial, Sum(s0, Shrink, Main) - Sum(s, Shrink, Used), Sum(s, Shrink, Factors));
    hide Sum, Capped, FreshLine, EvenItems, EvenState;
    if i :| 0 <= i < |s| && !s[i].frozen && Over(s0[i]) {
      assert !Start(s0, Shrink)[i].frozen;
    }
  }

  lemma CappedShare(initial: real, free: real, total: real)
    requires initial <= 0.0 && free <= 0.0 && total > 0.0
    ensures free <= Capped(Shrink, initial, free, total) <= 0.0
    ensures initial < 0.0 ==> (Capped(Shrink, initial, free, total) == 0.0 <==> free == 0.0)
    ensures free == 0.0 ==> Capped(Shrink, initial, free, total) == 0.0
  {
    if initial < 0.0 { Negative(initial, total); } else { NotPositive(initial, total); }
  }

  lemma Negative(x: real, y: real)
    requires x < 0.0 && y > 0.0
    ensures x * y / 1000.0 < 0.0
  {
  }

  lemma NotPositive(x: real, y: real)
    requires x <= 0.0 && y > 0.0
    ensures x * y / 1000.0 <= 0.0
  {
  }

  // With something to share, a pass has no weight to divide by exactly on such lines.
  lemma EvenShares(s0: seq<Item>, s: seq<Item>, x: nat)
    requires FreshLine(s0, Shrink) && EvenState(s0, s) && Rounds(s0, s, Shrink)
    requires x < |s| && !s[x].frozen && Over(s0[x])
    ensures Sum(s, Shrink, Shares) == 0.0 <==> EvenDivides(s0)
  {
    SharesNonNegative(s0, s, Shrink);
    if i :| 0 <= i < |s| && !s[i].frozen && Weight(s[i], Shrink) > 0.0 {
      SharesPositive(s0, s, Shrink, i);
      assert EvenItem(s0[i], s[i]) && !IsInflexible(s0[i], Shrink);
    } else {
      forall i | 0 <= i < |s| ensures Val(s[i], Shrink, Shares) == 0.0 && EvenItem(s0[i], s[i]) {}
      NoShares(s);
      assert Weightless(s0[x], Shrink);
      forall i | 0 <= i < |s0| ensures IsInflexible(s0[i], Shrink) || Weightless(s0[i], Shrink) {
        assert EvenItem(s0[i], s[i]) && s == Start(s0, Shrink);
      }
    }
  }

  // ------------------------------------------------------------------------ one pass

  lemma EvenItemPass(i0: Item, it: Item, lam: real)
    requires Fresh(i0) && EvenItem(i0, it) && lam < 0.0
    requires !IsInflexible(i0, Shrink) ==> Weight(i0, Shrink) >= 0.0
    ensures Val(it, Shrink, Fitted(lam)) <= i0.main
    ensures Loose(i0) ==> Val(it, Shrink, Fitted(lam)) < i0.main
    ensures Fixed(Offered(it, Shrink, lam)).main == Val(it, Shrink, Fitted(lam))
    ensures var f := Settled(Fixed(Offered(it, Shrink, lam)), MaxViolation);
            && EvenItem(i0, f) && f.main == Val(it, Shrink, Fitted(lam))
            && (Over(i0) && Weightless(i0, Shrink) ==> f.frozen)
  {
    if !IsInflexible(i0, Shrink) && !it.frozen {
      var w := Weight(i0, Shrink);
      if w > 0.0 { Negative(lam * 1000.0, w); }
      assert lam * w <= 0.0 && (w > 0.0 ==> lam * w < 0.0);
      assert Offer(it, Shrink, lam) == i0.base + lam * w;
    }
  }

  // A pass that shares nothing ends the loop with the sizes there are.
  lemma EvenStop(s0: seq<Item>, s: seq<Item>, f: seq<Item>, done: bool)
    requires FreshLine(s0, Shrink) && EvenState(s0, s)
    requires forall i | 0 <= i < |s| :: s[i].frozen || !Over(s0[i])
    requires FixedUp(s, f, Shrink, done)
    ensures done && Evened(s0, f) && !EvenDivides(s0)
  {
    forall i | 0 <= i < |s| ensures Val(s[i], Shrink, Excess) == 0.0 && Fixed(s[i]) == s[i] {
      assert EvenItem(s0[i], s[i]);
    }
    ExcessZero(s);
    assert f == s;
    if s == Start(s0, Shrink) {
      forall i | 0 <= i < |s0| ensures !Over(s0[i]) { assert s[i].frozen ==> IsInflexible(s0[i], Shrink); }
      assert KeepsEven(s0);
    } else {
      NarrowIsLess(s0, f);
    }
  }

  lemma {:induction false} ExcessZero(s: seq<Item>)
    requires forall i | 0 <= i < |s| :: Val(s[i], Shrink, Excess) == 0.0
    ensures Sum(s, Shrink, Excess) == 0.0
  {
    if s != [] { ExcessZero(s[..|s| - 1]); }
  }

  // The loop ends in such a state, with no unfrozen item over its maximum.
  lemma NarrowIsLess(s0: seq<Item>, f: seq<Item>)
    requires FreshLine(s0, Shrink) && EvenItems(s0, f) && Narrow(s0, f)
    requires forall i | 0 <= i < |f| :: f[i].frozen || !Over(s0[i])
    ensures Evened(s0, f)
  {
    forall i | 0 <= i < |f|
      ensures Val(f[i], Shrink, Main) <= Val(s0[i], Shrink, Main)
      ensures !Loose(s0[i]) ==> f[i].main == s0[i].main
    {
      assert Fresh(s0[i]) && EvenItem(s0[i], f[i]);
    }
    if i :| 0 <= i < |s0| && Loose(s0[i]) {
      SumLt(f, Main, s0, Main, Shrink, i);
    }
  }

  // A pass that shares: it ends with every size as it was, or freezes items at their
  // maximum and leaves the others stale.
  lemma EvenPass(s0: seq<Item>, s: seq<Item>, r: seq<Item>, f: seq<Item>, rem: real, lam: real, x: nat, done: bool)
    requires FreshLine(s0, Shrink) && EvenState(s0, s) && Rounds(s0, s, Shrink) && !EvenDivides(s0)
    requires x < |s| && !s[x].frozen && Over(s0[x])
    requires Sum(s0, Shrink, Main) - Sum(s, Shrink, Used) <= rem && lam * Sum(s, Shrink, Shares) == rem && lam < 0.0
    requires IsOffered(s, r, Shrink, lam) && FixedUp(r, f, Shrink, done)
    ensures done ==> Evened(s0, f)
    ensures !done ==> EvenState(s0, f)
  {
    EvenOffers(s0, s, r, lam);
    EvenExcess(s0, s, r, rem, lam);
    hide *;
    if Sum(r, Shrink, Excess) == 0.0 {
      Balanced(r, f, Shrink, done);
      EvenEnd(s0, s, r, f, lam);
    } else {
      Unbalanced(r, f, Shrink, done);
      EvenOn(s0, s, r, f, lam, x);
      if done { NarrowIsLess(s0, f); }
    }
  }

  lemma EvenExcess(s0: seq<Item>, s: seq<Item>, r: seq<Item>, rem: real, lam: real)
    requires Sum(s0, Shrink, Main) - Sum(s, Shrink, Used) <= rem && lam * Sum(s, Shrink, Shares) == rem
    requires IsOffered(s, r, Shrink, lam) && Sum(s, Shrink, Fitted(lam)) <= Sum(s0, Shrink, Main)
    ensures Sum(r, Shrink, Excess) <= 0.0
    ensures Sum(r, Shrink, Excess) == 0.0 ==> Sum(s, Shrink, Fitted(lam)) == Sum(s0, Shrink, Main)
  {
    LinearSum(s, Shrink, lam);
    OfferedExcess(s, r, Shrink, lam);
  }

  lemma Balanced(r: seq<Item>, f: seq<Item>, mode: Mode, done: bool)
    requires FixedUp(r, f, mode, done) && Sum(r, mode, Excess) == 0.0
    ensures done && |f| == |r| && forall i | 0 <= i < |r| :: f[i] == Fixed(r[i])
  {
  }

  lemma Unbalanced(r: seq<Item>, f: seq<Item>, mode: Mode, done: bool)
    requires FixedUp(r, f, mode, done) && Sum(r, mode, Excess) < 0.0
    ensures |f| == |r| && forall i | 0 <= i < |r| :: f[i] == Settled(Fixed(r[i]), MaxViolation)
    ensures done <==> forall i | 0 <= i < |f| :: f[i].frozen
  {
  }

  lemma EvenOn(s0: seq<Item>, s: seq<Item>, r: seq<Item>, f: seq<Item>, lam: real, x: nat)
    requires EvenStep(s0, s, r, lam) && x < |s0| && Over(s0[x]) && !EvenDivides(s0)
    requires |f| == |r| && forall i | 0 <= i < |r| :: f[i] == Settled(Fixed(r[i]), MaxViolation)
    ensures EvenItems(s0, f) && Narrow(s0, f) && EvenState(s0, f)
  {
    hide Fixed, Settled, EvenItem;
  }

  // No size goes up, and those of items that can be shrunk go down.
  ghost predicate EvenStep(s0: seq<Item>, s: seq<Item>, r: seq<Item>, lam: real) {
    && |s0| == |s| == |r|
    && forall i | 0 <= i < |s| ::
         && Val(s[i], Shrink, Fitted(lam)) <= s0[i].main
         && (Loose(s0[i]) ==> Val(s[i], Shrink, Fitted(lam)) < s0[i].main)
         && Fixed(r[i]).main == Val(s[i], Shrink, Fitted(lam))
         && EvenItem(s0[i], Settled(Fixed(r[i]), MaxViolation))
         && Settled(Fixed(r[i]), MaxViolation).main == Val(s[i], Shrink, Fitted(lam))
         && (Over(s0[i]) && Weightless(s0[i], Shrink) ==> Settled(Fixed(r[i]), MaxViolation).frozen)
  }

  lemma EvenOffers(s0: seq<Item>, s: seq<Item>, r: seq<Item>, lam: real)
    requires FreshLine(s0, Shrink) && EvenItems(s0, s) && IsOffered(s, r, Shrink, lam) && lam < 0.0
    ensures EvenStep(s0, s, r, lam)
    ensures Sum(s, Shrink, Fitted(lam)) <= Sum(s0, Shrink, Main)
  {
    forall i | 0 <= i < |s|
      ensures Val(s[i], Shrink, Fitted(lam)) <= Val(s0[i], Shrink, Main)
      ensures Loose(s0[i]) ==> Val(s[i], Shrink, Fitted(lam)) < s0[i].main
      ensures Fixed(r[i]).main == Val(s[i], Shrink, Fitted(lam))
      ensures var g := Settled(Fixed(r[i]), MaxViolation);
              && EvenItem(s0[i], g) && g.main == Val(s[i], Shrink, Fitted(lam))
              && (Over(s0[i]) && Weightless(s0[i], Shrink) ==> g.frozen)
    {
      assert Fresh(s0[i]) && EvenItem(s0[i], s[i]);
      EvenItemPass(s0[i], s[i], lam);
    }
    SumLe(s, Fitted(lam), s0, Main, Shrink);
  }

  // With no violation on balance all sizes are as they were.
  lemma EvenEnd(s0: seq<Item>, s: seq<Item>, r: seq<Item>, f: seq<Item>, lam: real)
    requires EvenStep(s0, s, r, lam) && Sum(s, Shrink, Fitted(lam)) == Sum(s0, Shrink, Main)
    requires |f| == |r| && forall i | 0 <= i < |r| :: f[i] == Fixed(r[i])
    ensures Evened(s0, f)
  {
    forall i | 0 <= i < |s| ensures f[i].main == s0[i].main {
      if Val(s[i], Shrink, Fitted(lam)) < s0[i].main { SumLt(s, Fitted(lam), s0, Main, Shrink, i); }
    }
  }

  // Two items of 100, one of at most 60 and one of at least 90, both shrinkable, in a
  // container of 160, which they should fill with 60 and 100.
  lemma NotKept(a: Item, b: Item)
    requires a == Item(100.0, 0.0, Limit(60.0), 60.0, 0, 1000, 100000.0, false, Unclamped)
    requires b == Item(100.0, 90.0, NoLimit, 100.0, 0, 1000, 100000.0, false, Unclamped)
    ensures FreshLine([a, b], Shrink) && Sum([a, b], Shrink, Main) == 160.0 && !KeepsEven([a, b])
  {
    var s := [a, b];
    assert Over(s[0]) && Loose(s[1]);
    assert s[..1] == [a] && s[..1][..0] == [];
    assert Sum(s[..1][..0], Shrink, Main) == 0.0;
    assert Sum(s[..1], Shrink, Main) == 60.0;
  }
}
