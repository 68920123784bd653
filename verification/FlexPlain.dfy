// The plain case of both loops, said of the items alone: no limits but minima, factors
// of one or more, and room enough.
module FlexPlain {
  import opened FlexModel
  import opened FlexLaws
  import opened FlexRounds
  import opened FlexEven
  import opened FlexGoal
  import opened FlexShrink

  // Items that can grow as far as they like: they fill the line, each by its factor.
  lemma GrowsToFill(s0: seq<Item>, f: seq<Item>, c: real)
    requires s0 != [] && FreshLine(s0, Grow) && Sum(s0, Grow, Main) < c && Grown(s0, f, c)
    requires forall i | 0 <= i < |s0| :: s0[i].grow >= 1000 && s0[i].max == NoLimit && s0[i].base >= s0[i].min
    ensures |f| == |s0| && Sum(f, Grow, Main) == c
    ensures exists lam: real :: lam > 0.0 && GrownPlainly(s0, f, lam)
  {
    var lam: real :| lam > 0.0 && GrownAt(s0, f, c, lam);
    hide Sum, IsInflexible, AtMax, FreshLine;
    forall i | 0 <= i < |s0|
      ensures !IsInflexible(s0[i], Grow) && Factor(s0[i], Grow) >= 1000 && !AtMax(f[i])
      ensures f[i].main == s0[i].base + lam * s0[i].grow as real
    {
      GrowsByFactor(s0, f, c, lam, i);
    }
    assert !SmallFactor(s0, Grow);
    assert !IsInflexible(s0[0], Grow) && !AtMax(f[0]);
    assert GrownPlainly(s0, f, lam);
  }

  lemma GrowsByFactor(s0: seq<Item>, f: seq<Item>, c: real, lam: real, i: nat)
    requires FreshLine(s0, Grow) && GrownAt(s0, f, c, lam) && lam > 0.0 && i < |s0|
    requires s0[i].grow >= 1000 && s0[i].max == NoLimit && s0[i].base >= s0[i].min
    ensures |f| == |s0| && !IsInflexible(s0[i], Grow) && Factor(s0[i], Grow) >= 1000 && !AtMax(f[i])
    ensures f[i].main == s0[i].base + lam * s0[i].grow as real
  {
    hide Sum;
    assert Fresh(s0[i]) && SameStatic(s0[i], f[i]);
    assert lam * s0[i].grow as real >= 0.0;
  }

  ghost predicate GrownPlainly(s0: seq<Item>, f: seq<Item>, lam: real) {
    |f| == |s0| && forall i | 0 <= i < |f| :: f[i].main == s0[i].base + lam * s0[i].grow as real
  }

  predicate CanShrink(it: Item) {
    it.shrink >= 1000 && it.scaled > 0.0 && it.max == NoLimit && it.base >= it.min
  }

  lemma ShrinksIsFlexible(s0: seq<Item>, i: nat)
    requires FreshLine(s0, Shrink) && i < |s0| && CanShrink(s0[i])
    ensures !IsInflexible(s0[i], Shrink) && Factor(s0[i], Shrink) >= 1000 && !Weightless(s0[i], Shrink)
  {
    assert Fresh(s0[i]);
  }

  lemma ShrunkSizes(s0: seq<Item>, f: seq<Item>, c: real, lam: real)
    requires FreshLine(s0, Shrink) && ShrunkAt(s0, f, c, lam) && forall i | 0 <= i < |s0| :: CanShrink(s0[i])
    ensures ShrunkPlainly(s0, f, lam)
    ensures |f| == |s0| && forall i | 0 <= i < |s0| :: AtMin(f[i]) ==> f[i].main == s0[i].min
  {
    hide Sum;
    forall i | 0 <= i < |s0|
      ensures f[i].main == if s0[i].base + lam * s0[i].scaled < s0[i].min then s0[i].min
                           else s0[i].base + lam * s0[i].scaled
      ensures AtMin(f[i]) ==> f[i].main == s0[i].min
    {
      ShrinksIsFlexible(s0, i);
      assert SameStatic(s0[i], f[i]);
    }
  }

  // Items that can shrink to their minima: if those fit, the line is filled, each item by
  // its weight or at its minimum.
  lemma ShrinksToFit(s0: seq<Item>, f: seq<Item>, c: real, byZero: bool)
    requires s0 != [] && FreshLine(s0, Shrink) && Sum(s0, Shrink, Main) > c && Resolved(s0, f, c, byZero)
    requires (forall i | 0 <= i < |s0| :: CanShrink(s0[i])) && MinSum(s0) <= c
    ensures !byZero && |f| == |s0| && Sum(f, Shrink, Main) == c
    ensures exists lam: real :: lam < 0.0 && ShrunkPlainly(s0, f, lam)
  {
    hide Sum, NoRoom, Final, Leveled, EvenDivides, FreshLine, IsInflexible, CanShrink, ShrunkAt, ShrunkPlainly;
    forall i | 0 <= i < |s0|
      ensures !IsInflexible(s0[i], Shrink) && Factor(s0[i], Shrink) >= 1000 && !Weightless(s0[i], Shrink)
    {
      ShrinksIsFlexible(s0, i);
    }
    RoomForAll(s0, c);
    var lam: real :| lam < 0.0 && ShrunkAt(s0, f, c, lam);
    ShrunkSizes(s0, f, c, lam);
    FilledOrMinima(s0, f, c, lam);
  }

  ghost predicate ShrunkPlainly(s0: seq<Item>, f: seq<Item>, lam: real) {
    && |f| == |s0|
    && forall i | 0 <= i < |f| ::
         f[i].main == if s0[i].base + lam * s0[i].scaled < s0[i].min then s0[i].min
                      else s0[i].base + lam * s0[i].scaled
  }

  function MinSum(s: seq<Item>): real {
    if s == [] then 0.0 else MinSum(s[..|s| - 1]) + s[|s| - 1].min
  }

  lemma RoomForAll(s0: seq<Item>, c: real)
    requires forall i | 0 <= i < |s0| :: !Weightless(s0[i], Shrink)
    ensures !NoRoom(s0, c)
  {
  }

  lemma {:induction false} MinimaSum(s0: seq<Item>, f: seq<Item>)
    requires |f| == |s0| && forall i | 0 <= i < |f| :: f[i].main == s0[i].min
    ensures Sum(f, Shrink, Main) == MinSum(s0)
  {
    if f != [] { MinimaSum(s0[..|s0| - 1], f[..|f| - 1]); }
  }

  // A line wider than its container has all items at their minima, and those fit.
  lemma FilledOrMinima(s0: seq<Item>, f: seq<Item>, c: real, lam: real)
    requires ShrunkAt(s0, f, c, lam) && MinSum(s0) <= c
    requires forall i | 0 <= i < |s0| :: !IsInflexible(s0[i], Shrink)
    requires |f| == |s0| && forall i | 0 <= i < |s0| :: AtMin(f[i]) ==> f[i].main == s0[i].min
    ensures Sum(f, Shrink, Main) == c
  {
    if Sum(f, Shrink, Main) > c { MinimaSum(s0, f); }
  }
}
