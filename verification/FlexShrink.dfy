// Shrinking a line: what the loop keeps, when it divides by zero, what it solves.
module FlexShrink {
  import opened FlexModel
  import opened FlexLaws
  import opened FlexRounds
  import opened FlexEven
  import opened FlexGoal

  // Shrinking solves the line at one negative level and never underfills it.
  ghost predicate Shrunk(s0: seq<Item>, s: seq<Item>, c: real) {
    exists lam: real :: lam < 0.0 && ShrunkAt(s0, s, c, lam)
  }

  ghost predicate ShrunkAt(s0: seq<Item>, s: seq<Item>, c: real, lam: real) {
    && Filled(s0, s, Shrink, c, Open, lam)
    && Sum(s, Shrink, Main) >= c
  }

  // Shrinking solves the line when no factor is small and sizes overflow.
  ghost predicate Solvable(s0: seq<Item>, c: real) {
    Sum(s0, Shrink, Main) > c && !SmallFactor(s0, Shrink)
  }

  // The container does not hold the least sizes, and an item has no weight.
  ghost predicate NoRoom(s0: seq<Item>, c: real) {
    && Sum(s0, Shrink, Least) > c
    && exists i | 0 <= i < |s0| :: Weightless(s0[i], Shrink)
  }

  // No flexible item is wider than its hypothetical size.
  ghost predicate NoneWider(s0: seq<Item>, s: seq<Item>) {
    |s| == |s0| && forall i | 0 <= i < |s| :: !IsInflexible(s0[i], Shrink) ==> s[i].main <= s0[i].main
  }

  // The division is by zero: every item left to share the free space has no weight.
  ghost predicate Divided(s0: seq<Item>, s: seq<Item>) {
    && |s| == |s0|
    && (exists i | 0 <= i < |s| :: !s[i].frozen)
    && (forall i | 0 <= i < |s| && !s[i].frozen :: Weightless(s0[i], Shrink))
  }

  // Every item with a weight is at its least size, and only those are sized.
  ghost predicate AtLeast(s0: seq<Item>, s: seq<Item>) {
    && |s| == |s0|
    && forall i | 0 <= i < |s| ::
         if Weightless(s0[i], Shrink) then !s[i].frozen else s[i].frozen && s[i].main == Val(s0[i], Shrink, Least)
  }

  // ------------------------------------------------------------------ the loop as passes

  ghost predicate SharedOut(s: seq<Item>, r: seq<Item>, rem: real, lam: real) {
    if rem == 0.0 then r == s
    else Sum(s, Shrink, Shares) > 0.0 && lam == rem / Sum(s, Shrink, Shares) && IsOffered(s, r, Shrink, lam)
  }

  // What step 4.b leaves to share.
  ghost function FreeSpace(s0: seq<Item>, s: seq<Item>, c: real): real {
    Capped(Shrink, InitialFreeSpace(s0, Shrink, c), c - Sum(s, Shrink, Used), Sum(s, Shrink, Factors))
  }

  // A pass of the loop: what it shares out and what it makes of that.
  ghost predicate Pass(s0: seq<Item>, s: seq<Item>, r: seq<Item>, f: seq<Item>, c: real, rem: real, lam: real,
                       done: bool) {
    && rem == FreeSpace(s0, s, c)
    && (exists k | 0 <= k < |s| :: !s[k].frozen)
    && SharedOut(s, r, rem, lam)
    && FixedUp(r, f, Shrink, done)
  }

  // From the state `s` between passes, the loop ends in `f`.
  ghost predicate Ends(s0: seq<Item>, s: seq<Item>, c: real, f: seq<Item>, byZero: bool)
    decreases CountUnfrozen(s)
  {
    var rem := FreeSpace(s0, s, c);
    if rem != 0.0 && Sum(s, Shrink, Shares) == 0.0 then byZero && f == s
    else
      exists r, g, lam, done ::
        && Pass(s0, s, r, g, c, rem, lam, done)
        && if done then !byZero && f == g else CountUnfrozen(g) < CountUnfrozen(s) && Ends(s0, g, c, f, byZero)
  }

  // A line without flexible items does not enter the loop.
  ghost predicate Final(s0: seq<Item>, c: real, f: seq<Item>, byZero: bool) {
    if forall i | 0 <= i < |s0| :: IsInflexible(s0[i], Shrink) then !byZero && f == Start(s0, Shrink)
    else Ends(s0, Start(s0, Shrink), c, f, byZero)
  }

  lemma PassOnce(s0: seq<Item>, s: seq<Item>, c: real, rem: real, r: seq<Item>, f: seq<Item>, lam: real, done: bool,
                 r': seq<Item>, f': seq<Item>, lam': real, done': bool)
    requires Pass(s0, s, r, f, c, rem, lam, done) && Pass(s0, s, r', f', c, rem, lam', done')
    ensures f == f' && done == done'
  {
    hide Sum, Fixed, Settled, Offered;
    assert r == r';
  }

  // Passes lead to one end only: the whole line is determined.
  lemma {:induction false} EndsOnce(s0: seq<Item>, s: seq<Item>, c: real, f: seq<Item>, z: bool,
                                    f': seq<Item>, z': bool)
    requires Ends(s0, s, c, f, z) && Ends(s0, s, c, f', z')
    ensures f == f' && z == z'
    decreases CountUnfrozen(s)
  {
    var rem := FreeSpace(s0, s, c);
    hide Sum, Pass, CountUnfrozen;
    if !(rem != 0.0 && Sum(s, Shrink, Shares) == 0.0) {
      var r, g, lam, done :|
        && Pass(s0, s, r, g, c, rem, lam, done)
        && if done then !z && f == g else CountUnfrozen(g) < CountUnfrozen(s) && Ends(s0, g, c, f, z);
      var r', g', lam', done' :|
        && Pass(s0, s, r', g', c, rem, lam', done')
        && if done' then !z' && f' == g' else CountUnfrozen(g') < CountUnfrozen(s) && Ends(s0, g', c, f', z');
      PassOnce(s0, s, c, rem, r, g, lam, done, r', g', lam', done');
      if !done { EndsOnce(s0, g, c, f, z, f', z'); }
    }
  }

  // The loop has come from its start to `s`.
  ghost predicate Reached(s0: seq<Item>, s: seq<Item>, c: real) {
    forall f, z :: Ends(s0, s, c, f, z) ==> Ends(s0, Start(s0, Shrink), c, f, z)
  }

  lemma ReachedNext(s0: seq<Item>, s: seq<Item>, r: seq<Item>, f: seq<Item>, c: real, rem: real, lam: real, done: bool)
    requires Reached(s0, s, c) && Pass(s0, s, r, f, c, rem, lam, done) && rem == FreeSpace(s0, s, c)
    requires done || CountUnfrozen(f) < CountUnfrozen(s)
    ensures done ==> Ends(s0, Start(s0, Shrink), c, f, false)
    ensures !done ==> Reached(s0, f, c)
  {
    hide Sum, CountUnfrozen, Pass;
    assert rem == 0.0 || Sum(s, Shrink, Shares) != 0.0 by { PassShares(s0, s, r, f, c, rem, lam, done); }
    if done {
      assert Ends(s0, s, c, f, false);
    } else {
      forall f', z | Ends(s0, f, c, f', z) ensures Ends(s0, Start(s0, Shrink), c, f', z) {
        assert Ends(s0, s, c, f', z);
      }
    }
  }

  lemma PassShares(s0: seq<Item>, s: seq<Item>, r: seq<Item>, f: seq<Item>, c: real, rem: real, lam: real, done: bool)
    requires Pass(s0, s, r, f, c, rem, lam, done)
    ensures rem == 0.0 || Sum(s, Shrink, Shares) != 0.0
  {
  }

  // What the loop promises of a line, however it ends.
  ghost predicate Resolved(s0: seq<Item>, f: seq<Item>, c: real, byZero: bool) {
    && Sound(s0, f, Shrink) && Final(s0, c, f, byZero)
    && (byZero ==> Divided(s0, f))
    && (Sum(s0, Shrink, Main) > c ==>
          && NoneWider(s0, f) && AtBounds(s0, f)
          && (byZero || (Sum(f, Shrink, Main) >= c && Leveled(s0, f, c))))
    && (Solvable(s0, c) ==>
          && (byZero <==> NoRoom(s0, c))
          && (if byZero then AtLeast(s0, f) else Shrunk(s0, f, c)))
    && (Sum(s0, Shrink, Main) == c ==>
          && (byZero <==> EvenDivides(s0))
          && (byZero || Evened(s0, f)))
  }

  // ------------------------------------------------------------------ sizes that overflow

  // Between passes the line overflows at the level of the last freeze at a minimum.
  ghost predicate Overfull(s0: seq<Item>, s: seq<Item>, c: real) {
    && NoneWider(s0, s) && AtBounds(s0, s)
    && exists mu: real :: mu <= 0.0 && Sum(s, Shrink, Fitted(mu)) > c
  }

  lemma OverfullStart(s0: seq<Item>, c: real)
    requires FreshLine(s0, Shrink) && Sum(s0, Shrink, Main) > c
    ensures Overfull(s0, Start(s0, Shrink), c)
    ensures Sum(Start(s0, Shrink), Shrink, Fitted(0.0)) > c
  {
    var s := Start(s0, Shrink);
    StartAtBounds(s0);
    forall i | 0 <= i < |s| ensures Val(s[i], Shrink, Fitted(0.0)) == Val(s0[i], Shrink, Main) {
      assert Fresh(s0[i]) && Offer(s[i], Shrink, 0.0) == s[i].base;
    }
    SumEq(s, Fitted(0.0), s0, Main, Shrink);
  }

  // The unfrozen items fit into their base sizes, so those overflow even more.
  lemma OverfullUsed(s0: seq<Item>, s: seq<Item>, c: real, mu: real)
    requires FreshLine(s0, Shrink) && Rounds(s0, s, Shrink) && mu <= 0.0 && Sum(s, Shrink, Fitted(mu)) > c
    ensures Sum(s, Shrink, Used) > c
  {
    forall i | 0 <= i < |s| ensures Val(s[i], Shrink, Fitted(mu)) <= Val(s[i], Shrink, Used) {
      assert Fresh(s0[i]);
      if !s[i].frozen { OfferMono(s[i], Shrink, mu, 0.0); }
    }
    SumLe(s, Fitted(mu), s, Used, Shrink);
  }

  // There is always something to take back.
  lemma OverfullRemaining(s0: seq<Item>, s: seq<Item>, c: real, rem: real, k: nat)
    requires FreshLine(s0, Shrink) && Rounds(s0, s, Shrink) && Overfull(s0, s, c) && Sum(s0, Shrink, Main) > c
    requires k < |s| && !s[k].frozen
    requires rem == Capped(Shrink, InitialFreeSpace(s0, Shrink, c), c - Sum(s, Shrink, Used), Sum(s, Shrink, Factors))
    ensures c - Sum(s, Shrink, Used) <= rem < 0.0
  {
    hide Sum, Capped;
    OverfullStart(s0, c);
    StartRounds(s0, Shrink);
    OverfullUsed(s0, Start(s0, Shrink), c, 0.0);
    var mu :| mu <= 0.0 && Sum(s, Shrink, Fitted(mu)) > c;
    OverfullUsed(s0, s, c, mu);
    FactorsPositive(s0, s, k);
    CappedShare(InitialFreeSpace(s0, Shrink, c), c - Sum(s, Shrink, Used), Sum(s, Shrink, Factors));
  }

  // One pass for one item: never wider, and at the size a freeze would leave it.
  lemma OverfullOffer(i0: Item, it: Item, lam: real)
    requires Fresh(i0) && SameStatic(i0, it) && InBounds(it) && lam < 0.0
    requires !IsInflexible(i0, Shrink) ==> Weight(i0, Shrink) >= 0.0 && it.main <= i0.main
    requires it.frozen || !IsInflexible(i0, Shrink)
    ensures var r := Fixed(Offered(it, Shrink, lam));
            && (!IsInflexible(i0, Shrink) ==> r.main <= i0.main)
            && Val(it, Shrink, Fitted(lam)) == r.main
            && Val(Settled(r, MinViolation), Shrink, Fitted(lam)) == r.main
  {
    if !it.frozen { OfferMono(it, Shrink, lam, 0.0); }
  }

  // A freeze at the maximum leaves an item no smaller at any level not above zero.
  lemma OverfullMax(i0: Item, it: Item, lam: real, mu: real)
    requires Fresh(i0) && SameStatic(i0, it) && mu <= 0.0 && (!it.frozen ==> it.state == Unclamped)
    requires it.frozen || (Weight(i0, Shrink) >= 0.0 && !IsInflexible(i0, Shrink))
    ensures Val(it, Shrink, Fitted(mu)) <=
            Val(Settled(Fixed(Offered(it, Shrink, lam)), MaxViolation), Shrink, Fitted(mu))
  {
    if !it.frozen {
      OfferMono(it, Shrink, mu, 0.0);
      OfferStatic(it, Settled(Fixed(Offered(it, Shrink, lam)), MaxViolation), Shrink, mu);
    }
  }

  lemma OverfullNext(s0: seq<Item>, s: seq<Item>, r: seq<Item>, f: seq<Item>, c: real, rem: real, lam: real, done: bool)
    requires FreshLine(s0, Shrink) && Rounds(s0, s, Shrink) && Overfull(s0, s, c)
    requires c - Sum(s, Shrink, Used) <= rem && lam * Sum(s, Shrink, Shares) == rem && lam < 0.0
    requires IsOffered(s, r, Shrink, lam) && FixedUp(r, f, Shrink, done)
    ensures NoneWider(s0, f)
    ensures done ==> Sum(f, Shrink, Main) >= c
    ensures !done ==> Overfull(s0, f, c)
  {
    LinearSum(s, Shrink, lam);
    OfferedExcess(s, r, Shrink, lam);
    var excess := Sum(r, Shrink, Excess);
    var mu: real :| mu <= 0.0 && Sum(s, Shrink, Fitted(mu)) > c;
    forall i | 0 <= i < |s|
      ensures !IsInflexible(s0[i], Shrink) ==> f[i].main <= s0[i].main
      ensures excess == 0.0 ==> Val(s[i], Shrink, Fitted(lam)) == Val(f[i], Shrink, Main)
      ensures excess > 0.0 ==> Val(s[i], Shrink, Fitted(lam)) == Val(f[i], Shrink, Fitted(lam))
      ensures excess < 0.0 ==> Val(s[i], Shrink, Fitted(mu)) <= Val(f[i], Shrink, Fitted(mu))
    {
      assert Fresh(s0[i]);
      OverfullOffer(s0[i], s[i], lam);
      OverfullMax(s0[i], s[i], lam, mu);
    }
    NextAtBounds(s0, s, r, f, lam, done);
    hide IsOffered, Rounds, FreshLine, Overfull, AtBounds;
    if excess == 0.0 {
      SumEq(s, Fitted(lam), f, Main, Shrink);
    } else if excess > 0.0 {
      SumEq(s, Fitted(lam), f, Fitted(lam), Shrink);
      if done { SumEq(f, Fitted(lam), f, Main, Shrink); }
    } else {
      SumLe(s, Fitted(mu), f, Fitted(mu), Shrink);
      if done { SumEq(f, Fitted(mu), f, Main, Shrink); }
    }
  }

  // ------------------------------------------------------------------ solved lines

  lemma ShrinkStart(s0: seq<Item>, c: real)
    requires FreshLine(s0, Shrink) && Sum(s0, Shrink, Main) > c
    ensures Bracket(s0, Start(s0, Shrink), Shrink, c, Open, At(0.0), Open)
  {
    var s := Start(s0, Shrink);
    forall i | 0 <= i < |s| ensures ItemBetween(s0[i], s[i], Shrink, Open, At(0.0)) {
      assert Fresh(s0[i]);
      assert Offer(s[i], Shrink, 0.0) == s[i].base;
    }
    OverfullStart(s0, c);
  }

  // With no factor below 1000, step 4.b never cuts the free space down.
  lemma FactorsAreWhole(s0: seq<Item>, s: seq<Item>, c: real, lo: Bound, hi: Bound, k: nat)
    requires FreshLine(s0, Shrink) && Bracket(s0, s, Shrink, c, lo, hi, Open)
    requires !SmallFactor(s0, Shrink) && k < |s| && !s[k].frozen
    ensures Sum(s, Shrink, Factors) >= 1000.0
  {
    forall i | 0 <= i < |s| ensures Val(s[i], Shrink, Factors) >= 0.0 {
      Between(s0, s, Shrink, c, lo, hi, Open, i);
    }
    Between(s0, s, Shrink, c, lo, hi, Open, k);
    assert Factor(s0[k], Shrink) >= 1000;
    FactorLeSum(s, Shrink, k);
  }

  lemma SolvableLevel(s0: seq<Item>, s: seq<Item>, c: real, initial: real, lo: Bound, hi: Bound, k: nat, rem: real,
                      lam: real)
    requires FreshLine(s0, Shrink) && Bracket(s0, s, Shrink, c, lo, hi, Open)
    requires Solvable(s0, c) && k < |s| && !s[k].frozen
    requires rem == Capped(Shrink, initial, c - Sum(s, Shrink, Used), Sum(s, Shrink, Factors))
    requires lam * Sum(s, Shrink, Shares) == rem
    ensures Chosen(s, Shrink, c, Open, lam)
  {
    hide Sum, Bracket;
    FactorsAreWhole(s0, s, c, lo, hi, k);
    LinearSum(s, Shrink, lam);
  }

  // With only weightless items left, every other is at its least size, and together
  // that is more than the container holds.
  lemma OnlyWeightless(s0: seq<Item>, s: seq<Item>, c: real, lo: Bound, hi: Bound)
    requires FreshLine(s0, Shrink) && Bracket(s0, s, Shrink, c, lo, hi, Open) && hi.At?
    requires forall i | 0 <= i < |s| && !s[i].frozen :: Weightless(s0[i], Shrink)
    ensures Sum(s0, Shrink, Least) > c
    ensures forall i | 0 <= i < |s| && s[i].frozen && !Weightless(s0[i], Shrink) ::
              s[i].main == Val(s0[i], Shrink, Least)
  {
    forall i | 0 <= i < |s|
      ensures lo.At? ==> Val(s[i], Shrink, Fitted(lo.lam)) == Val(s[i], Shrink, Fitted(hi.lam))
      ensures lo.Open? ==> Val(s0[i], Shrink, Least) == Val(s[i], Shrink, Fitted(hi.lam))
    {
      Between(s0, s, Shrink, c, lo, hi, Open, i);
      LeastOrSame(s0[i], s[i], lo, hi);
    }
    if lo.At? {
      SumEq(s, Fitted(lo.lam), s, Fitted(hi.lam), Shrink);
    } else {
      SumEq(s0, Least, s, Fitted(hi.lam), Shrink);
    }
  }

  lemma LeastOrSame(i0: Item, it: Item, lo: Bound, hi: Bound)
    requires Fresh(i0) && ItemBetween(i0, it, Shrink, lo, hi) && hi.At?
    requires !it.frozen ==> Weightless(i0, Shrink)
    ensures lo.At? ==> Val(it, Shrink, Fitted(lo.lam)) == Val(it, Shrink, Fitted(hi.lam))
    ensures lo.Open? ==> Val(i0, Shrink, Least) == Val(it, Shrink, Fitted(hi.lam))
  {
    if Weightless(i0, Shrink) {
      assert hi.lam * 0.0 == 0.0 && Offer(it, Shrink, hi.lam) == it.base;
      if lo.At? { assert lo.lam * 0.0 == 0.0 && Offer(it, Shrink, lo.lam) == it.base; }
    }
  }

  // If the container does not hold the least sizes, no pass at its level ends the
  // loop or freezes an item without a weight.
  lemma NeverEnough(s0: seq<Item>, s: seq<Item>, r: seq<Item>, f: seq<Item>, c: real, lo: Bound, hi: Bound,
                    lam: real, k: nat, done: bool)
    requires FreshLine(s0, Shrink) && Bracket(s0, s, Shrink, c, lo, hi, Open)
    requires Chosen(s, Shrink, c, Open, lam) && Sum(s0, Shrink, Least) > c
    requires k < |s| && !s[k].frozen && Weightless(s0[k], Shrink)
    requires IsOffered(s, r, Shrink, lam) && FixedUp(r, f, Shrink, done)
    ensures !done && !f[k].frozen
  {
    forall i | 0 <= i < |s|
      ensures Val(s0[i], Shrink, Least) <= Val(s[i], Shrink, Fitted(lam))
      ensures !s[i].frozen && Weightless(s0[i], Shrink) ==>
                !Settled(Fixed(Offered(s[i], Shrink, lam)), MinViolation).frozen
    {
      Between(s0, s, Shrink, c, lo, hi, Open, i);
      LeastOrMore(s0[i], s[i], lo, hi, lam);
    }
    SumLe(s0, Least, s, Fitted(lam), Shrink);
    OfferedExcess(s, r, Shrink, lam);
  }

  lemma LeastOrMore(i0: Item, it: Item, lo: Bound, hi: Bound, lam: real)
    requires Fresh(i0) && ItemBetween(i0, it, Shrink, lo, hi)
    ensures Val(i0, Shrink, Least) <= Val(it, Shrink, Fitted(lam))
    ensures !it.frozen && Weightless(i0, Shrink) ==>
              !Settled(Fixed(Offered(it, Shrink, lam)), MinViolation).frozen
  {
    if Weightless(i0, Shrink) {
      assert lam * Weight(it, Shrink) == 0.0 && Offer(it, Shrink, lam) == it.base;
      if hi.At? { assert hi.lam * 0.0 == 0.0 && Offer(it, Shrink, hi.lam) == it.base; }
    }
  }

  // ------------------------------------------------------------------ between passes

  ghost predicate Shrinking(s0: seq<Item>, s: seq<Item>, c: real) {
    && FreshLine(s0, Shrink) && Rounds(s0, s, Shrink) && Reached(s0, s, c)
    && (Sum(s0, Shrink, Main) > c ==> Overfull(s0, s, c))
    && (Sum(s0, Shrink, Main) == c ==> EvenState(s0, s))
    && (Solvable(s0, c) ==> exists lo, hi :: Solving(s0, s, c, lo, hi))
  }

  // Items frozen so far would end at their bounds at the level that solves the line; one
  // without a weight is not frozen when there is no room.
  ghost predicate Solving(s0: seq<Item>, s: seq<Item>, c: real, lo: Bound, hi: Bound) {
    && |s| == |s0| && Bracket(s0, s, Shrink, c, lo, hi, Open) && hi.At?
    && (NoRoom(s0, c) ==> forall i | 0 <= i < |s| && Weightless(s0[i], Shrink) :: !s[i].frozen)
  }

  lemma ShrinkingReady(s0: seq<Item>, s: seq<Item>, c: real)
    requires Shrinking(s0, s, c)
    ensures Ready(s)
  {
  }

  lemma ShrinkShares(s0: seq<Item>, s: seq<Item>, c: real)
    requires Shrinking(s0, s, c)
    ensures Sum(s, Shrink, Shares) >= 0.0
  {
    SharesNonNegative(s0, s, Shrink);
  }

  lemma ShrinkingStart(s0: seq<Item>, c: real)
    requires FreshLine(s0, Shrink)
    ensures Shrinking(s0, Start(s0, Shrink), c)
  {
    StartRounds(s0, Shrink);
    EvenStart(s0);
    if Sum(s0, Shrink, Main) > c {
      OverfullStart(s0, c);
      ShrinkStart(s0, c);
      assert Solving(s0, Start(s0, Shrink), c, Open, At(0.0));
    }
  }

  lemma NothingToShrink(s0: seq<Item>, c: real)
    requires FreshLine(s0, Shrink)
    requires forall i | 0 <= i < |s0| :: IsInflexible(s0[i], Shrink)
    ensures Resolved(s0, Start(s0, Shrink), c, false)
  {
    SumEq(Start(s0, Shrink), Main, s0, Main, Shrink);
    if Sum(s0, Shrink, Main) > c {
      assert ShrunkAt(s0, Start(s0, Shrink), c, -1.0);
    }
  }

  // No weight is left to divide by.
  lemma ShrinkDivides(s0: seq<Item>, s: seq<Item>, c: real, k: nat, rem: real)
    requires Shrinking(s0, s, c) && k < |s| && !s[k].frozen
    requires rem == FreeSpace(s0, s, c) != 0.0 && Sum(s, Shrink, Shares) == 0.0
    ensures Resolved(s0, s, c, true)
  {
    hide Sum, Bracket, Capped, SmallFactor, Reached, Ends, Overfull, EvenDivides;
    NoneHasWeight(s0, s);
    SomeFlexible(s0, s);
    DividesEnds(s0, s, c, rem);
    if Sum(s0, Shrink, Main) > c { OverfullIsNarrow(s0, s, c); }
    if Solvable(s0, c) {
      var lo, hi :| Solving(s0, s, c, lo, hi);
      OnlyWeightless(s0, s, c, lo, hi);
      assert NoRoom(s0, c);
    }
    if Sum(s0, Shrink, Main) == c {
      EvenRemaining(s0, s, InitialFreeSpace(s0, Shrink, c), rem, k);
      var x :| 0 <= x < |s| && !s[x].frozen && Over(s0[x]);
      EvenShares(s0, s, x);
    }
  }

  lemma OverfullIsNarrow(s0: seq<Item>, s: seq<Item>, c: real)
    requires Overfull(s0, s, c)
    ensures NoneWider(s0, s) && AtBounds(s0, s)
  {
  }

  lemma DividesEnds(s0: seq<Item>, s: seq<Item>, c: real, rem: real)
    requires Reached(s0, s, c) && rem == FreeSpace(s0, s, c) != 0.0 && Sum(s, Shrink, Shares) == 0.0
    ensures Ends(s0, Start(s0, Shrink), c, s, true)
  {
    assert Ends(s0, s, c, s, true);
  }

  lemma NoneHasWeight(s0: seq<Item>, s: seq<Item>)
    requires FreshLine(s0, Shrink) && Rounds(s0, s, Shrink) && Sum(s, Shrink, Shares) == 0.0
    ensures forall i | 0 <= i < |s| && !s[i].frozen :: Weightless(s0[i], Shrink)
  {
    forall i | 0 <= i < |s| && !s[i].frozen ensures Weightless(s0[i], Shrink) {
      if Weight(s[i], Shrink) > 0.0 { SharesPositive(s0, s, Shrink, i); }
    }
  }

  lemma SharedIsReady(s: seq<Item>, r: seq<Item>, rem: real, lam: real)
    requires Ready(s) && SharedOut(s, r, rem, lam)
    ensures Ready(r)
  {
    OfferedIsReady(s, r, Shrink, lam);
  }

  lemma PassMade(s0: seq<Item>, s: seq<Item>, r: seq<Item>, f: seq<Item>, c: real, rem: real, lam: real, k: nat,
                 done: bool)
    requires rem == FreeSpace(s0, s, c)
    requires k < |s| && !s[k].frozen
    requires SharedOut(s, r, rem, lam)
    requires FixedUp(r, f, Shrink, done)
    ensures Pass(s0, s, r, f, c, rem, lam, done)
  {
  }

  lemma EvenNext(s0: seq<Item>, s: seq<Item>, r: seq<Item>, f: seq<Item>, c: real, rem: real, lam: real, done: bool)
    requires Shrinking(s0, s, c) && Sum(s0, Shrink, Main) == c && Pass(s0, s, r, f, c, rem, lam, done)
    ensures done ==> Evened(s0, f) && !EvenDivides(s0)
    ensures !done ==> EvenState(s0, f)
  {
    hide Sum, Bracket, Capped, Evened, IsOffered, FixedUp, Rounds, EvenDivides;
    var k :| 0 <= k < |s| && !s[k].frozen;
    EvenRemaining(s0, s, InitialFreeSpace(s0, Shrink, c), rem, k);
    if rem == 0.0 {
      EvenStop(s0, s, f, done);
    } else {
      var x :| 0 <= x < |s| && !s[x].frozen && Over(s0[x]);
      EvenShares(s0, s, x);
      NegativeLevel(rem, Sum(s, Shrink, Shares));
      EvenPass(s0, s, r, f, rem, lam, x, done);
    }
  }

  lemma NegativeLevel(x: real, y: real)
    requires x < 0.0 && y > 0.0
    ensures x / y < 0.0 && x / y * y == x
  {
  }

  lemma OverflowNext(s0: seq<Item>, s: seq<Item>, r: seq<Item>, f: seq<Item>, c: real, rem: real, lam: real,
                     done: bool)
    requires Shrinking(s0, s, c) && Sum(s0, Shrink, Main) > c && Pass(s0, s, r, f, c, rem, lam, done)
    ensures |f| == |s| && NoneWider(s0, f)
    ensures done ==> Sum(f, Shrink, Main) >= c && Leveled(s0, f, c) && AtBounds(s0, f)
    ensures !done ==> Overfull(s0, f, c)
    ensures lam < 0.0 && lam * Sum(s, Shrink, Shares) == rem && IsOffered(s, r, Shrink, lam)
  {
    hide Sum, Bracket, Capped, IsOffered, FixedUp, Overfull;
    var k :| 0 <= k < |s| && !s[k].frozen;
    OverfullRemaining(s0, s, c, rem, k);
    NegativeLevel(rem, Sum(s, Shrink, Shares));
    OverfullNext(s0, s, r, f, c, rem, lam, done);
    if done {
      OverfullIsNarrow(s0, s, c);
      EndLeveled(s0, s, r, f, c, rem, lam);
    }
  }

  lemma SolvableNext(s0: seq<Item>, s: seq<Item>, r: seq<Item>, f: seq<Item>, c: real, lo: Bound, hi: Bound,
                     rem: real, lam: real, done: bool)
    returns (lo': Bound, hi': Bound)
    requires FreshLine(s0, Shrink) && Solving(s0, s, c, lo, hi) && Solvable(s0, c)
    requires Pass(s0, s, r, f, c, rem, lam, done)
    requires lam < 0.0 && lam * Sum(s, Shrink, Shares) == rem && IsOffered(s, r, Shrink, lam) && |f| == |s|
    ensures done ==> Shrunk(s0, f, c) && !NoRoom(s0, c)
    ensures !done ==> Solving(s0, f, c, lo', hi')
  {
    hide Sum, Bracket, Chosen, Capped, FixedUp, IsOffered, Rounds, SmallFactor, FreshLine, Filled;
    var k :| 0 <= k < |s| && !s[k].frozen;
    SolvableLevel(s0, s, c, InitialFreeSpace(s0, Shrink, c), lo, hi, k, rem, lam);
    var mu;
    lo', hi', mu := NextLevel(s0, s, r, f, Shrink, c, lo, hi, Open, lam, k, done);
    assert done ==> ShrunkAt(s0, f, c, mu);
    if NoRoom(s0, c) {
      forall i | 0 <= i < |s| && Weightless(s0[i], Shrink) ensures !done && !f[i].frozen {
        NeverEnough(s0, s, r, f, c, lo, hi, lam, i, done);
      }
    }
  }

  lemma ShrinkNext(s0: seq<Item>, s: seq<Item>, r: seq<Item>, f: seq<Item>, c: real, rem: real, lam: real, done: bool)
    requires Shrinking(s0, s, c) && Pass(s0, s, r, f, c, rem, lam, done)
    ensures done ==> Resolved(s0, f, c, false)
    ensures !done ==> Shrinking(s0, f, c) && CountUnfrozen(f) < CountUnfrozen(s)
    ensures !done ==> exists i | 0 <= i < |f| :: !f[i].frozen
  {
    hide Sum, Capped, FixedUp, IsOffered, EvenState, Evened, CountUnfrozen, Rounds, Sound, Solving, Overfull;
    hide FreshLine, Shrunk, EvenDivides, NoRoom, SmallFactor, Reached, Ends, Leveled, AtBounds;
    assert IsShared(s, r) by { OfferedIsShared(s, r, lam, rem); }
    NextSound(s0, s, r, f, Shrink, done);
    ReachedNext(s0, s, r, f, c, rem, lam, done);
    SomeFlexible(s0, s);
    if Sum(s0, Shrink, Main) > c {
      OverflowNext(s0, s, r, f, c, rem, lam, done);
      if Solvable(s0, c) {
        var lo, hi :| Solving(s0, s, c, lo, hi);
        var lo', hi' := SolvableNext(s0, s, r, f, c, lo, hi, rem, lam, done);
      }
    } else if Sum(s0, Shrink, Main) == c {
      EvenNext(s0, s, r, f, c, rem, lam, done);
    }
  }

  lemma SomeFlexible(s0: seq<Item>, s: seq<Item>)
    requires Rounds(s0, s, Shrink) && exists k | 0 <= k < |s| :: !s[k].frozen
    ensures exists k | 0 <= k < |s0| :: !IsInflexible(s0[k], Shrink)
  {
  }

  lemma OfferedIsShared(s: seq<Item>, r: seq<Item>, lam: real, rem: real)
    requires if rem == 0.0 then r == s else IsOffered(s, r, Shrink, lam)
    ensures IsShared(s, r)
  {
  }

  // An empty item beside one of 200 that shrinks to 150 at least, in 100: the loop
  // freezes that one and is left with no weight to divide by.
  lemma DividesByZero(a: Item, b: Item)
    requires a == Item(0.0, 0.0, NoLimit, 0.0, 0, 1000, 0.0, false, Unclamped)
    requires b == Item(200.0, 150.0, NoLimit, 200.0, 0, 1000, 200000.0, false, Unclamped)
    ensures FreshLine([a, b], Shrink) && Solvable([a, b], 100.0) && NoRoom([a, b], 100.0)
  {
    var s := [a, b];
    assert Weightless(s[0], Shrink);
    TwoSum(a, b, Main);
    TwoSum(a, b, Least);
  }

  // With factors below one it happens on lines with room for the least sizes, too: of
  // 100 in 55, at most 60, the first pass would leave 73; that item freezes at 60, and
  // an empty one is left to take back 5.
  lemma SmallFactorsDivide(a: Item, b: Item, f: seq<Item>) returns (r: seq<Item>, lam: real)
    requires a == Item(100.0, 0.0, Limit(60.0), 60.0, 0, 300, 30000.0, false, Unclamped)
    requires b == Item(0.0, 0.0, NoLimit, 0.0, 0, 300, 0.0, false, Unclamped)
    requires f == [a.(frozen := true, state := MaxViolation), b]
    ensures FreshLine([a, b], Shrink) && Sum([a, b], Shrink, Main) == 60.0 && Sum([a, b], Shrink, Least) == 0.0
    ensures Start([a, b], Shrink) == [a, b] && Pass([a, b], [a, b], r, f, 55.0, -27.0, lam, false)
    ensures Sum(f, Shrink, Shares) == 0.0
    ensures FreeSpace([a, b], f, 55.0) == -5.0
  {
    hide *;
    r := [a.(main := 73.0), b];
    SmallLine(a, b, f);
    SmallFreeze(a, b, r, f);
    lam := SmallShare(a, b, r);
    PassMade([a, b], [a, b], r, f, 55.0, -27.0, lam, 0, false);
  }

  lemma SmallLine(a: Item, b: Item, f: seq<Item>)
    requires a == Item(100.0, 0.0, Limit(60.0), 60.0, 0, 300, 30000.0, false, Unclamped)
    requires b == Item(0.0, 0.0, NoLimit, 0.0, 0, 300, 0.0, false, Unclamped)
    requires f == [a.(frozen := true, state := MaxViolation), b]
    ensures FreshLine([a, b], Shrink) && Sum([a, b], Shrink, Main) == 60.0 && Sum([a, b], Shrink, Least) == 0.0
    ensures Start([a, b], Shrink) == [a, b] && Sum(f, Shrink, Shares) == 0.0
    ensures FreeSpace([a, b], [a, b], 55.0) == -27.0 && FreeSpace([a, b], f, 55.0) == -5.0
  {
    hide Sum;
    assert Start([a, b], Shrink) == [a, b];
    TwoSum(a, b, Main);
    TwoSum(a, b, Least);
    TwoSum(a, b, Used);
    TwoSum(a, b, Factors);
    TwoSum(f[0], b, Used);
    TwoSum(f[0], b, Shares);
    TwoSum(f[0], b, Factors);
  }

  lemma SmallShare(a: Item, b: Item, r: seq<Item>) returns (lam: real)
    requires !a.frozen && a.base == 100.0 && a.scaled == 30000.0
    requires !b.frozen && b.base == b.main == b.scaled == 0.0
    requires r == [a.(main := 73.0), b]
    ensures SharedOut([a, b], r, -27.0, lam)
  {
    hide Sum;
    lam := -27.0 / 30000.0;
    TwoSum(a, b, Shares);
  }

  lemma SmallFreeze(a: Item, b: Item, r: seq<Item>, f: seq<Item>)
    requires !a.frozen && a.min <= 60.0 && a.max == Limit(60.0)
    requires !b.frozen && b.min == b.main == 0.0 && b.max.NoLimit? && b.state == Unclamped
    requires r == [a.(main := 73.0), b] && f == [a.(main := 60.0, frozen := true, state := MaxViolation), b]
    ensures FixedUp(r, f, Shrink, false)
  {
    TwoSum(r[0], b, Excess);
    assert !r[0].frozen && f[0].frozen && !f[1].frozen;
  }

  lemma TwoSum(a: Item, b: Item, t: Term)
    ensures Sum([a, b], Shrink, t) == Val(a, Shrink, t) + Val(b, Shrink, t)
  {
    assert [a, b][..1] == [a] && [a][..0] == [];
    assert Sum([a][..0], Shrink, t) == 0.0;
  }

  // ------------------------------------------------------------------ nothing clamped

  // The part of an overflow that factors of this sum take back.
  function Part(sum: real): real {
    if sum < 1000.0 then sum / 1000.0 else 1.0
  }

  // No bound stops an item at the level that takes that part back.
  ghost predicate Unstopped(s0: seq<Item>, c: real, lam: real) {
    var s := Start(s0, Shrink);
    && Sum(s, Shrink, Shares) > 0.0
    && lam * Sum(s, Shrink, Shares) == (c - Sum(s, Shrink, Used)) * Part(Sum(s, Shrink, Factors))
    && forall i | 0 <= i < |s0| && !IsInflexible(s0[i], Shrink) ::
         s0[i].min <= Offer(s0[i], Shrink, lam) && (s0[i].max.Limit? ==> Offer(s0[i], Shrink, lam) <= s0[i].max.value)
  }

  // Then every flexible item is at that level, and the line gives up exactly that part.
  lemma NoneStopped(s0: seq<Item>, f: seq<Item>, c: real, byZero: bool, lam: real)
    requires FreshLine(s0, Shrink) && Sum(s0, Shrink, Main) > c && Resolved(s0, f, c, byZero)
    requires Unstopped(s0, c, lam)
    ensures !byZero && |f| == |s0|
    ensures forall i | 0 <= i < |f| ::
              f[i].main == if IsInflexible(s0[i], Shrink) then s0[i].main else Offer(s0[i], Shrink, lam)
    ensures var s := Start(s0, Shrink);
            var overflow := Sum(s, Shrink, Used) - c;
            Sum(f, Shrink, Main) == c + overflow * (1.0 - Part(Sum(s, Shrink, Factors)))
  {
    hide Sum, Resolved, Pass, CountUnfrozen, Capped;
    var s := Start(s0, Shrink);
    ResolvedIsFinal(s0, f, c, byZero);
    StartTakesBack(s0, c, lam);
    var rem := FreeSpace(s0, s, c);
    assert Ends(s0, s, c, f, byZero);
    var r, g, lam', done :|
      && Pass(s0, s, r, g, c, rem, lam', done)
      && if done then !byZero && f == g else CountUnfrozen(g) < CountUnfrozen(s) && Ends(s0, g, c, f, byZero);
    FirstIsLast(s0, c, r, g, rem, lam, lam', done);
    PartLeft(c, Sum(s, Shrink, Used), Part(Sum(s, Shrink, Factors)));
  }

  lemma ResolvedIsFinal(s0: seq<Item>, f: seq<Item>, c: real, byZero: bool)
    requires Resolved(s0, f, c, byZero)
    ensures Final(s0, c, f, byZero)
  {
  }

  lemma PartLeft(c: real, used: real, part: real)
    ensures used + (c - used) * part == c + (used - c) * (1.0 - part)
  {
  }

  lemma StartTakesBack(s0: seq<Item>, c: real, lam: real)
    requires FreshLine(s0, Shrink) && Sum(s0, Shrink, Main) > c && Unstopped(s0, c, lam)
    ensures exists i | 0 <= i < |s0| :: !IsInflexible(s0[i], Shrink)
    ensures FreeSpace(s0, Start(s0, Shrink), c) == lam * Sum(Start(s0, Shrink), Shrink, Shares) < 0.0
  {
    hide Sum, Capped, Rounds, Overfull;
    var s := Start(s0, Shrink);
    StartRounds(s0, Shrink);
    OverfullStart(s0, c);
    SomeShares(s0);
    var k :| 0 <= k < |s0| && !IsInflexible(s0[k], Shrink);
    OverfullRemaining(s0, s, c, FreeSpace(s0, s, c), k);
    PartTaken(c - Sum(s, Shrink, Used), Sum(s, Shrink, Factors));
  }

  lemma SomeShares(s0: seq<Item>)
    requires Sum(Start(s0, Shrink), Shrink, Shares) > 0.0
    ensures exists i | 0 <= i < |s0| :: !IsInflexible(s0[i], Shrink)
  {
    if forall i | 0 <= i < |s0| :: IsInflexible(s0[i], Shrink) { NoShares(Start(s0, Shrink)); }
  }

  lemma PartTaken(initial: real, sum: real)
    requires Capped(Shrink, initial, initial, sum) < 0.0
    ensures Capped(Shrink, initial, initial, sum) == initial * Part(sum)
  {
  }

  // The first pass moves nothing by clamping.
  lemma FirstIsLast(s0: seq<Item>, c: real, r: seq<Item>, g: seq<Item>, rem: real, lam: real, lam': real, done: bool)
    requires FreshLine(s0, Shrink) && Unstopped(s0, c, lam)
    requires Pass(s0, Start(s0, Shrink), r, g, c, rem, lam', done)
    requires rem == lam * Sum(Start(s0, Shrink), Shrink, Shares) < 0.0
    ensures done && |g| == |s0|
    ensures forall i | 0 <= i < |g| ::
              g[i].main == if IsInflexible(s0[i], Shrink) then s0[i].main else Offer(s0[i], Shrink, lam)
    ensures Sum(g, Shrink, Main) == Sum(Start(s0, Shrink), Shrink, Used) + rem
  {
    hide Sum, Capped, FixedUp, FreshLine;
    var s := Start(s0, Shrink);
    Cancel(lam, lam', Sum(s, Shrink, Shares));
    LinearSum(s, Shrink, lam);
    forall i | 0 <= i < |s|
      ensures Val(r[i], Shrink, Excess) == 0.0 && Fixed(r[i]) == r[i]
      ensures r[i].main == Val(s[i], Shrink, Linear(lam))
      ensures r[i].main == if IsInflexible(s0[i], Shrink) then s0[i].main else Offer(s0[i], Shrink, lam)
    {
      FirstItem(s0, i, lam);
    }
    NothingFixed(r, g, done);
    SumEq(g, Main, s, Linear(lam), Shrink);
  }

  lemma FirstItem(s0: seq<Item>, i: nat, lam: real)
    requires FreshLine(s0, Shrink) && i < |s0|
    requires !IsInflexible(s0[i], Shrink) ==>
               && s0[i].min <= Offer(s0[i], Shrink, lam)
               && (s0[i].max.Limit? ==> Offer(s0[i], Shrink, lam) <= s0[i].max.value)
    ensures var r := Offered(Frozen0(s0[i], Shrink), Shrink, lam);
            && Val(r, Shrink, Excess) == 0.0 && Fixed(r) == r
            && r.main == Val(Frozen0(s0[i], Shrink), Shrink, Linear(lam))
            && r.main == if IsInflexible(s0[i], Shrink) then s0[i].main else Offer(s0[i], Shrink, lam)
  {
    assert Fresh(s0[i]);
  }

  lemma NothingFixed(r: seq<Item>, g: seq<Item>, done: bool)
    requires FixedUp(r, g, Shrink, done)
    requires forall i | 0 <= i < |r| :: Val(r[i], Shrink, Excess) == 0.0 && Fixed(r[i]) == r[i]
    ensures done && g == r
  {
    ExcessZero(r);
  }

  lemma Cancel(a: real, b: real, m: real)
    requires m > 0.0 && b == a * m / m
    ensures a == b
  {
  }
}
