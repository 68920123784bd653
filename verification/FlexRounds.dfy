// From one pass of the distribution loop to the next, and what the loop is for.
module FlexRounds {
  import opened FlexModel
  import opened FlexLaws

  // The free space a line starts with (step 3).
  function InitialFreeSpace(s0: seq<Item>, mode: Mode, c: real): real {
    c - Sum(Start(s0, mode), mode, Used)
  }

  // Growing solves the line at one positive level and never overfills it.
  ghost predicate Grown(s0: seq<Item>, s: seq<Item>, c: real) {
    exists lam: real :: lam > 0.0 && GrownAt(s0, s, c, lam)
  }

  ghost predicate GrownAt(s0: seq<Item>, s: seq<Item>, c: real, lam: real) {
    && Filled(s0, s, Grow, c, At(InitialFreeSpace(s0, Grow, c) / 1000.0), lam)
    && Sum(s, Grow, Main) <= c
  }

  // Step 4.b: factors that sum to less than one use only that part of the
  // initial free space.
  function Capped(mode: Mode, initial: real, free: real, total: real): real {
    var cut := initial * total / 1000.0;
    if total >= 1000.0 then free
    else if mode.Grow? then if cut < free then cut else free
    else if cut > free then cut else free
  }

  // What FixMinMaxViolations does to the sizes of a whole line.
  ghost predicate FixedUp(r: seq<Item>, f: seq<Item>, mode: Mode, done: bool) {
    var excess := Sum(r, mode, Excess);
    && |f| == |r|
    && (excess == 0.0 ==> done && forall i | 0 <= i < |r| :: f[i] == Fixed(r[i]))
    && (excess != 0.0 ==>
          var state := if excess > 0.0 then MinViolation else MaxViolation;
          && (forall i | 0 <= i < |r| :: f[i] == Settled(Fixed(r[i]), state))
          && (done <==> forall i | 0 <= i < |f| :: f[i].frozen)
          && (exists i | 0 <= i < |f| :: !r[i].frozen && f[i].frozen))
  }

  // What FixMinMaxViolations needs of the unfrozen items.
  ghost predicate Ready(s: seq<Item>) {
    forall i | 0 <= i < |s| && !s[i].frozen ::
      s[i].state == Unclamped && (s[i].max.Limit? ==> s[i].min <= s[i].max.value)
  }

  lemma OfferedIsReady(s: seq<Item>, r: seq<Item>, mode: Mode, lam: real)
    requires Ready(s) && (r == s || IsOffered(s, r, mode, lam))
    ensures Ready(r)
  {
  }

  ghost predicate IsOffered(s: seq<Item>, r: seq<Item>, mode: Mode, lam: real) {
    |r| == |s| && forall i | 0 <= i < |s| :: r[i] == Offered(s[i], mode, lam)
  }

  lemma SumMode(s: seq<Item>, a: Mode, b: Mode)
    ensures Sum(s, a, Main) == Sum(s, b, Main)
  {
    if s != [] { SumMode(s[..|s| - 1], a, b); }
  }

  // A pass changes an item only in its target size, and only if unfrozen.
  ghost predicate IsShared(s: seq<Item>, r: seq<Item>) {
    && |r| == |s|
    && forall i | 0 <= i < |s| :: if s[i].frozen then r[i] == s[i] else r[i] == s[i].(main := r[i].main)
  }

  lemma OfferedExcess(s: seq<Item>, r: seq<Item>, mode: Mode, lam: real)
    requires IsOffered(s, r, mode, lam)
    ensures Sum(r, mode, Excess) == Sum(s, mode, Fitted(lam)) - Sum(s, mode, Linear(lam))
  {
    SumDifference(r, Excess, s, Fitted(lam), Linear(lam), mode);
  }

  lemma SharedIsOffered(it: Item, mode: Mode, rem: real, total: real)
    requires total > 0.0 && rem != 0.0
    ensures Shared(it, mode, rem, total) == Offered(it, mode, rem / total)
  {
  }

  // ------------------------------------------------------- with no assumption

  // Each pass keeps the bounds, leaves inflexible items alone, and a pass that
  // does not end the loop freezes at least one more item.
  lemma NextSound(s0: seq<Item>, s: seq<Item>, r: seq<Item>, f: seq<Item>, mode: Mode, done: bool)
    requires FreshLine(s0, mode) && Rounds(s0, s, mode)
    requires IsShared(s, r)
    requires FixedUp(r, f, mode, done)
    ensures Sound(s0, f, mode)
    ensures !done ==> Rounds(s0, f, mode) && CountUnfrozen(f) < CountUnfrozen(s)
    ensures !done ==> exists i | 0 <= i < |f| :: !f[i].frozen
  {
    hide CountUnfrozen;
    forall i | 0 <= i < |s|
      ensures SameStatic(s0[i], f[i]) && InBounds(f[i])
      ensures IsInflexible(s0[i], mode) ==> f[i] == Frozen0(s0[i], mode)
      ensures s[i].frozen ==> f[i].frozen
      ensures !done && !f[i].frozen ==> f[i].state == Unclamped
    {
      assert Fresh(s0[i]);
    }
    if !done {
      var k :| 0 <= k < |f| && !r[k].frozen && f[k].frozen;
      CountLt(s, f, k);
    }
  }

  // An unfrozen item has a factor, and only a weight keeps the divisor from zero.
  lemma FactorsPositive(s0: seq<Item>, s: seq<Item>, k: nat)
    requires FreshLine(s0, Shrink) && |s| == |s0| && k < |s| && !s[k].frozen
    requires forall i | 0 <= i < |s| :: SameStatic(s0[i], s[i]) && (IsInflexible(s0[i], Shrink) ==> s[i].frozen)
    ensures Sum(s, Shrink, Factors) > 0.0
  {
    forall i | 0 <= i < |s| ensures Val(s[i], Shrink, Factors) >= 0.0 { assert Fresh(s0[i]); }
    assert Fresh(s0[k]);
    FactorLeSum(s, Shrink, k);
  }

  lemma {:induction false} NoShares(s: seq<Item>)
    requires forall i | 0 <= i < |s| :: Val(s[i], Shrink, Shares) == 0.0
    ensures Sum(s, Shrink, Shares) == 0.0
  {
    if s != [] { NoShares(s[..|s| - 1]); }
  }

  // ------------------------------------------------------------ solved lines

  lemma NextAfterMin(s0: seq<Item>, s: seq<Item>, f: seq<Item>, mode: Mode, c: real,
                     lo: Bound, hi: Bound, cap: Bound, lam: real, k: nat, done: bool)
    requires FreshLine(s0, mode) && Bracket(s0, s, mode, c, lo, hi, cap) && Chosen(s, mode, c, cap, lam)
    requires k < |s| && !s[k].frozen
    requires Sum(s, mode, Fitted(lam)) > Sum(s, mode, Linear(lam))
    requires IsRound(s, f, mode, lam, MinViolation)
    requires done <==> forall i | 0 <= i < |f| :: f[i].frozen
    ensures !done ==> Bracket(s0, f, mode, c, lo, At(lam), cap)
    ensures done ==> Filled(s0, f, mode, c, cap, lam)
    ensures done && lo.At? ==> Sum(f, mode, Main) <= c
    ensures done && cap.Open? ==> Sum(f, mode, Main) >= c
  {
    if done {
      EndAtMin(s0, s, f, mode, c, lo, hi, cap, lam, k);
    } else {
      FreezeMin(s0, s, f, mode, c, lo, hi, cap, lam);
    }
  }

  lemma NextAfterMax(s0: seq<Item>, s: seq<Item>, f: seq<Item>, mode: Mode, c: real,
                     lo: Bound, hi: Bound, cap: Bound, lam: real, k: nat, done: bool)
    returns (mu: real)
    requires FreshLine(s0, mode) && Bracket(s0, s, mode, c, lo, hi, cap) && Chosen(s, mode, c, cap, lam)
    requires k < |s| && !s[k].frozen
    requires Sum(s, mode, Fitted(lam)) < Sum(s, mode, Linear(lam))
    requires IsRound(s, f, mode, lam, MaxViolation)
    requires done <==> forall i | 0 <= i < |f| :: f[i].frozen
    ensures !done ==> Bracket(s0, f, mode, c, At(lam), hi, cap)
    ensures done ==> Filled(s0, f, mode, c, cap, mu) && lam <= mu
    ensures done ==> Sum(f, mode, Main) <= c && (hi.At? ==> cap.At?)
  {
    mu := lam;
    if done {
      mu := EndAtMax(s0, s, f, mode, c, lo, hi, cap, lam, k);
    } else {
      FreezeMax(s0, s, f, mode, c, lo, hi, cap, lam);
    }
  }

  // After a pass at level `lam`: the next bracket, or the solved line.
  lemma NextLevel(s0: seq<Item>, s: seq<Item>, r: seq<Item>, f: seq<Item>, mode: Mode, c: real,
                  lo: Bound, hi: Bound, cap: Bound, lam: real, k: nat, done: bool)
    returns (lo': Bound, hi': Bound, mu: real)
    requires FreshLine(s0, mode) && Bracket(s0, s, mode, c, lo, hi, cap) && Chosen(s, mode, c, cap, lam)
    requires k < |s| && !s[k].frozen
    requires IsOffered(s, r, mode, lam) && FixedUp(r, f, mode, done)
    ensures !done ==> Bracket(s0, f, mode, c, lo', hi', cap)
    ensures !done ==> (lo' == lo || lo' == At(lam)) && (hi' == hi || hi' == At(lam))
    ensures done ==> Filled(s0, f, mode, c, cap, mu) && lam <= mu
    ensures done && lo.At? ==> Sum(f, mode, Main) <= c
    ensures done && hi.At? && cap.Open? ==> Sum(f, mode, Main) >= c && mu == lam
  {
    OfferedExcess(s, r, mode, lam);
    lo', hi', mu := lo, hi, lam;
    var excess := Sum(r, mode, Excess);
    if excess == 0.0 {
      EndBalanced(s0, s, f, mode, c, lo, hi, cap, lam, k);
    } else if excess > 0.0 {
      NextAfterMin(s0, s, f, mode, c, lo, hi, cap, lam, k, done);
      hi' := At(lam);
    } else {
      mu := NextAfterMax(s0, s, f, mode, c, lo, hi, cap, lam, k, done);
      lo' := At(lam);
    }
  }

  // ------------------------------------------------------------------ growing

  lemma GrowStart(s0: seq<Item>, c: real)
    requires FreshLine(s0, Grow) && Sum(s0, Grow, Main) < c
    ensures var initial := InitialFreeSpace(s0, Grow, c);
            && initial > 0.0
            && Bracket(s0, Start(s0, Grow), Grow, c, At(0.0), Open, At(initial / 1000.0))
  {
    var s := Start(s0, Grow);
    forall i | 0 <= i < |s|
      ensures Val(s[i], Grow, Used) <= Val(s0[i], Grow, Main)
      ensures Val(s[i], Grow, Fitted(0.0)) == Val(s0[i], Grow, Main)
      ensures ItemBetween(s0[i], s[i], Grow, At(0.0), Open)
    {
      assert Fresh(s0[i]);
      assert Offer(s[i], Grow, 0.0) == s[i].base;
    }
    SumLe(s, Used, s0, Main, Grow);
    SumEq(s, Fitted(0.0), s0, Main, Grow);
  }

  lemma NothingToGrow(s0: seq<Item>, c: real)
    requires FreshLine(s0, Grow) && Sum(s0, Grow, Main) < c
    requires forall i | 0 <= i < |s0| :: IsInflexible(s0[i], Grow)
    ensures Sound(s0, Start(s0, Grow), Grow) && Grown(s0, Start(s0, Grow), c)
  {
    hide Sum;
    SumEq(Start(s0, Grow), Main, s0, Main, Grow);
    assert GrownAt(s0, Start(s0, Grow), c, 1.0);
  }

  // Free space only goes down: flexible items freeze at or above their base.
  lemma RemainingBelowInitial(s0: seq<Item>, s: seq<Item>, c: real, lo: Bound, hi: Bound, cap: Bound)
    requires FreshLine(s0, Grow) && Bracket(s0, s, Grow, c, lo, hi, cap)
    requires hi.At? ==> hi.lam >= 0.0
    ensures c - Sum(s, Grow, Used) <= InitialFreeSpace(s0, Grow, c)
  {
    var t := Start(s0, Grow);
    forall i | 0 <= i < |s| ensures Val(t[i], Grow, Used) <= Val(s[i], Grow, Used) {
      Between(s0, s, Grow, c, lo, hi, cap, i);
      assert Fresh(s0[i]);
      if hi.At? { OfferMono(s[i], Grow, 0.0, hi.lam); }
    }
    SumLe(t, Used, s, Used, Grow);
  }

  lemma GrowFactors(s: seq<Item>)
    ensures Sum(s, Grow, Factors) == Sum(s, Grow, Shares)
  {
    SumEq(s, Factors, s, Shares, Grow);
  }

  lemma DivLe(a: real, b: real, m: real)
    requires m > 0.0 && a <= b * m
    ensures a / m <= b
  {
  }

  // The level rem / total never exceeds initial / 1000, and is that cap when
  // the free space was cut down.
  lemma CappedLevel(initial: real, free: real, total: real, rem: real) returns (lam: real)
    requires initial > 0.0 && total > 0.0 && free <= initial
    requires rem == Capped(Grow, initial, free, total)
    ensures lam == rem / total && lam * total == rem
    ensures lam <= initial / 1000.0
    ensures rem == free || (rem < free && total < 1000.0 && lam == initial / 1000.0)
  {
    var cap := initial / 1000.0;
    var cut := initial * total / 1000.0;
    assert cut == cap * total;
    lam := rem / total;
    if total < 1000.0 && cut < free {
      DivLe(cut, cap, total);
      DivLe(-cut, -cap, total);
    } else if total < 1000.0 {
      DivLe(free, cap, total);
    } else {
      assert cap * total >= cap * 1000.0;
      DivLe(free, cap, total);
    }
  }

  // The level step 4.b picks when growing: positive, and capped as required.
  lemma GrowLevel(s0: seq<Item>, s: seq<Item>, c: real, lo: Bound, hi: Bound, cap: Bound, lam: real)
    requires FreshLine(s0, Grow) && Bracket(s0, s, Grow, c, lo, hi, cap)
    requires lo.At? && lo.lam >= 0.0 && cap.At? && 0.0 < cap.lam && lam <= cap.lam
    requires var free, rem := c - Sum(s, Grow, Used), lam * Sum(s, Grow, Shares);
             rem == free || (rem < free && Sum(s, Grow, Shares) < 1000.0 && lam == cap.lam)
    ensures Chosen(s, Grow, c, cap, lam)
    ensures lam > 0.0
  {
    hide Bracket, FreshLine;
    GrowFactors(s);
    LinearSum(s, Grow, lam);
    LevelBetween(s0, s, Grow, c, lo, hi, cap, lam);
  }

  // The state of the growing loop between passes.
  ghost predicate Growing(s0: seq<Item>, s: seq<Item>, c: real, initial: real, lo: Bound, hi: Bound) {
    && FreshLine(s0, Grow) && Rounds(s0, s, Grow)
    && initial == InitialFreeSpace(s0, Grow, c) > 0.0
    && Bracket(s0, s, Grow, c, lo, hi, At(initial / 1000.0))
    && lo.At? && lo.lam >= 0.0 && (hi.At? ==> hi.lam >= 0.0)
  }

  lemma GrowingStart(s0: seq<Item>, c: real)
    requires FreshLine(s0, Grow) && Sum(s0, Grow, Main) < c
    ensures Growing(s0, Start(s0, Grow), c, InitialFreeSpace(s0, Grow, c), At(0.0), Open)
  {
    hide Sum, Bracket;
    StartRounds(s0, Grow);
    GrowStart(s0, c);
  }

  lemma GrowPick(s0: seq<Item>, s: seq<Item>, c: real, initial: real, lo: Bound, hi: Bound, k: nat, total: real,
                 rem: real)
    returns (lam: real)
    requires Growing(s0, s, c, initial, lo, hi)
    requires k < |s| && !s[k].frozen
    requires total == Sum(s, Grow, Factors) && rem == Capped(Grow, initial, c - Sum(s, Grow, Used), total)
    ensures total > 0.0 && rem != 0.0 && lam == rem / total && lam > 0.0
    ensures Chosen(s, Grow, c, At(initial / 1000.0), lam)
  {
    hide Sum, Chosen, Bracket;
    GrowFacts(s0, s, c, initial, lo, hi, k);
    lam := CappedLevel(initial, c - Sum(s, Grow, Used), total, rem);
    GrowLevel(s0, s, c, lo, hi, At(initial / 1000.0), lam);
  }

  lemma GrowFacts(s0: seq<Item>, s: seq<Item>, c: real, initial: real, lo: Bound, hi: Bound, k: nat)
    requires Growing(s0, s, c, initial, lo, hi)
    requires k < |s| && !s[k].frozen
    ensures Sum(s, Grow, Factors) == Sum(s, Grow, Shares) > 0.0
    ensures c - Sum(s, Grow, Used) <= initial
  {
    SharesPositive(s0, s, Grow, k);
    GrowFactors(s);
    RemainingBelowInitial(s0, s, c, lo, hi, At(initial / 1000.0));
  }

  lemma GrowNext(s0: seq<Item>, s: seq<Item>, r: seq<Item>, f: seq<Item>, c: real, initial: real,
                 lo: Bound, hi: Bound, lam: real, k: nat, done: bool)
    returns (lo': Bound, hi': Bound)
    requires Growing(s0, s, c, initial, lo, hi)
    requires Chosen(s, Grow, c, At(initial / 1000.0), lam) && lam > 0.0
    requires k < |s| && !s[k].frozen
    requires IsOffered(s, r, Grow, lam) && FixedUp(r, f, Grow, done)
    ensures done ==> Sound(s0, f, Grow) && Grown(s0, f, c)
    ensures !done ==> Growing(s0, f, c, initial, lo', hi') && CountUnfrozen(f) < CountUnfrozen(s)
    ensures !done ==> exists i | 0 <= i < |f| :: !f[i].frozen
  {
    NextSound(s0, s, r, f, Grow, done);
    var mu;
    lo', hi', mu := NextLevel(s0, s, r, f, Grow, c, lo, hi, At(initial / 1000.0), lam, k, done);
    assert done ==> GrownAt(s0, f, c, mu);
  }
}
