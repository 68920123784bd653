// Why freezing min or max violators by the sign of the total violation is
// right: the level that solves the line always lies between the levels of the
// past freezes, so an item frozen at a bound would end at that bound anyway.
module FlexLaws {
  import opened FlexModel

  datatype Bound = Open | At(lam: real)

  // `lo`: level of the last freeze at max, `hi`: of the last freeze at min.
  ghost predicate ItemBetween(i0: Item, it: Item, mode: Mode, lo: Bound, hi: Bound) {
    && SameStatic(i0, it)
    && InBounds(it)
    && (IsInflexible(i0, mode) ==> it == Frozen0(i0, mode))
    && (!IsInflexible(i0, mode) && !it.frozen ==>
          && it.state == Unclamped
          && (lo.At? && it.max.Limit? ==> Offer(it, mode, lo.lam) <= it.max.value)
          && (hi.At? ==> Offer(it, mode, hi.lam) >= it.min))
    && (!IsInflexible(i0, mode) && it.frozen ==>
          || (AtMin(it) && hi.At? && Offer(it, mode, hi.lam) <= it.min)
          || (AtMax(it) && lo.At? && Offer(it, mode, lo.lam) >= it.max.value))
  }

  // Step 4.b may cap the level while the factors sum to less than one (1000).
  ghost predicate CapHit(s: seq<Item>, mode: Mode, cap: Bound, lam: real) {
    cap.At? && lam == cap.lam && Sum(s, mode, Factors) < 1000.0
  }

  ghost predicate Bracket(s0: seq<Item>, s: seq<Item>, mode: Mode, c: real, lo: Bound, hi: Bound, cap: Bound) {
    && |s| == |s0|
    && (forall i | 0 <= i < |s| :: ItemBetween(s0[i], s[i], mode, lo, hi))
    && (lo.At? ==> Sum(s, mode, Fitted(lo.lam)) < c)
    && (hi.At? ==> Sum(s, mode, Fitted(hi.lam)) > c || CapHit(s, mode, cap, hi.lam))
    && (cap.At? ==> lo.At? && lo.lam <= cap.lam)
  }

  // The level that step 4.b picks for this round.
  ghost predicate Chosen(s: seq<Item>, mode: Mode, c: real, cap: Bound, lam: real) {
    && (cap.At? ==> lam <= cap.lam)
    && (Sum(s, mode, Linear(lam)) == c || (CapHit(s, mode, cap, lam) && Sum(s, mode, Linear(lam)) <= c))
  }

  lemma Between(s0: seq<Item>, s: seq<Item>, mode: Mode, c: real, lo: Bound, hi: Bound, cap: Bound, i: nat)
    requires Bracket(s0, s, mode, c, lo, hi, cap) && i < |s|
    ensures ItemBetween(s0[i], s[i], mode, lo, hi)
  {
  }

  lemma LinearMono(s0: seq<Item>, s: seq<Item>, mode: Mode, c: real, lo: Bound, hi: Bound, cap: Bound, a: real, b: real)
    requires FreshLine(s0, mode) && Bracket(s0, s, mode, c, lo, hi, cap) && a <= b
    ensures Sum(s, mode, Linear(a)) <= Sum(s, mode, Linear(b))
  {
    forall i | 0 <= i < |s| ensures Val(s[i], mode, Linear(a)) <= Val(s[i], mode, Linear(b)) {
      Between(s0, s, mode, c, lo, hi, cap, i);
      if !s[i].frozen { OfferMono(s[i], mode, a, b); }
    }
    SumLe(s, Linear(a), s, Linear(b), mode);
  }

  lemma AboveLo(s0: seq<Item>, s: seq<Item>, mode: Mode, c: real, lo: Bound, hi: Bound, cap: Bound)
    requires FreshLine(s0, mode) && Bracket(s0, s, mode, c, lo, hi, cap) && lo.At?
    ensures Sum(s, mode, Linear(lo.lam)) < c
  {
    forall i | 0 <= i < |s| ensures Val(s[i], mode, Linear(lo.lam)) <= Val(s[i], mode, Fitted(lo.lam)) {
      Between(s0, s, mode, c, lo, hi, cap, i);
    }
    SumLe(s, Linear(lo.lam), s, Fitted(lo.lam), mode);
  }

  lemma BelowHi(s0: seq<Item>, s: seq<Item>, mode: Mode, c: real, lo: Bound, hi: Bound, cap: Bound)
    requires FreshLine(s0, mode) && Bracket(s0, s, mode, c, lo, hi, cap) && hi.At?
    requires !CapHit(s, mode, cap, hi.lam)
    ensures Sum(s, mode, Linear(hi.lam)) > c
  {
    forall i | 0 <= i < |s| ensures Val(s[i], mode, Fitted(hi.lam)) <= Val(s[i], mode, Linear(hi.lam)) {
      Between(s0, s, mode, c, lo, hi, cap, i);
    }
    SumLe(s, Fitted(hi.lam), s, Linear(hi.lam), mode);
  }

  // The level of every round lies between those of the past freezes.
  lemma LevelBetween(s0: seq<Item>, s: seq<Item>, mode: Mode, c: real, lo: Bound, hi: Bound, cap: Bound, lam: real)
    requires FreshLine(s0, mode) && Bracket(s0, s, mode, c, lo, hi, cap) && Chosen(s, mode, c, cap, lam)
    ensures lo.At? ==> lo.lam <= lam && (lam == lo.lam ==> cap == At(lam))
    ensures hi.At? ==> lam <= hi.lam && (lam == hi.lam ==> cap == At(lam))
  {
    if lo.At? && lam <= lo.lam && Sum(s, mode, Linear(lam)) == c {
      AboveLo(s0, s, mode, c, lo, hi, cap);
      LinearMono(s0, s, mode, c, lo, hi, cap, lam, lo.lam);
      assert false;
    }
    if hi.At? && hi.lam <= lam && !CapHit(s, mode, cap, hi.lam) {
      BelowHi(s0, s, mode, c, lo, hi, cap);
      LinearMono(s0, s, mode, c, lo, hi, cap, hi.lam, lam);
      assert false;
    }
  }

  // ------------------------------------------------------------- one round

  function Offered(it: Item, mode: Mode, lam: real): Item {
    if it.frozen then it else it.(main := Offer(it, mode, lam))
  }

  function Round(it: Item, mode: Mode, lam: real, state: ClampState): Item {
    Settled(Fixed(Offered(it, mode, lam)), state)
  }

  ghost predicate IsRound(s: seq<Item>, r: seq<Item>, mode: Mode, lam: real, state: ClampState) {
    |r| == |s| && forall i | 0 <= i < |s| :: r[i] == Round(s[i], mode, lam, state)
  }

  lemma OfferStatic(a: Item, b: Item, mode: Mode, lam: real)
    requires SameStatic(a, b)
    ensures Offer(a, mode, lam) == Offer(b, mode, lam)
  {
  }

  lemma ItemFreezeMin(i0: Item, it: Item, mode: Mode, lo: Bound, hi: Bound, lam: real)
    requires Fresh(i0) && (!IsInflexible(i0, mode) ==> Weight(i0, mode) >= 0.0)
    requires ItemBetween(i0, it, mode, lo, hi)
    requires (lo.At? ==> lo.lam <= lam) && (hi.At? ==> lam <= hi.lam)
    ensures var r := Round(it, mode, lam, MinViolation);
            && ItemBetween(i0, r, mode, lo, At(lam))
            && Val(r, mode, Fitted(lam)) == Val(it, mode, Fitted(lam))
            && (lo.At? ==> Val(r, mode, Fitted(lo.lam)) == Val(it, mode, Fitted(lo.lam)))
            && Val(r, mode, Factors) <= Val(it, mode, Factors)
  {
    var r := Round(it, mode, lam, MinViolation);
    assert SameStatic(it, r) && InBounds(r);
    assert Factor(it, mode) >= 0;
    if IsInflexible(i0, mode) {
      assert r == it;
    } else {
      if lo.At? { OfferMono(it, mode, lo.lam, lam); OfferStatic(it, r, mode, lo.lam); }
      if hi.At? { OfferMono(it, mode, lam, hi.lam); }
      OfferStatic(it, r, mode, lam);
      if it.frozen {
      } else if Offer(it, mode, lam) < it.min {
      } else {
      }
    }
  }

  lemma ItemFreezeMax(i0: Item, it: Item, mode: Mode, lo: Bound, hi: Bound, lam: real)
    requires Fresh(i0) && (!IsInflexible(i0, mode) ==> Weight(i0, mode) >= 0.0)
    requires ItemBetween(i0, it, mode, lo, hi)
    requires (lo.At? ==> lo.lam <= lam) && (hi.At? ==> lam <= hi.lam)
    ensures var r := Round(it, mode, lam, MaxViolation);
            && ItemBetween(i0, r, mode, At(lam), hi)
            && Val(r, mode, Fitted(lam)) == Val(it, mode, Fitted(lam))
            && (hi.At? ==> Val(r, mode, Fitted(hi.lam)) == Val(it, mode, Fitted(hi.lam)))
            && Val(r, mode, Factors) <= Val(it, mode, Factors)
  {
    var r := Round(it, mode, lam, MaxViolation);
    assert SameStatic(it, r) && InBounds(r);
    assert Factor(it, mode) >= 0;
    if IsInflexible(i0, mode) {
      assert r == it;
    } else {
      if lo.At? { OfferMono(it, mode, lo.lam, lam); }
      if hi.At? { OfferMono(it, mode, lam, hi.lam); OfferStatic(it, r, mode, hi.lam); }
      OfferStatic(it, r, mode, lam);
      if it.frozen {
      } else if Offer(it, mode, lam) < it.min {
      } else {
      }
    }
  }

  // A positive total violation: freezing the min violators keeps the bracket.
  lemma FreezeMin(s0: seq<Item>, s: seq<Item>, r: seq<Item>, mode: Mode, c: real, lo: Bound, hi: Bound, cap: Bound,
                  lam: real)
    requires FreshLine(s0, mode) && Bracket(s0, s, mode, c, lo, hi, cap) && Chosen(s, mode, c, cap, lam)
    requires IsRound(s, r, mode, lam, MinViolation)
    requires Sum(s, mode, Fitted(lam)) > Sum(s, mode, Linear(lam))
    ensures Bracket(s0, r, mode, c, lo, At(lam), cap)
  {
    LevelBetween(s0, s, mode, c, lo, hi, cap, lam);
    forall i | 0 <= i < |s|
      ensures ItemBetween(s0[i], r[i], mode, lo, At(lam))
      ensures Val(r[i], mode, Fitted(lam)) == Val(s[i], mode, Fitted(lam))
      ensures lo.At? ==> Val(r[i], mode, Fitted(lo.lam)) == Val(s[i], mode, Fitted(lo.lam))
      ensures Val(r[i], mode, Factors) <= Val(s[i], mode, Factors)
    {
      Between(s0, s, mode, c, lo, hi, cap, i);
      ItemFreezeMin(s0[i], s[i], mode, lo, hi, lam);
    }
    SumEq(r, Fitted(lam), s, Fitted(lam), mode);
    if lo.At? { SumEq(r, Fitted(lo.lam), s, Fitted(lo.lam), mode); }
    SumLe(r, Factors, s, Factors, mode);
  }

  // A negative total violation: freezing the max violators keeps the bracket.
  lemma FreezeMax(s0: seq<Item>, s: seq<Item>, r: seq<Item>, mode: Mode, c: real, lo: Bound, hi: Bound, cap: Bound,
                  lam: real)
    requires FreshLine(s0, mode) && Bracket(s0, s, mode, c, lo, hi, cap) && Chosen(s, mode, c, cap, lam)
    requires IsRound(s, r, mode, lam, MaxViolation)
    requires Sum(s, mode, Fitted(lam)) < Sum(s, mode, Linear(lam))
    ensures Bracket(s0, r, mode, c, At(lam), hi, cap)
    ensures hi.At? ==> Sum(r, mode, Fitted(hi.lam)) == Sum(s, mode, Fitted(hi.lam))
  {
    LevelBetween(s0, s, mode, c, lo, hi, cap, lam);
    forall i | 0 <= i < |s|
      ensures ItemBetween(s0[i], r[i], mode, At(lam), hi)
      ensures Val(r[i], mode, Fitted(lam)) == Val(s[i], mode, Fitted(lam))
      ensures hi.At? ==> Val(r[i], mode, Fitted(hi.lam)) == Val(s[i], mode, Fitted(hi.lam))
      ensures Val(r[i], mode, Factors) <= Val(s[i], mode, Factors)
    {
      Between(s0, s, mode, c, lo, hi, cap, i);
      ItemFreezeMax(s0[i], s[i], mode, lo, hi, lam);
    }
    SumEq(r, Fitted(lam), s, Fitted(lam), mode);
    if hi.At? { SumEq(r, Fitted(hi.lam), s, Fitted(hi.lam), mode); }
    SumLe(r, Factors, s, Factors, mode);
  }

  // --------------------------------------------------------------- the end

  ghost predicate SmallFactor(s0: seq<Item>, mode: Mode) {
    exists i | 0 <= i < |s0| :: !IsInflexible(s0[i], mode) && Factor(s0[i], mode) < 1000
  }

  // The line is solved by one level: it fills the container, or every flexible
  // item is at the bound that stops it, or the cap for small factors applied.
  ghost predicate Filled(s0: seq<Item>, s: seq<Item>, mode: Mode, c: real, cap: Bound, lam: real) {
    && Level(s0, s, mode, lam)
    && (|| Sum(s, mode, Main) == c
        || (Sum(s, mode, Main) < c && forall i | 0 <= i < |s| :: IsInflexible(s0[i], mode) || AtMax(s[i]))
        || (Sum(s, mode, Main) > c && forall i | 0 <= i < |s| :: IsInflexible(s0[i], mode) || AtMin(s[i]))
        || (Sum(s, mode, Main) < c && cap == At(lam) && SmallFactor(s0, mode)))
  }

  lemma {:induction false} FactorsNonNegative(s: seq<Item>, mode: Mode)
    requires forall i | 0 <= i < |s| :: Val(s[i], mode, Factors) >= 0.0
    ensures Sum(s, mode, Factors) >= 0.0
  {
    if s != [] { FactorsNonNegative(s[..|s| - 1], mode); }
  }

  lemma {:induction false} FactorLeSum(s: seq<Item>, mode: Mode, k: nat)
    requires forall i | 0 <= i < |s| :: Val(s[i], mode, Factors) >= 0.0
    requires k < |s|
    ensures Val(s[k], mode, Factors) <= Sum(s, mode, Factors)
  {
    var n := |s| - 1;
    FactorsNonNegative(s[..n], mode);
    if k < n { FactorLeSum(s[..n], mode, k); }
  }

  lemma CapMeansSmall(s0: seq<Item>, s: seq<Item>, mode: Mode, c: real, lo: Bound, hi: Bound, cap: Bound, lam: real,
                      k: nat)
    requires FreshLine(s0, mode) && Bracket(s0, s, mode, c, lo, hi, cap) && CapHit(s, mode, cap, lam)
    requires k < |s| && !s[k].frozen
    ensures SmallFactor(s0, mode)
  {
    forall i | 0 <= i < |s| ensures Val(s[i], mode, Factors) >= 0.0 { Between(s0, s, mode, c, lo, hi, cap, i); }
    FactorLeSum(s, mode, k);
    Between(s0, s, mode, c, lo, hi, cap, k);
    assert !IsInflexible(s0[k], mode) && Factor(s0[k], mode) < 1000;
  }

  // No unfrozen item is left after a freeze at `lam`, or the sizes agree with it.
  lemma ItemAtLevel(i0: Item, it: Item, mode: Mode, lo: Bound, hi: Bound, lam: real)
    requires Fresh(i0) && (!IsInflexible(i0, mode) ==> Weight(i0, mode) >= 0.0)
    requires ItemBetween(i0, it, mode, lo, hi)
    requires (lo.At? ==> lo.lam <= lam) && (hi.At? ==> lam <= hi.lam)
    ensures var f := Fixed(Offered(it, mode, lam));
            && f.main == (if IsInflexible(i0, mode) then i0.main else Clamp(Offer(i0, mode, lam), i0))
            && SameStatic(i0, f)
            && Val(f, mode, Main) == Val(it, mode, Fitted(lam))
  {
    if !IsInflexible(i0, mode) {
      if lo.At? { OfferMono(it, mode, lo.lam, lam); }
      if hi.At? { OfferMono(it, mode, lam, hi.lam); }
    }
  }

  lemma AtLevel(s0: seq<Item>, s: seq<Item>, f: seq<Item>, mode: Mode, c: real, lo: Bound, hi: Bound, cap: Bound,
                lam: real)
    requires FreshLine(s0, mode) && Bracket(s0, s, mode, c, lo, hi, cap)
    requires (lo.At? ==> lo.lam <= lam) && (hi.At? ==> lam <= hi.lam)
    requires |f| == |s| && forall i | 0 <= i < |s| ::
               SameStatic(s[i], f[i]) && f[i].main == Fixed(Offered(s[i], mode, lam)).main
    ensures Level(s0, f, mode, lam)
    ensures Sum(f, mode, Main) == Sum(s, mode, Fitted(lam))
  {
    forall i | 0 <= i < |s|
      ensures Val(f[i], mode, Main) == Val(s[i], mode, Fitted(lam))
      ensures SameStatic(s0[i], f[i])
      ensures f[i].main == if IsInflexible(s0[i], mode) then s0[i].main
                           else Clamp(Offer(s0[i], mode, lam), s0[i])
    {
      Between(s0, s, mode, c, lo, hi, cap, i);
      ItemAtLevel(s0[i], s[i], mode, lo, hi, lam);
    }
    SumEq(f, Main, s, Fitted(lam), mode);
  }

  // The loop ends because clamping moved nothing on balance.
  lemma EndBalanced(s0: seq<Item>, s: seq<Item>, f: seq<Item>, mode: Mode, c: real, lo: Bound, hi: Bound, cap: Bound,
                    lam: real, k: nat)
    requires FreshLine(s0, mode) && Bracket(s0, s, mode, c, lo, hi, cap) && Chosen(s, mode, c, cap, lam)
    requires k < |s| && !s[k].frozen
    requires |f| == |s| && forall i | 0 <= i < |s| ::
               SameStatic(s[i], f[i]) && f[i].main == Fixed(Offered(s[i], mode, lam)).main
    requires Sum(s, mode, Fitted(lam)) == Sum(s, mode, Linear(lam))
    ensures Filled(s0, f, mode, c, cap, lam)
    ensures Sum(f, mode, Main) <= c
    ensures cap.Open? ==> Sum(f, mode, Main) == c
  {
    LevelBetween(s0, s, mode, c, lo, hi, cap, lam);
    AtLevel(s0, s, f, mode, c, lo, hi, cap, lam);
    if CapHit(s, mode, cap, lam) { CapMeansSmall(s0, s, mode, c, lo, hi, cap, lam, k); }
  }

  // The loop ends because every remaining item was frozen at its minimum.
  lemma EndAtMin(s0: seq<Item>, s: seq<Item>, r: seq<Item>, mode: Mode, c: real, lo: Bound, hi: Bound, cap: Bound,
                 lam: real, k: nat)
    requires FreshLine(s0, mode) && Bracket(s0, s, mode, c, lo, hi, cap) && Chosen(s, mode, c, cap, lam)
    requires k < |s| && !s[k].frozen
    requires IsRound(s, r, mode, lam, MinViolation) && forall i | 0 <= i < |r| :: r[i].frozen
    requires Sum(s, mode, Fitted(lam)) > Sum(s, mode, Linear(lam))
    ensures Filled(s0, r, mode, c, cap, lam)
    ensures lo.At? ==> Sum(r, mode, Main) < c
    ensures cap.Open? ==> Sum(r, mode, Main) > c
  {
    LevelBetween(s0, s, mode, c, lo, hi, cap, lam);
    AtLevel(s0, s, r, mode, c, lo, hi, cap, lam);
    FreezeMin(s0, s, r, mode, c, lo, hi, cap, lam);
    if lo.At? {
      SumEq(r, Main, r, Fitted(lo.lam), mode);
      if Sum(s, mode, Linear(lam)) != c { CapMeansSmall(s0, s, mode, c, lo, hi, cap, lam, k); }
    } else {
      forall i | 0 <= i < |r| ensures IsInflexible(s0[i], mode) || AtMin(r[i]) {
        Between(s0, r, mode, c, lo, At(lam), cap, i);
      }
    }
  }

  // With everything frozen below the container, only the cap froze at min.
  lemma EndAtCap(s0: seq<Item>, r: seq<Item>, mode: Mode, c: real, lo: Bound, hi: Bound, cap: Bound)
    requires FreshLine(s0, mode) && Bracket(s0, r, mode, c, lo, hi, cap)
    requires forall i | 0 <= i < |r| :: r[i].frozen
    requires hi.At? && Sum(r, mode, Main) < c && (lo.At? ==> lo.lam <= hi.lam)
    ensures Level(s0, r, mode, hi.lam) && cap == hi
    ensures Sum(r, mode, Fitted(hi.lam)) < c
  {
    SumEq(r, Main, r, Fitted(hi.lam), mode);
    AtLevel(s0, r, r, mode, c, lo, hi, cap, hi.lam);
  }

  // The loop ends because every remaining item was frozen at its maximum.
  lemma EndAtMax(s0: seq<Item>, s: seq<Item>, r: seq<Item>, mode: Mode, c: real, lo: Bound, hi: Bound, cap: Bound,
                 lam: real, k: nat)
    returns (mu: real)
    requires FreshLine(s0, mode) && Bracket(s0, s, mode, c, lo, hi, cap) && Chosen(s, mode, c, cap, lam)
    requires k < |s| && !s[k].frozen
    requires IsRound(s, r, mode, lam, MaxViolation) && forall i | 0 <= i < |r| :: r[i].frozen
    requires Sum(s, mode, Fitted(lam)) < Sum(s, mode, Linear(lam))
    ensures Filled(s0, r, mode, c, cap, mu) && lam <= mu
    ensures Sum(r, mode, Main) < c
    ensures hi.At? ==> cap.At?
  {
    LevelBetween(s0, s, mode, c, lo, hi, cap, lam);
    FreezeMax(s0, s, r, mode, c, lo, hi, cap, lam);
    AtLevel(s0, s, r, mode, c, lo, hi, cap, lam);
    assert Sum(r, mode, Main) < c;
    if hi.At? {
      mu := hi.lam;
      EndAtCap(s0, r, mode, c, At(lam), hi, cap);
      assert CapHit(s, mode, cap, mu);
      CapMeansSmall(s0, s, mode, c, lo, hi, cap, mu, k);
    } else {
      mu := lam;
      forall i | 0 <= i < |r| ensures IsInflexible(s0[i], mode) || AtMax(r[i]) {
        Between(s0, r, mode, c, At(lam), hi, cap, i);
      }
    }
  }
}
