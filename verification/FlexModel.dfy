// Values and laws behind the resolution of flexible lengths (CSS Flexible Box
// Layout Level 1, section 9.7).  Sizes are exact reals.
module FlexModel {

  datatype ClampState = Unclamped | Inflexible | MinViolation | MaxViolation

  // A maximum that may be left at its default, meaning "no limit".
  datatype Limit = NoLimit | Limit(value: real)

  datatype Mode = Grow | Shrink

  // Everything about a flex item that length resolution reads or writes.
  datatype Item = Item(base: real, min: real, max: Limit, main: real,
                       grow: int, shrink: int, scaled: real,
                       frozen: bool, state: ClampState)

  function Clamp(x: real, it: Item): real {
    if x < it.min then it.min
    else if it.max.Limit? && x > it.max.value then it.max.value
    else x
  }

  predicate InBounds(it: Item) {
    it.min <= it.main && (it.max.Limit? ==> it.main <= it.max.value)
  }

  predicate AtMax(it: Item) { it.max.Limit? && it.main == it.max.value }

  predicate AtMin(it: Item) { it.main == it.min }

  // The flex factor, and the weight by which free space is shared out.
  function Factor(it: Item, mode: Mode): int {
    if mode.Grow? then it.grow else it.shrink
  }

  function Weight(it: Item, mode: Mode): real {
    if mode.Grow? then it.grow as real else it.scaled
  }

  // The size an item is offered when every unit of weight is worth `lam`.
  function Offer(it: Item, mode: Mode, lam: real): real {
    it.base + lam * Weight(it, mode)
  }

  lemma OfferMono(it: Item, mode: Mode, lam: real, mu: real)
    requires lam <= mu && Weight(it, mode) >= 0.0
    ensures Offer(it, mode, lam) <= Offer(it, mode, mu)
  {
    assert (mu - lam) * Weight(it, mode) >= 0.0;
  }

  // Items frozen before the first round.
  predicate IsInflexible(it: Item, mode: Mode) {
    match mode
    case Grow => it.grow == 0 || it.base > it.main
    case Shrink => it.shrink == 0 || it.base < it.main
  }

  // An item as `flex_item::init` leaves it.
  predicate Fresh(it: Item) {
    && !it.frozen && it.state == Unclamped
    && it.grow >= 0 && it.shrink >= 0
    && (it.max.Limit? ==> it.min <= it.max.value)
    && it.main == Clamp(it.base, it)
  }

  predicate FreshLine(s: seq<Item>, mode: Mode) {
    forall i | 0 <= i < |s| ::
      Fresh(s[i]) && (!IsInflexible(s[i], mode) ==> Weight(s[i], mode) >= 0.0)
  }

  // A flexible item that has no share in the free space.
  predicate Weightless(it: Item, mode: Mode) {
    !IsInflexible(it, mode) && Weight(it, mode) == 0.0
  }

  predicate SameStatic(a: Item, b: Item) {
    b == a.(main := b.main, frozen := b.frozen, state := b.state)
  }

  // ------------------------------------------------------------------ sums

  // What one item adds to each of the sums the algorithm and its laws use.
  datatype Term =
    | Main            // target main size
    | Used            // target size when frozen, base size otherwise
    | Shares          // weight of an unfrozen item
    | Factors         // flex factor of an unfrozen item
    | Linear(lam: real)   // size an unfrozen item gets before clamping
    | Fitted(lam: real)   // and after clamping
    | Excess          // how far clamping moves an unfrozen item
    | Least           // the smallest size shrinking can give an item at all

  function Val(it: Item, mode: Mode, t: Term): real {
    match t
    case Main => it.main
    case Used => if it.frozen then it.main else it.base
    case Shares => if it.frozen then 0.0 else Weight(it, mode)
    case Factors => if it.frozen then 0.0 else Factor(it, mode) as real
    case Linear(lam) => if it.frozen then it.main else Offer(it, mode, lam)
    case Fitted(lam) => if it.frozen then it.main else Clamp(Offer(it, mode, lam), it)
    case Least => if IsInflexible(it, mode) || Weightless(it, mode) then it.main else it.min
    case Excess => if it.frozen then 0.0 else Clamp(it.main, it) - it.main
  }

  function Sum(s: seq<Item>, mode: Mode, t: Term): real {
    if s == [] then 0.0
    else Sum(s[..|s| - 1], mode, t) + Val(s[|s| - 1], mode, t)
  }

  lemma SumNone(s: seq<Item>, mode: Mode, t: Term)
    ensures Sum(s[..0], mode, t) == 0.0
  {
  }

  lemma SumStep(s: seq<Item>, k: nat, mode: Mode, t: Term)
    requires k < |s|
    ensures Sum(s[..k + 1], mode, t) == Sum(s[..k], mode, t) + Val(s[k], mode, t)
  {
    assert s[..k + 1][..k] == s[..k];
  }

  lemma SumWhole(s: seq<Item>, mode: Mode, t: Term)
    ensures Sum(s[..|s|], mode, t) == Sum(s, mode, t)
  {
    assert s[..|s|] == s;
  }

  lemma {:induction false} SumLe(s: seq<Item>, t: Term, s': seq<Item>, t': Term, mode: Mode)
    requires |s| == |s'|
    requires forall i | 0 <= i < |s| :: Val(s[i], mode, t) <= Val(s'[i], mode, t')
    ensures Sum(s, mode, t) <= Sum(s', mode, t')
  {
    if s != [] {
      SumLe(s[..|s| - 1], t, s'[..|s| - 1], t', mode);
    }
  }

  lemma {:induction false} SumLt(s: seq<Item>, t: Term, s': seq<Item>, t': Term, mode: Mode, k: nat)
    requires |s| == |s'| && k < |s|
    requires forall i | 0 <= i < |s| :: Val(s[i], mode, t) <= Val(s'[i], mode, t')
    requires Val(s[k], mode, t) < Val(s'[k], mode, t')
    ensures Sum(s, mode, t) < Sum(s', mode, t')
  {
    var n := |s| - 1;
    if k == n {
      SumLe(s[..n], t, s'[..n], t', mode);
    } else {
      SumLt(s[..n], t, s'[..n], t', mode, k);
    }
  }

  lemma SumEq(s: seq<Item>, t: Term, s': seq<Item>, t': Term, mode: Mode)
    requires |s| == |s'|
    requires forall i | 0 <= i < |s| :: Val(s[i], mode, t) == Val(s'[i], mode, t')
    ensures Sum(s, mode, t) == Sum(s', mode, t')
  {
    SumLe(s, t, s', t', mode);
    SumLe(s', t', s, t, mode);
  }

  lemma {:induction false} LinearSum(s: seq<Item>, mode: Mode, lam: real)
    ensures Sum(s, mode, Linear(lam)) == Sum(s, mode, Used) + lam * Sum(s, mode, Shares)
  {
    if s != [] {
      var n := |s| - 1;
      LinearSum(s[..n], mode, lam);
      var a, b := Sum(s[..n], mode, Shares), Val(s[n], mode, Shares);
      assert lam * (a + b) == lam * a + lam * b;
    }
  }

  lemma {:induction false} SumDifference(s: seq<Item>, t: Term, r: seq<Item>, t1: Term, t2: Term, mode: Mode)
    requires |s| == |r|
    requires forall i | 0 <= i < |s| :: Val(s[i], mode, t) == Val(r[i], mode, t1) - Val(r[i], mode, t2)
    ensures Sum(s, mode, t) == Sum(r, mode, t1) - Sum(r, mode, t2)
  {
    if s != [] {
      SumDifference(s[..|s| - 1], t, r[..|s| - 1], t1, t2, mode);
    }
  }

  // --------------------------------------------------------- one round, purely

  function Frozen0(it: Item, mode: Mode): Item {
    if IsInflexible(it, mode) then it.(frozen := true, state := Inflexible) else it
  }

  function Start(s: seq<Item>, mode: Mode): (r: seq<Item>)
  {
    seq(|s|, i requires 0 <= i < |s| => Frozen0(s[i], mode))
  }

  // Step 4.c for one item.
  function Shared(it: Item, mode: Mode, rem: real, total: real): Item
    requires total != 0.0
  {
    if it.frozen || rem == 0.0 then it
    else it.(main := it.base + rem * Weight(it, mode) / total)
  }

  // Step 4.d for one item.
  function Fixed(it: Item): Item {
    if it.frozen then it
    else if it.main < it.min then it.(main := it.min, state := MinViolation)
    else if it.max.Limit? && it.main > it.max.value then it.(main := it.max.value, state := MaxViolation)
    else it
  }

  // Step 4.e for one item, when the total violation is not zero.
  function Settled(it: Item, state: ClampState): Item {
    if it.frozen then it
    else if it.state == state then it.(frozen := true)
    else it.(state := Unclamped)
  }

  function CountUnfrozen(s: seq<Item>): nat {
    if s == [] then 0
    else CountUnfrozen(s[..|s| - 1]) + (if s[|s| - 1].frozen then 0 else 1)
  }

  lemma {:induction false} CountLe(s: seq<Item>, r: seq<Item>)
    requires |s| == |r| && forall i | 0 <= i < |s| :: s[i].frozen ==> r[i].frozen
    ensures CountUnfrozen(r) <= CountUnfrozen(s)
  {
    if s != [] { CountLe(s[..|s| - 1], r[..|s| - 1]); }
  }

  lemma {:induction false} CountLt(s: seq<Item>, r: seq<Item>, k: nat)
    requires |s| == |r| && k < |s| && forall i | 0 <= i < |s| :: s[i].frozen ==> r[i].frozen
    requires !s[k].frozen && r[k].frozen
    ensures CountUnfrozen(r) < CountUnfrozen(s)
  {
    var n := |s| - 1;
    if k == n { CountLe(s[..n], r[..n]); } else { CountLt(s[..n], r[..n], k); }
  }

  // ------------------------------------------- what holds with no assumptions

  // Holds between rounds for every line, whatever its factors add up to.
  ghost predicate Rounds(s0: seq<Item>, s: seq<Item>, mode: Mode) {
    && |s| == |s0|
    && forall i | 0 <= i < |s| ::
        && SameStatic(s0[i], s[i])
        && InBounds(s[i])
        && (IsInflexible(s0[i], mode) ==> s[i] == Frozen0(s0[i], mode))
        && (!s[i].frozen ==> s[i].state == Unclamped)
  }

  // The promise that needs no assumption on the factors.
  ghost predicate Sound(s0: seq<Item>, s: seq<Item>, mode: Mode) {
    && |s| == |s0|
    && forall i | 0 <= i < |s| ::
        && SameStatic(s0[i], s[i])
        && InBounds(s[i])
        && (IsInflexible(s0[i], mode) ==> s[i].main == s0[i].main)
  }

  lemma StartRounds(s0: seq<Item>, mode: Mode)
    requires FreshLine(s0, mode)
    ensures Rounds(s0, Start(s0, mode), mode)
  {
  }

  // The divisor of step 4.c is positive while an unfrozen item with a weight is left.
  lemma {:induction false} SharesPositive(s0: seq<Item>, s: seq<Item>, mode: Mode, k: nat)
    requires FreshLine(s0, mode) && Rounds(s0, s, mode)
    requires k < |s| && !s[k].frozen && Weight(s[k], mode) > 0.0
    ensures Sum(s, mode, Shares) > 0.0
  {
    var n := |s| - 1;
    SharesNonNegative(s0[..n], s[..n], mode);
    if k < n { SharesPositive(s0[..n], s[..n], mode, k); }
  }

  lemma {:induction false} SharesNonNegative(s0: seq<Item>, s: seq<Item>, mode: Mode)
    requires FreshLine(s0, mode) && Rounds(s0, s, mode)
    ensures Sum(s, mode, Shares) >= 0.0
  {
    if s != [] { SharesNonNegative(s0[..|s| - 1], s[..|s| - 1], mode); }
  }

  // ------------------------------------------------------------ water filling

  // The final sizes are those of one common level `lam`.
  ghost predicate Level(s0: seq<Item>, s: seq<Item>, mode: Mode, lam: real) {
    && |s| == |s0|
    && forall i | 0 <= i < |s| ::
        && SameStatic(s0[i], s[i])
        && s[i].main == if IsInflexible(s0[i], mode) then s0[i].main
                        else Clamp(Offer(s0[i], mode, lam), s0[i])
  }

  lemma ClampMono(x: real, y: real, it: Item)
    requires x <= y && (it.max.Limit? ==> it.min <= it.max.value)
    ensures Clamp(x, it) <= Clamp(y, it)
  {
  }

  lemma LevelMono(s0: seq<Item>, s: seq<Item>, r: seq<Item>, mode: Mode, lam: real, mu: real, i: nat)
    requires FreshLine(s0, mode) && lam <= mu && i < |s0|
    requires Level(s0, s, mode, lam) && Level(s0, r, mode, mu)
    ensures s[i].main <= r[i].main
  {
    assert Fresh(s0[i]);
    if !IsInflexible(s0[i], mode) {
      OfferMono(s0[i], mode, lam, mu);
      ClampMono(Offer(s0[i], mode, lam), Offer(s0[i], mode, mu), s0[i]);
    }
  }

  lemma LevelUniqueOrdered(s0: seq<Item>, s: seq<Item>, r: seq<Item>, mode: Mode, lam: real, mu: real)
    requires FreshLine(s0, mode) && lam <= mu
    requires Level(s0, s, mode, lam) && Level(s0, r, mode, mu)
    requires Sum(s, mode, Main) == Sum(r, mode, Main)
    ensures forall i | 0 <= i < |s| :: s[i].main == r[i].main
  {
    forall i | 0 <= i < |s| ensures Val(s[i], mode, Main) <= Val(r[i], mode, Main) {
      LevelMono(s0, s, r, mode, lam, mu, i);
    }
    forall i | 0 <= i < |s| ensures s[i].main == r[i].main {
      if s[i].main < r[i].main { SumLt(s, Main, r, Main, mode, i); }
    }
  }

  // Two levels that both fill the container give every item the same size.
  lemma LevelUnique(s0: seq<Item>, s: seq<Item>, r: seq<Item>, mode: Mode, lam: real, mu: real)
    requires FreshLine(s0, mode)
    requires Level(s0, s, mode, lam) && Level(s0, r, mode, mu)
    requires Sum(s, mode, Main) == Sum(r, mode, Main)
    ensures forall i | 0 <= i < |s| :: s[i].main == r[i].main
  {
    if lam <= mu { LevelUniqueOrdered(s0, s, r, mode, lam, mu); }
    else { LevelUniqueOrdered(s0, r, s, mode, mu, lam); }
  }
}
