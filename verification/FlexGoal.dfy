// How much an overflowing line gives up, factors below one included: what its size
// comes to, said of the line the loop ends with.
module FlexGoal {
  import opened FlexModel
  import opened FlexLaws
  import opened FlexRounds

  // The size of a line: its container; or, if the factors of the items not frozen sum
  // to less than one (1000), what taking that part of the initial overflow back from
  // them leaves, if that is more.
  function Goal(s0: seq<Item>, f: seq<Item>, c: real): real {
    var overflow, sum := Sum(Start(s0, Shrink), Shrink, Used) - c, Sum(f, Shrink, Factors);
    var part := Sum(f, Shrink, Used) - overflow * (sum / 1000.0);
    if sum >= 1000.0 || part < c then c else part
  }

  // The items not frozen are at one level and make the line reach its goal.
  ghost predicate BalancedAt(s0: seq<Item>, f: seq<Item>, c: real, lam: real) {
    && |f| == |s0|
    && (forall i | 0 <= i < |f| && !f[i].frozen :: f[i].main == Clamp(Offer(s0[i], Shrink, lam), s0[i]))
    && Sum(f, Shrink, Main) == Goal(s0, f, c)
  }

  ghost predicate Balanced(s0: seq<Item>, f: seq<Item>, c: real) {
    exists lam: real :: lam < 0.0 && BalancedAt(s0, f, c, lam)
  }

  // The frozen ones are at the bounds that stopped them.
  ghost predicate AtBounds(s0: seq<Item>, f: seq<Item>) {
    |f| == |s0| && forall i | 0 <= i < |f| && f[i].frozen :: IsInflexible(s0[i], Shrink) || AtMin(f[i]) || AtMax(f[i])
  }

  ghost predicate Leveled(s0: seq<Item>, f: seq<Item>, c: real) {
    AtBounds(s0, f) && ((exists i | 0 <= i < |f| :: !f[i].frozen) ==> Balanced(s0, f, c))
  }

  lemma StartAtBounds(s0: seq<Item>)
    requires FreshLine(s0, Shrink)
    ensures AtBounds(s0, Start(s0, Shrink))
  {
  }

  // A pass freezes items at their bounds only.
  lemma NextAtBounds(s0: seq<Item>, s: seq<Item>, r: seq<Item>, f: seq<Item>, lam: real, done: bool)
    requires Rounds(s0, s, Shrink) && AtBounds(s0, s)
    requires IsOffered(s, r, Shrink, lam) && FixedUp(r, f, Shrink, done)
    ensures AtBounds(s0, f)
  {
    hide Sum;
    forall i | 0 <= i < |f| && f[i].frozen ensures IsInflexible(s0[i], Shrink) || AtMin(f[i]) || AtMax(f[i]) {
    }
  }

  // What a pass shares out makes the sizes before clamping reach the goal.
  lemma CappedGoal(initial: real, used: real, c: real, total: real, rem: real)
    requires rem == Capped(Shrink, initial, c - used, total)
    ensures var part := used - (-initial) * (total / 1000.0);
            used + rem == if total >= 1000.0 || part < c then c else part
  {
    assert initial * total / 1000.0 == initial * (total / 1000.0);
  }

  // With an item left unfrozen, the last pass froze none.
  lemma LastItem(i0: Item, it: Item, lam: real)
    requires Fresh(i0) && SameStatic(i0, it)
    ensures var f := Fixed(Offered(it, Shrink, lam));
            && Val(f, Shrink, Main) == Val(it, Shrink, Fitted(lam))
            && (it.frozen <==> f.frozen)
            && Val(f, Shrink, Used) == Val(it, Shrink, Used) && Val(f, Shrink, Factors) == Val(it, Shrink, Factors)
            && (!f.frozen ==> f.main == Clamp(Offer(i0, Shrink, lam), i0))
  {
  }

  lemma LastPass(s: seq<Item>, r: seq<Item>, f: seq<Item>, lam: real, k: nat)
    requires IsOffered(s, r, Shrink, lam) && FixedUp(r, f, Shrink, true) && k < |f| && !f[k].frozen
    ensures Sum(s, Shrink, Fitted(lam)) == Sum(s, Shrink, Used) + lam * Sum(s, Shrink, Shares)
    ensures |f| == |s| && forall i | 0 <= i < |s| :: f[i] == Fixed(Offered(s[i], Shrink, lam))
  {
    LinearSum(s, Shrink, lam);
    OfferedExcess(s, r, Shrink, lam);
  }

  // A pass that ends the loop on balance ends it at the goal.
  lemma EndBalancedAt(s0: seq<Item>, s: seq<Item>, r: seq<Item>, f: seq<Item>, c: real, rem: real, lam: real, k: nat)
    requires FreshLine(s0, Shrink) && Rounds(s0, s, Shrink)
    requires rem == Capped(Shrink, InitialFreeSpace(s0, Shrink, c), c - Sum(s, Shrink, Used), Sum(s, Shrink, Factors))
    requires lam * Sum(s, Shrink, Shares) == rem
    requires IsOffered(s, r, Shrink, lam) && FixedUp(r, f, Shrink, true) && k < |f| && !f[k].frozen
    ensures BalancedAt(s0, f, c, lam)
  {
    hide Sum, IsOffered, FixedUp, Capped, Fixed, Offered, InBounds;
    LastPass(s, r, f, lam, k);
    forall i | 0 <= i < |s|
      ensures Val(f[i], Shrink, Main) == Val(s[i], Shrink, Fitted(lam))
      ensures Val(f[i], Shrink, Used) == Val(s[i], Shrink, Used)
      ensures Val(f[i], Shrink, Factors) == Val(s[i], Shrink, Factors)
      ensures !f[i].frozen ==> f[i].main == Clamp(Offer(s0[i], Shrink, lam), s0[i])
    {
      assert Fresh(s0[i]) && SameStatic(s0[i], s[i]);
      LastItem(s0[i], s[i], lam);
    }
    SumEq(f, Main, s, Fitted(lam), Shrink);
    SumEq(f, Used, s, Used, Shrink);
    SumEq(f, Factors, s, Factors, Shrink);
    CappedGoal(InitialFreeSpace(s0, Shrink, c), Sum(s, Shrink, Used), c, Sum(s, Shrink, Factors), rem);
  }

  lemma EndLeveled(s0: seq<Item>, s: seq<Item>, r: seq<Item>, f: seq<Item>, c: real, rem: real, lam: real)
    requires FreshLine(s0, Shrink) && Rounds(s0, s, Shrink) && AtBounds(s0, s)
    requires rem == Capped(Shrink, InitialFreeSpace(s0, Shrink, c), c - Sum(s, Shrink, Used), Sum(s, Shrink, Factors))
    requires lam * Sum(s, Shrink, Shares) == rem && lam < 0.0
    requires IsOffered(s, r, Shrink, lam) && FixedUp(r, f, Shrink, true)
    ensures Leveled(s0, f, c)
  {
    hide Sum, IsOffered, FixedUp, Capped, Rounds, FreshLine, BalancedAt;
    NextAtBounds(s0, s, r, f, lam, true);
    if i :| 0 <= i < |f| && !f[i].frozen {
      EndBalancedAt(s0, s, r, f, c, rem, lam, i);
    }
  }
}
