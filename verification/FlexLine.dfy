// The flex line as the layout engine runs it: items are shared objects whose
// sizes, frozen flags and clamp states are updated in place, round by round.
module FlexLine {
  import opened FlexModel
  import opened FlexLaws
  import opened FlexRounds
  import opened FlexEven
  import opened FlexShrink

  class FlexItem {
    var base: real
    var min: real
    var max: Limit
    var main: real
    var grow: int
    var shrink: int
    var scaled: real
    var frozen: bool
    var state: ClampState

    constructor (base: real, min: real, max: Limit, scaled: real)
      ensures View() == Item(base, min, max, 0.0, 0, 0, scaled, false, Unclamped)
    {
      this.base, this.min, this.max, this.scaled := base, min, max, scaled;
      main, grow, shrink, frozen, state := 0.0, 0, 0, false, Unclamped;
    }

    ghost function View(): Item
      reads this
    {
      Item(base, min, max, main, grow, shrink, scaled, frozen, state)
    }

    // Sanitises the factors (already scaled by 1000 and rounded) and clamps
    // the base size to the hypothetical size.
    method Init(cssGrow: int, cssShrink: int)
      requires state == Unclamped
      modifies this
      ensures View() == old(View()).(main := Clamp(base, View()), frozen := false,
                                     grow := if cssGrow < 0 then 0 else cssGrow,
                                     shrink := if cssShrink < 0 then 1000 else cssShrink)
      ensures (max.Limit? ==> min <= max.value) ==> Fresh(View()) && InBounds(View())
    {
      grow := cssGrow;
      if grow < 0 { grow := 0; }
      shrink := cssShrink;
      if shrink < 0 { shrink := 1000; }
      if base < min {
        main := min;
      } else if max.Limit? && base > max.value {
        main := max.value;
      } else {
        main := base;
      }
      frozen := false;
    }

    method FreezeIfInflexible(mode: Mode) returns (used: real, inflexible: bool)
      modifies this
      ensures inflexible == IsInflexible(old(View()), mode)
      ensures View() == Frozen0(old(View()), mode)
      ensures !old(frozen) ==> used == Val(View(), mode, Used)
    {
      inflexible := match mode
                    case Grow => grow == 0 || base > main
                    case Shrink => shrink == 0 || base < main;
      if inflexible {
        frozen := true;
        state := Inflexible;
        used := main;
      } else {
        used := base;
      }
    }

    method TakeShare(mode: Mode, remaining: real, total: real)
      requires total != 0.0 && remaining != 0.0
      modifies this
      ensures View() == Shared(old(View()), mode, remaining, total)
    {
      if !frozen {
        main := base + remaining * (if mode.Grow? then grow as real else scaled) / total;
      }
    }

    method FixViolation(ghost mode: Mode) returns (moved: real)
      modifies this
      ensures View() == Fixed(old(View()))
      ensures moved == Val(old(View()), mode, Excess)
    {
      moved := 0.0;
      if !frozen {
        if main < min {
          moved := min - main;
          main := min;
          state := MinViolation;
        } else if max.Limit? && main > max.value {
          moved := max.value - main;
          main := max.value;
          state := MaxViolation;
        }
      }
    }

    method Settle(stateToFreeze: ClampState) returns (nowFrozen: bool)
      modifies this
      ensures View() == Settled(old(View()), stateToFreeze)
      ensures nowFrozen == frozen
    {
      if !frozen {
        if state == stateToFreeze {
          frozen := true;
        } else {
          state := Unclamped;
        }
      }
      nowFrozen := frozen;
    }
  }

  ghost function Views(items: seq<FlexItem>): (s: seq<Item>)
    reads items
    ensures |s| == |items| && forall i | 0 <= i < |s| :: s[i] == items[i].View()
  {
    seq(|items|, i requires 0 <= i < |items| reads items => items[i].View())
  }

  class Line {
    var items: seq<FlexItem>
    var mainSize: real

    constructor (items: seq<FlexItem>, mainSize: real)
      ensures this.items == items && this.mainSize == mainSize
    {
      this.items, this.mainSize := items, mainSize;
    }

    // Every item appears on the line once.
    ghost predicate Valid()
      reads this
    {
      forall i, j | 0 <= i < j < |items| :: items[i] != items[j]
    }

    // Steps 4.d and 4.e of section 9.7; true when the loop must stop.
    method FixMinMaxViolations(ghost mode: Mode) returns (done: bool)
      requires Valid() && Ready(Views(items))
      modifies items
      ensures FixedUp(old(Views(items)), Views(items), mode, done)
    {
      ghost var s := Views(items);
      var total := ClampItems(mode);
      if total == 0.0 {
        return true;
      }
      var stateToFreeze := if total > 0.0 then MinViolation else MaxViolation;
      done := FreezeItems(stateToFreeze);
      ghost var k := SomeViolation(s, mode);
      assert !s[k].frozen && Views(items)[k].frozen;
    }

    method ClampItems(ghost mode: Mode) returns (total: real)
      requires Valid()
      modifies items
      ensures forall i | 0 <= i < |items| :: items[i].View() == Fixed(old(items[i].View()))
      ensures total == Sum(old(Views(items)), mode, Excess)
    {
      ghost var s := Views(items);
      total := 0.0;
      for i := 0 to |items|
        invariant forall j | 0 <= j < |items| :: items[j].View() == if j < i then Fixed(s[j]) else s[j]
        invariant total == Sum(s[..i], mode, Excess)
      {
        SumStep(s, i, mode, Excess);
        var moved := items[i].FixViolation(mode);
        total := total + moved;
      }
      SumWhole(s, mode, Excess);
    }

    method FreezeItems(stateToFreeze: ClampState) returns (allFrozen: bool)
      requires Valid()
      modifies items
      ensures forall i | 0 <= i < |items| :: items[i].View() == Settled(old(items[i].View()), stateToFreeze)
      ensures allFrozen <==> forall i | 0 <= i < |items| :: items[i].frozen
    {
      ghost var s := Views(items);
      allFrozen := true;
      for i := 0 to |items|
        invariant forall j | 0 <= j < |items| :: items[j].View() == if j < i then Settled(s[j], stateToFreeze) else s[j]
        invariant allFrozen <==> forall j | 0 <= j < i :: items[j].frozen
      {
        var frozen := items[i].Settle(stateToFreeze);
        allFrozen := allFrozen && frozen;
      }
    }

    // Step 1: grow when the hypothetical sizes leave room, shrink otherwise.
    method DistributeFreeSpace(container: real) returns (byZero: bool)
      requires Valid() && mainSize == Sum(Views(items), Grow, Main)
      requires FreshLine(Views(items), if mainSize < container then Grow else Shrink)
      modifies items
      ensures mainSize < container ==> !byZero && Sound(old(Views(items)), Views(items), Grow)
      ensures mainSize < container ==> Grown(old(Views(items)), Views(items), container)
      ensures mainSize >= container ==> Resolved(old(Views(items)), Views(items), container, byZero)
      ensures mainSize == Sum(old(Views(items)), Shrink, Main)
    {
      SumMode(Views(items), Grow, Shrink);
      if mainSize < container {
        DistributeFreeSpaceGrow(container);
        byZero := false;
      } else {
        byZero := DistributeFreeSpaceShrink(container);
      }
    }

    method DistributeFreeSpaceGrow(container: real)
      requires Valid() && FreshLine(Views(items), Grow) && Sum(Views(items), Grow, Main) < container
      modifies items
      ensures Sound(old(Views(items)), Views(items), Grow)
      ensures Grown(old(Views(items)), Views(items), container)
    {
      hide Grown, Growing, Sound;
      ghost var s0 := Views(items);
      var initialFreeSpace, allInflexible := FreezeInflexible(Grow, container);
      assert Views(items) == Start(s0, Grow);
      GrowingStart(s0, container);
      if allInflexible {
        NothingToGrow(s0, container);
        return;
      }
      ghost var lo, hi := At(0.0), Open;
      while true
        invariant Growing(s0, Views(items), container, initialFreeSpace, lo, hi)
        invariant exists k | 0 <= k < |items| :: !items[k].frozen
        decreases CountUnfrozen(Views(items))
      {
        var done;
        done, lo, hi := GrowPass(container, initialFreeSpace, s0, lo, hi);
        if done { break; }
      }
    }

    // One pass of the loop of step 4.
    method GrowPass(container: real, initialFreeSpace: real, ghost s0: seq<Item>, ghost lo: Bound, ghost hi: Bound)
      returns (done: bool, ghost lo': Bound, ghost hi': Bound)
      requires Valid() && Growing(s0, Views(items), container, initialFreeSpace, lo, hi)
      requires exists k | 0 <= k < |items| :: !items[k].frozen
      modifies items
      ensures done ==> Sound(s0, Views(items), Grow) && Grown(s0, Views(items), container)
      ensures !done ==> Growing(s0, Views(items), container, initialFreeSpace, lo', hi')
      ensures !done ==> CountUnfrozen(Views(items)) < old(CountUnfrozen(Views(items)))
      ensures !done ==> exists k | 0 <= k < |items| :: !items[k].frozen
    {
      hide Sum, Chosen, FixedUp, Sound, Grown, Capped, Bracket;
      ghost var s := Views(items);
      ghost var k :| 0 <= k < |s| && !s[k].frozen;
      var remaining, sumFactor, _ := Remaining(Grow, container);
      remaining := CapFreeSpace(Grow, initialFreeSpace, remaining, sumFactor);
      ghost var lam := GrowPick(s0, s, container, initialFreeSpace, lo, hi, k, sumFactor as real, remaining);
      if remaining != 0.0 {
        Share(Grow, remaining, sumFactor as real, lam);
      }
      ghost var r := Views(items);
      done := FixMinMaxViolations(Grow);
      lo', hi' := GrowNext(s0, s, r, Views(items), container, initialFreeSpace, lo, hi, lam, k, done);
    }

    // The outcome `byZero` is a division of step 4.c by zero.
    method DistributeFreeSpaceShrink(container: real) returns (byZero: bool)
      requires Valid() && FreshLine(Views(items), Shrink)
      modifies items
      ensures Resolved(old(Views(items)), Views(items), container, byZero)
    {
      ghost var s0 := Views(items);
      var initialFreeSpace, allInflexible := FreezeInflexible(Shrink, container);
      assert Views(items) == Start(s0, Shrink);
      if allInflexible {
        NothingToShrink(s0, container);
        return false;
      }
      ShrinkingStart(s0, container);
      hide Sum, FreshLine, Shrinking, Resolved;
      while true
        invariant Shrinking(s0, Views(items), container)
        invariant exists k | 0 <= k < |items| :: !items[k].frozen
        decreases CountUnfrozen(Views(items))
      {
        var done;
        done, byZero := ShrinkPass(container, initialFreeSpace, s0);
        if done { break; }
      }
    }

    method ShrinkPass(container: real, initialFreeSpace: real, ghost s0: seq<Item>) returns (done: bool, byZero: bool)
      requires Valid() && Shrinking(s0, Views(items), container)
      requires initialFreeSpace == InitialFreeSpace(s0, Shrink, container)
      requires exists k | 0 <= k < |items| :: !items[k].frozen
      modifies items
      ensures done ==> Resolved(s0, Views(items), container, byZero)
      ensures !done ==> Shrinking(s0, Views(items), container)
      ensures !done ==> CountUnfrozen(Views(items)) < old(CountUnfrozen(Views(items)))
      ensures !done ==> exists k | 0 <= k < |items| :: !items[k].frozen
    {
      hide Sum, FixedUp, Resolved, Shrinking, Ready, SharedOut, Pass, FreeSpace, Capped;
      ShrinkingReady(s0, Views(items), container);
      ghost var s := Views(items);
      ghost var k :| 0 <= k < |s| && !s[k].frozen;
      ghost var remaining, lam;
      byZero, remaining, lam := ShareFreeSpace(container, initialFreeSpace, s0);
      if byZero {
        ShrinkDivides(s0, s, container, k, remaining);
        return true, true;
      }
      ghost var r := Views(items);
      SharedIsReady(s, r, remaining, lam);
      done := FixMinMaxViolations(Shrink);
      ghost var f := Views(items);
      PassMade(s0, s, r, f, container, remaining, lam, k, done);
      ShrinkNext(s0, s, r, f, container, remaining, lam, done);
    }

    // Steps 4.b and 4.c of a shrinking pass.
    method ShareFreeSpace(container: real, initialFreeSpace: real, ghost s0: seq<Item>)
      returns (byZero: bool, ghost remaining: real, ghost lam: real)
      requires Valid() && Shrinking(s0, Views(items), container)
      requires initialFreeSpace == InitialFreeSpace(s0, Shrink, container)
      modifies items
      ensures remaining == FreeSpace(s0, old(Views(items)), container)
      ensures byZero ==>
                Views(items) == old(Views(items)) && remaining != 0.0 && Sum(Views(items), Shrink, Shares) == 0.0
      ensures !byZero ==> SharedOut(old(Views(items)), Views(items), remaining, lam)
    {
      hide Sum, Shrinking, SharedOut, Capped, InitialFreeSpace;
      ShrinkShares(s0, Views(items), container);
      var free, sumFactor, sumShares := Remaining(Shrink, container);
      free := CapFreeSpace(Shrink, initialFreeSpace, free, sumFactor);
      remaining, lam := free, 0.0;
      byZero := free != 0.0 && sumShares == 0.0;
      if !byZero {
        lam := ShareShrink(free, sumShares);
      }
    }

    // Steps 2 and 3: size inflexible items, and the initial free space.
    method FreezeInflexible(mode: Mode, container: real) returns (initialFreeSpace: real, allInflexible: bool)
      requires Valid() && forall i | 0 <= i < |items| :: !items[i].frozen
      modifies items
      ensures Views(items) == Start(old(Views(items)), mode)
      ensures initialFreeSpace == InitialFreeSpace(old(Views(items)), mode, container)
      ensures allInflexible <==> forall i | 0 <= i < |items| :: items[i].frozen
    {
      hide Sum, Val;
      SumNone(Start(Views(items), mode), mode, Used);
      ghost var s0 := Views(items);
      ghost var s := Start(s0, mode);
      initialFreeSpace := container;
      allInflexible := true;
      for i := 0 to |items|
        invariant forall j | 0 <= j < |items| :: items[j].View() == if j < i then s[j] else s0[j]
        invariant initialFreeSpace == container - Sum(s[..i], mode, Used)
        invariant allInflexible <==> forall j | 0 <= j < i :: s[j].frozen
      {
        SumStep(s, i, mode, Used);
        assert s[i] == Frozen0(s0[i], mode);
        var used, inflexible := items[i].FreezeIfInflexible(mode);
        initialFreeSpace := initialFreeSpace - used;
        allInflexible := allInflexible && inflexible;
      }
      SumWhole(s, mode, Used);
      assert Views(items) == s;
    }

    // Step 4.b before the cap: free space left, sum of factors, sum of weights.
    method Remaining(mode: Mode, container: real) returns (remaining: real, sumFactor: int, sumShares: real)
      ensures remaining == container - Sum(Views(items), mode, Used)
      ensures sumFactor as real == Sum(Views(items), mode, Factors)
      ensures sumShares == Sum(Views(items), mode, Shares)
    {
      ghost var s := Views(items);
      remaining, sumFactor, sumShares := container, 0, 0.0;
      for i := 0 to |items|
        invariant remaining == container - Sum(s[..i], mode, Used)
        invariant sumFactor as real == Sum(s[..i], mode, Factors)
        invariant sumShares == Sum(s[..i], mode, Shares)
      {
        SumStep(s, i, mode, Used);
        SumStep(s, i, mode, Factors);
        SumStep(s, i, mode, Shares);
        var item := items[i];
        if item.frozen {
          remaining := remaining - item.main;
        } else {
          remaining := remaining - item.base;
          sumFactor := sumFactor + if mode.Grow? then item.grow else item.shrink;
          sumShares := sumShares + if mode.Grow? then item.grow as real else item.scaled;
        }
      }
      SumWhole(s, mode, Used);
      SumWhole(s, mode, Factors);
      SumWhole(s, mode, Shares);
    }

    // The rest of step 4.b.
    method CapFreeSpace(mode: Mode, initial: real, free: real, sumFactor: int) returns (remaining: real)
      ensures remaining == Capped(mode, initial, free, sumFactor as real)
    {
      remaining := free;
      if sumFactor < 1000 {
        var adjusted := initial * sumFactor as real / 1000.0;
        if mode.Grow? && adjusted < remaining {
          remaining := adjusted;
        } else if mode.Shrink? && adjusted > remaining {
          remaining := adjusted;
        }
      }
    }

    // Step 4.c when shrinking.
    method ShareShrink(remaining: real, sumShares: real) returns (ghost lam: real)
      requires Valid() && sumShares == Sum(Views(items), Shrink, Shares)
      requires remaining != 0.0 ==> sumShares > 0.0
      modifies items
      ensures SharedOut(old(Views(items)), Views(items), remaining, lam)
    {
      hide Sum, IsOffered;
      lam := 0.0;
      if remaining != 0.0 {
        lam := remaining / sumShares;
        Share(Shrink, remaining, sumShares, lam);
      }
    }

    // Step 4.c.
    method Share(mode: Mode, remaining: real, total: real, ghost lam: real)
      requires Valid() && remaining != 0.0 && total > 0.0 && lam == remaining / total
      modifies items
      ensures IsOffered(old(Views(items)), Views(items), mode, lam)
    {
      ghost var s := Views(items);
      for i := 0 to |items|
        invariant forall j | 0 <= j < |items| :: items[j].View() == if j < i then Offered(s[j], mode, lam) else s[j]
      {
        SharedIsOffered(s[i], mode, remaining, total);
        items[i].TakeShare(mode, remaining, total);
      }
    }
  }

  // A total violation that is not zero has an item violating the same way.
  lemma {:induction false} SomeViolation(s: seq<Item>, mode: Mode) returns (k: nat)
    requires Ready(s)
    requires Sum(s, mode, Excess) != 0.0
    ensures k < |s| && !s[k].frozen
    ensures Sum(s, mode, Excess) > 0.0 ==> Fixed(s[k]).state == MinViolation
    ensures Sum(s, mode, Excess) < 0.0 ==> Fixed(s[k]).state == MaxViolation
  {
    var n := |s| - 1;
    var v := Val(s[n], mode, Excess);
    if (Sum(s, mode, Excess) > 0.0 && v > 0.0) || (Sum(s, mode, Excess) < 0.0 && v < 0.0) {
      k := n;
    } else {
      k := SomeViolation(s[..n], mode);
    }
  }
}
