// Distributing a width over the columns of a table: in steps, first over the auto
// columns, then over those with a percentage, then over all.
module TableSpread {
  import opened TableModel

  // Which columns a step distributes over.
  predicate Chosen(c: Column, step: nat) {
    if step == 0 then c.cssWidth.Auto? else if step == 1 then c.cssWidth.Percent? else true
  }

  predicate InStep(cs: seq<Column>, step: nat, start: nat, end: nat, i: nat)
    requires i < |cs|
  {
    start <= i <= end && Chosen(cs[i], step)
  }

  predicate AnyChosen(cs: seq<Column>, step: nat, start: nat, end: nat)
    requires end < |cs|
  {
    exists k | start <= k <= end :: Chosen(cs[k], step)
  }

  // How far the columns of a step can grow.
  function Spares(cs: seq<Column>, step: nat, start: nat, end: nat): (r: seq<real>)
    ensures |r| == |cs|
  {
    seq(|cs|, i requires 0 <= i < |cs| =>
      if InStep(cs, step, start, end, i) then cs[i].maxWidth - cs[i].minWidth else 0.0)
  }

  function Spare(cs: seq<Column>, step: nat, start: nat, end: nat): real {
    Sum(Spares(cs, step, start, end))
  }

  lemma SparesIs(cs: seq<Column>, step: nat, start: nat, end: nat, i: nat)
    requires i < |cs|
    ensures Spares(cs, step, start, end)[i] ==
            if InStep(cs, step, start, end, i) then cs[i].maxWidth - cs[i].minWidth else 0.0
  {
  }

  // A column's part: by how far it can grow; all to the last of the step if none can.
  function Share(cs: seq<Column>, step: nat, width: real, start: nat, end: nat, i: nat): real
    requires end < |cs| && i < |cs|
  {
    var total := Spare(cs, step, start, end);
    if !InStep(cs, step, start, end, i) then 0.0
    else if total != 0.0 then Portion(width, cs[i].maxWidth - cs[i].minWidth, total)
    else if forall k | i < k <= end :: !Chosen(cs[k], step) then width
    else 0.0
  }

  function Shares(cs: seq<Column>, step: nat, width: real, start: nat, end: nat): (r: seq<real>)
    requires end < |cs|
    ensures |r| == |cs|
  {
    seq(|cs|, i requires 0 <= i < |cs| => Share(cs, step, width, start, end, i))
  }

  lemma ShareIs(cs: seq<Column>, step: nat, width: real, start: nat, end: nat, i: nat)
    requires end < |cs| && i < |cs|
    ensures var total := Spare(cs, step, start, end);
            && (!InStep(cs, step, start, end, i) ==> Share(cs, step, width, start, end, i) == 0.0)
            && (InStep(cs, step, start, end, i) && total != 0.0 ==>
                  Share(cs, step, width, start, end, i) == Portion(width, cs[i].maxWidth - cs[i].minWidth, total))
            && (InStep(cs, step, start, end, i) && total == 0.0 ==>
                  Share(cs, step, width, start, end, i) ==
                    if forall k | i < k <= end :: !Chosen(cs[k], step) then width else 0.0)
  {
  }

  // The first and the last column of a step.
  function First(cs: seq<Column>, step: nat, start: nat, end: nat): (i: nat)
    requires start <= end < |cs| && AnyChosen(cs, step, start, end)
    ensures start <= i <= end && Chosen(cs[i], step) && forall k | start <= k < i :: !Chosen(cs[k], step)
    decreases end - start
  {
    if Chosen(cs[start], step) then start else First(cs, step, start + 1, end)
  }

  function Last(cs: seq<Column>, step: nat, start: nat, end: nat): (i: nat)
    requires start <= end < |cs| && AnyChosen(cs, step, start, end)
    ensures start <= i <= end && Chosen(cs[i], step) && forall k | i < k <= end :: !Chosen(cs[k], step)
  {
    if Chosen(cs[end], step) then end else Last(cs, step, start, end - 1)
  }

  // The parts add up to the width.
  lemma SharesAddUp(cs: seq<Column>, step: nat, width: real, start: nat, end: nat)
    requires start <= end < |cs| && AnyChosen(cs, step, start, end)
    ensures Sum(Shares(cs, step, width, start, end)) == width
  {
    hide Sum;
    var spares, shares := Spares(cs, step, start, end), Shares(cs, step, width, start, end);
    if Sum(spares) != 0.0 {
      ByWeight(spares, width, shares);
    } else {
      var i := Last(cs, step, start, end);
      var none := seq(|cs|, k => 0.0);
      SumZero(none);
      SumUpdate(none, i, width);
      assert shares == none[i := width];
    }
  }

  // Columns that can only grow get parts of the sign of the width.
  lemma ShareSign(cs: seq<Column>, step: nat, width: real, start: nat, end: nat, i: nat)
    requires end < |cs| && i < |cs| && AllSane(cs)
    ensures width >= 0.0 ==> Share(cs, step, width, start, end, i) >= 0.0
    ensures width <= 0.0 ==> Share(cs, step, width, start, end, i) <= 0.0
  {
    hide Sum;
    var spares := Spares(cs, step, start, end);
    SumNonnegative(spares);
    if Sum(spares) != 0.0 { Quotient(width, cs[i].maxWidth - cs[i].minWidth, Sum(spares)); }
  }

  lemma Quotient(width: real, x: real, total: real)
    requires x >= 0.0 && total > 0.0
    ensures width >= 0.0 ==> Portion(width, x, total) >= 0.0
    ensures width <= 0.0 ==> Portion(width, x, total) <= 0.0
  {
    assert x / total >= 0.0;
  }

  // ----------------------------------------------------------------------- one step

  // A column moved by its part, but not below its minimum.
  function Moved(c: Column, add: real): Column {
    c.(width := if c.width + add >= c.minWidth then c.width + add else c.minWidth)
  }

  // What is counted as added to it: a column held at its minimum counts with the sign
  // of its part.
  function Tally(c: Column, add: real): real {
    if c.width + add >= c.minWidth then add
    else if add > 0.0 then c.width - c.minWidth
    else c.minWidth - c.width
  }

  function Abs(x: real): real { if x >= 0.0 then x else -x }

  lemma WithSign(x: real, add: real)
    requires add != 0.0
    ensures x * (add / Abs(add)) == if add > 0.0 then x else -x
  {
    var q := add / Abs(add);
    assert q * Abs(add) == add;
    if add < 0.0 {
      OppositeIs(q, add, Abs(add));
    }
  }

  lemma OppositeIs(q: real, a: real, b: real)
    requires q * b == a && a < 0.0 && b == -a
    ensures q == -1.0
  {
    assert (q + 1.0) * a == 0.0;
  }

  // That sign is a part divided by its magnitude.
  predicate NoSign(c: Column, add: real) {
    c.width + add < c.minWidth && add == 0.0
  }

  function AllMoved(cs: seq<Column>, step: nat, width: real, start: nat, end: nat): (r: seq<Column>)
    requires end < |cs|
    ensures |r| == |cs|
  {
    seq(|cs|, i requires 0 <= i < |cs| =>
      if InStep(cs, step, start, end, i) then Moved(cs[i], Share(cs, step, width, start, end, i)) else cs[i])
  }

  function Tallies(cs: seq<Column>, step: nat, width: real, start: nat, end: nat): (r: seq<real>)
    requires end < |cs|
    ensures |r| == |cs|
  {
    seq(|cs|, i requires 0 <= i < |cs| =>
      if InStep(cs, step, start, end, i) then Tally(cs[i], Share(cs, step, width, start, end, i)) else 0.0)
  }

  lemma MovedIs(cs: seq<Column>, step: nat, width: real, start: nat, end: nat, i: nat)
    requires end < |cs| && i < |cs|
    ensures InStep(cs, step, start, end, i) ==>
              && AllMoved(cs, step, width, start, end)[i] == Moved(cs[i], Share(cs, step, width, start, end, i))
              && Tallies(cs, step, width, start, end)[i] == Tally(cs[i], Share(cs, step, width, start, end, i))
    ensures !InStep(cs, step, start, end, i) ==>
              AllMoved(cs, step, width, start, end)[i] == cs[i] && Tallies(cs, step, width, start, end)[i] == 0.0
  {
  }

  predicate AnyNoSign(cs: seq<Column>, step: nat, width: real, start: nat, end: nat)
    requires end < |cs|
  {
    && Spare(cs, step, start, end) != 0.0
    && exists k | start <= k <= end :: Chosen(cs[k], step) && NoSign(cs[k], Share(cs, step, width, start, end, k))
  }

  // The columns after a step, and what it counts as added.  After the first step the
  // first column chosen takes what is missing from a width.
  function Stepped(cs: seq<Column>, step: nat, width: real, start: nat, end: nat): (r: (seq<Column>, real))
    requires start <= end < |cs|
    ensures |r.0| == |cs|
  {
    if !AnyChosen(cs, step, start, end) then (cs, 0.0)
    else if Spare(cs, step, start, end) == 0.0 then
      var last := Last(cs, step, start, end);
      (cs[last := cs[last].(width := cs[last].width + width)], width)
    else
      var moved, added := AllMoved(cs, step, width, start, end), Sum(Tallies(cs, step, width, start, end));
      if added < width && step > 0 then
        var first := First(cs, step, start, end);
        (moved[first := moved[first].(width := moved[first].width + (width - added))], width)
      else (moved, added)
  }

  // The columns in the end, what of the width was not given to any, and whether a sign
  // was needed that there is none of.
  datatype Spread = Spread(columns: seq<Column>, rest: real, byZero: bool)

  function SpreadFrom(cs: seq<Column>, step: nat, width: real, start: nat, end: nat): (s: Spread)
    requires start <= end < |cs| && step <= 3
    ensures |s.columns| == |cs|
    decreases 3 - step
  {
    if step == 3 then Spread(cs, width, false)
    else if AnyNoSign(cs, step, width, start, end) then Spread(cs, width, true)
    else
      var (now, added) := Stepped(cs, step, width, start, end);
      if added == width then Spread(now, 0.0, false) else SpreadFrom(now, step + 1, width - added, start, end)
  }

  // ---------------------------------------------------------- columns at their minimum

  ghost predicate AtLeast(cs: seq<Column>) {
    forall i | 0 <= i < |cs| :: cs[i].width >= cs[i].minWidth
  }

  // The first step with a column to choose.
  function Group(cs: seq<Column>, start: nat, end: nat): nat
    requires end < |cs|
  {
    if AnyChosen(cs, 0, start, end) then 0 else if AnyChosen(cs, 1, start, end) then 1 else 2
  }

  // Every column with its part of the width, of one step.
  ghost predicate Shared(cs: seq<Column>, step: nat, width: real, start: nat, end: nat, now: seq<Column>)
    requires end < |cs|
  {
    && |now| == |cs|
    && forall i | 0 <= i < |cs| :: now[i] == cs[i].(width := cs[i].width + Share(cs, step, width, start, end, i))
  }

  lemma SharedSum(cs: seq<Column>, step: nat, width: real, start: nat, end: nat, now: seq<Column>)
    requires start <= end < |cs| && AnyChosen(cs, step, start, end) && Shared(cs, step, width, start, end, now)
    ensures Sum(Widths(now)) == Sum(Widths(cs)) + width
  {
    hide Sum, Share;
    SumAdd(Widths(cs), Shares(cs, step, width, start, end), Widths(now));
    SharesAddUp(cs, step, width, start, end);
  }

  // No part is held back when the width is not negative.
  lemma StepWidens(cs: seq<Column>, step: nat, width: real, start: nat, end: nat)
    requires start <= end < |cs| && AnyChosen(cs, step, start, end) && AllSane(cs) && AtLeast(cs) && width >= 0.0
    ensures !AnyNoSign(cs, step, width, start, end)
    ensures var (now, added) := Stepped(cs, step, width, start, end);
            added == width && Shared(cs, step, width, start, end, now)
  {
    hide Sum, Portion;
    forall i | 0 <= i < |cs|
      ensures Share(cs, step, width, start, end, i) >= 0.0
      ensures !NoSign(cs[i], Share(cs, step, width, start, end, i))
    {
      ShareSign(cs, step, width, start, end, i);
    }
    SharesAddUp(cs, step, width, start, end);
    assert Tallies(cs, step, width, start, end) == Shares(cs, step, width, start, end);
  }

  lemma {:induction false} WidensFrom(cs: seq<Column>, step: nat, width: real, start: nat, end: nat)
    requires start <= end < |cs| && AllSane(cs) && AtLeast(cs) && width >= 0.0 && step <= Group(cs, start, end)
    ensures var s := SpreadFrom(cs, step, width, start, end);
            s.rest == 0.0 && !s.byZero && Shared(cs, Group(cs, start, end), width, start, end, s.columns)
    decreases 3 - step
  {
    hide Sum, Share;
    var group := Group(cs, start, end);
    assert Chosen(cs[end], 2);
    if step == group {
      StepWidens(cs, step, width, start, end);
    } else if width == 0.0 {
      forall i | 0 <= i < |cs| ensures Share(cs, group, width, start, end, i) == 0.0 {
        ShareSign(cs, group, width, start, end, i);
      }
    } else {
      WidensFrom(cs, step + 1, width, start, end);
    }
  }

  // A width that is not negative goes to the columns of one step, all of it.
  lemma SpreadWidens(cs: seq<Column>, width: real, start: nat, end: nat)
    requires start <= end < |cs| && AllSane(cs) && AtLeast(cs) && width >= 0.0
    ensures var s := SpreadFrom(cs, 0, width, start, end);
            && s.rest == 0.0 && !s.byZero
            && Shared(cs, Group(cs, start, end), width, start, end, s.columns)
            && Sum(Widths(s.columns)) == Sum(Widths(cs)) + width
  {
    hide Sum, Share, SpreadFrom;
    assert Chosen(cs[end], 2);
    WidensFrom(cs, 0, width, start, end);
    SharedSum(cs, Group(cs, start, end), width, start, end, SpreadFrom(cs, 0, width, start, end).columns);
  }

  // ---------------------------------------------------------------- what is kept

  // How far columns that would get something stay below their minimum before the step
  // lifts them to it.
  function Shorts(cs: seq<Column>, step: nat, width: real, start: nat, end: nat): (r: seq<real>)
    requires end < |cs|
    ensures |r| == |cs|
  {
    seq(|cs|, i requires 0 <= i < |cs| =>
      if InStep(cs, step, start, end, i) then Short(cs[i], Share(cs, step, width, start, end, i)) else 0.0)
  }

  function Short(c: Column, add: real): real {
    if add > 0.0 && c.width + add < c.minWidth then c.minWidth - c.width else 0.0
  }

  function StepShort(cs: seq<Column>, step: nat, width: real, start: nat, end: nat): real
    requires end < |cs|
  {
    if Spare(cs, step, start, end) == 0.0 then 0.0 else Sum(Shorts(cs, step, width, start, end))
  }

  function ShortFrom(cs: seq<Column>, step: nat, width: real, start: nat, end: nat): real
    requires start <= end < |cs| && step <= 3
    decreases 3 - step
  {
    if step == 3 || AnyNoSign(cs, step, width, start, end) then 0.0
    else
      var (now, added) := Stepped(cs, step, width, start, end);
      StepShort(cs, step, width, start, end) +
      if added == width then 0.0 else ShortFrom(now, step + 1, width - added, start, end)
  }

  // A column moves by what is counted, or in the other direction.
  lemma MovedSum(cs: seq<Column>, step: nat, width: real, start: nat, end: nat)
    requires end < |cs| && Spare(cs, step, start, end) != 0.0 && !AnyNoSign(cs, step, width, start, end)
    ensures Sum(Widths(AllMoved(cs, step, width, start, end))) ==
            Sum(Widths(cs)) + Sum(Tallies(cs, step, width, start, end)) + 2.0 * StepShort(cs, step, width, start, end)
  {
    hide Sum, Share;
    var tallies, shorts := Tallies(cs, step, width, start, end), Shorts(cs, step, width, start, end);
    var twice := seq(|cs|, i requires 0 <= i < |cs| => 2.0 * shorts[i]);
    var moves := seq(|cs|, i requires 0 <= i < |cs| => tallies[i] + twice[i]);
    SumScale(shorts, 2.0, twice);
    SumAdd(tallies, twice, moves);
    SumAdd(Widths(cs), moves, Widths(AllMoved(cs, step, width, start, end)));
  }

  lemma StepSum(cs: seq<Column>, step: nat, width: real, start: nat, end: nat)
    requires start <= end < |cs| && !AnyNoSign(cs, step, width, start, end)
    ensures var (now, added) := Stepped(cs, step, width, start, end);
            Sum(Widths(now)) == Sum(Widths(cs)) + added + 2.0 * StepShort(cs, step, width, start, end)
  {
    hide Sum, Share;
    if !AnyChosen(cs, step, start, end) {
      SumZero(Shorts(cs, step, width, start, end));
    } else if Spare(cs, step, start, end) == 0.0 {
      var last := Last(cs, step, start, end);
      WidthsUpdate(cs, last, cs[last].(width := cs[last].width + width));
    } else {
      MovedSum(cs, step, width, start, end);
      var moved, first := AllMoved(cs, step, width, start, end), First(cs, step, start, end);
      var added := Sum(Tallies(cs, step, width, start, end));
      WidthsUpdate(moved, first, moved[first].(width := moved[first].width + (width - added)));
    }
  }

  // The widths change by what of the width was given out, and twice what columns were
  // short of their minima.
  lemma {:induction false} SpreadSum(cs: seq<Column>, step: nat, width: real, start: nat, end: nat)
    requires start <= end < |cs| && step <= 3
    ensures var s := SpreadFrom(cs, step, width, start, end);
            s.byZero ||
            Sum(Widths(s.columns)) == Sum(Widths(cs)) + (width - s.rest) + 2.0 * ShortFrom(cs, step, width, start, end)
    decreases 3 - step
  {
    hide Sum, Stepped, StepShort, AnyNoSign;
    if step < 3 && !AnyNoSign(cs, step, width, start, end) {
      StepSum(cs, step, width, start, end);
      var (now, added) := Stepped(cs, step, width, start, end);
      if added != width { SpreadSum(now, step + 1, width - added, start, end); }
    }
  }

  lemma StepGives(cs: seq<Column>, step: nat, width: real, start: nat, end: nat)
    requires start <= end < |cs| && AllSane(cs) && width >= 0.0 && !AnyNoSign(cs, step, width, start, end)
    ensures StepShort(cs, step, width, start, end) >= 0.0 && Stepped(cs, step, width, start, end).1 <= width
    ensures AnyChosen(cs, step, start, end) && step > 0 ==> Stepped(cs, step, width, start, end).1 == width
  {
    hide Sum, Portion;
    SumNonnegative(Shorts(cs, step, width, start, end));
    if AnyChosen(cs, step, start, end) && Spare(cs, step, start, end) != 0.0 {
      forall i | 0 <= i < |cs|
        ensures Tallies(cs, step, width, start, end)[i] <= Shares(cs, step, width, start, end)[i]
      {
        ShareSign(cs, step, width, start, end, i);
      }
      SumLeast(Tallies(cs, step, width, start, end), Shares(cs, step, width, start, end));
      SharesAddUp(cs, step, width, start, end);
    }
  }

  // Only the widths of columns differ.
  ghost predicate SameColumns(cs: seq<Column>, now: seq<Column>) {
    |now| == |cs| && forall i | 0 <= i < |cs| :: now[i] == cs[i].(width := now[i].width)
  }

  lemma StepSame(cs: seq<Column>, step: nat, width: real, start: nat, end: nat)
    requires start <= end < |cs|
    ensures SameColumns(cs, Stepped(cs, step, width, start, end).0)
  {
    hide Sum, Share;
  }

  // A width to give is given in full, and columns below their minimum only make the
  // table wider than that.
  lemma {:induction false} SpreadGives(cs: seq<Column>, step: nat, width: real, start: nat, end: nat)
    requires start <= end < |cs| && step <= 2 && AllSane(cs) && width >= 0.0
    ensures var s := SpreadFrom(cs, step, width, start, end);
            s.byZero || (s.rest == 0.0 && ShortFrom(cs, step, width, start, end) >= 0.0)
    decreases 3 - step
  {
    hide Sum, Stepped, StepShort, AnyNoSign;
    if !AnyNoSign(cs, step, width, start, end) {
      var (now, added) := Stepped(cs, step, width, start, end);
      StepGives(cs, step, width, start, end);
      StepSame(cs, step, width, start, end);
      if added != width {
        assert Chosen(cs[end], 2);
        SpreadGives(now, step + 1, width - added, start, end);
      }
    }
  }

  // Last of a step none of whose columns can grow.
  ghost predicate AtEnd(cs: seq<Column>, start: nat, end: nat, i: nat)
    requires start <= end < |cs|
  {
    exists k: nat | k <= 2 && AnyChosen(cs, k, start, end) ::
      Spare(cs, k, start, end) == 0.0 && i == Last(cs, k, start, end)
  }

  // No column is wider, and none below its minimum but one of those.
  ghost predicate Narrower(cs: seq<Column>, start: nat, end: nat, now: seq<Column>)
    requires start <= end < |cs|
  {
    && SameColumns(cs, now)
    && forall i | 0 <= i < |cs| ::
         now[i].width <= cs[i].width && (now[i].width >= cs[i].minWidth || AtEnd(cs, start, end, i))
  }

  lemma StepNarrows(cs: seq<Column>, step: nat, width: real, start: nat, end: nat)
    requires start <= end < |cs| && step <= 2 && AllSane(cs) && AtLeast(cs) && width <= 0.0
    ensures !AnyNoSign(cs, step, width, start, end) && StepShort(cs, step, width, start, end) == 0.0
    ensures var (now, added) := Stepped(cs, step, width, start, end);
            && Narrower(cs, start, end, now) && width <= added <= 0.0
            && (added == width || AtLeast(now))
  {
    hide Sum, Portion;
    forall i | 0 <= i < |cs|
      ensures Share(cs, step, width, start, end, i) <= 0.0
      ensures Shares(cs, step, width, start, end)[i] <= Tallies(cs, step, width, start, end)[i] <= 0.0
    {
      ShareSign(cs, step, width, start, end, i);
    }
    SumZero(Shorts(cs, step, width, start, end));
    if AnyChosen(cs, step, start, end) {
      SharesAddUp(cs, step, width, start, end);
      SumLeast(Shares(cs, step, width, start, end), Tallies(cs, step, width, start, end));
      var none := seq(|cs|, i => 0.0);
      SumZero(none);
      SumLeast(Tallies(cs, step, width, start, end), none);
    }
  }

  lemma SameSteps(cs: seq<Column>, now: seq<Column>, start: nat, end: nat, i: nat)
    requires start <= end < |cs| && SameColumns(cs, now) && i < |cs| && AtEnd(now, start, end, i)
    ensures AtEnd(cs, start, end, i)
  {
    hide Sum;
    var k: nat :| k <= 2 && AnyChosen(now, k, start, end) && Spare(now, k, start, end) == 0.0 &&
                  i == Last(now, k, start, end);
    assert Spares(now, k, start, end) == Spares(cs, k, start, end);
    assert Last(now, k, start, end) == Last(cs, k, start, end);
  }

  // A width to take back: what is taken back makes the columns narrower, none below
  // its minimum unless it is the last of a step that has no part for anyone.
  lemma {:induction false} SpreadNarrows(cs: seq<Column>, step: nat, width: real, start: nat, end: nat)
    requires start <= end < |cs| && step <= 3 && AllSane(cs) && AtLeast(cs) && width <= 0.0
    ensures var s := SpreadFrom(cs, step, width, start, end);
            && !s.byZero && width <= s.rest <= 0.0 && ShortFrom(cs, step, width, start, end) == 0.0
            && Narrower(cs, start, end, s.columns)
    decreases 3 - step
  {
    hide Sum, Stepped, StepShort, AnyNoSign, AtEnd;
    if step < 3 {
      var (now, added) := Stepped(cs, step, width, start, end);
      StepNarrows(cs, step, width, start, end);
      if added != width {
        SpreadNarrows(now, step + 1, width - added, start, end);
        forall i | 0 <= i < |cs| && AtEnd(now, start, end, i) ensures AtEnd(cs, start, end, i) {
          SameSteps(cs, now, start, end, i);
        }
      }
    }
  }
}
