// The width of a table and of its columns.
module TableWidths {
  import opened TableModel
  import opened TableSpread
  import opened TableShrink

  // What a column asks for before anything is distributed.
  function Wanted(c: Column, block: real): Column {
    var asked := match c.cssWidth
                 case Auto => c.minWidth
                 case Percent(v) => block * v / 100.0
                 case Fixed(v) => v;
    c.(width := if asked < c.minWidth then c.minWidth else asked)
  }

  function AllWanted(cs: seq<Column>, block: real): (r: seq<Column>)
    ensures |r| == |cs|
  {
    seq(|cs|, i requires 0 <= i < |cs| => Wanted(cs[i], block))
  }

  // ... with the auto columns at their maximum.
  function Widest(cs: seq<Column>, block: real): (r: seq<Column>)
    ensures |r| == |cs|
  {
    seq(|cs|, i requires 0 <= i < |cs| =>
      if cs[i].cssWidth.Auto? then cs[i].(width := cs[i].maxWidth) else Wanted(cs[i], block))
  }

  function AutoSpares(cs: seq<Column>): (r: seq<real>)
    ensures |r| == |cs|
  {
    seq(|cs|, i requires 0 <= i < |cs| => if cs[i].cssWidth.Auto? then cs[i].maxWidth - cs[i].minWidth else 0.0)
  }

  lemma WidestSum(cs: seq<Column>, block: real)
    ensures Sum(Widths(Widest(cs, block))) == Sum(Widths(AllWanted(cs, block))) + Sum(AutoSpares(cs))
  {
    SumAdd(Widths(AllWanted(cs, block)), AutoSpares(cs), Widths(Widest(cs, block)));
  }

  lemma NoneAsked(cs: seq<Column>, block: real)
    ensures Sum(MinWidths(cs)[..0]) == Sum(MaxWidths(cs)[..0]) == Sum(Widths(AllWanted(cs, block))[..0]) ==
            Sum(AutoSpares(cs)[..0]) == 0.0
  {
  }

  lemma OneMoreAsked(cs: seq<Column>, block: real, i: nat)
    requires i < |cs|
    ensures Sum(MinWidths(cs)[..i + 1]) == Sum(MinWidths(cs)[..i]) + cs[i].minWidth
    ensures Sum(MaxWidths(cs)[..i + 1]) == Sum(MaxWidths(cs)[..i]) + cs[i].maxWidth
    ensures Sum(Widths(AllWanted(cs, block))[..i + 1]) ==
            Sum(Widths(AllWanted(cs, block))[..i]) + Wanted(cs[i], block).width
    ensures Sum(AutoSpares(cs)[..i + 1]) ==
            Sum(AutoSpares(cs)[..i]) + (if cs[i].cssWidth.Auto? then cs[i].maxWidth - cs[i].minWidth else 0.0)
    ensures Wanted(cs[i], block) ==
            cs[i].(width := if cs[i].cssWidth.Auto? then cs[i].minWidth
                            else Max(Resolve(cs[i].cssWidth, block), cs[i].minWidth))
  {
    SumPrefix(MinWidths(cs), i);
    SumPrefix(MaxWidths(cs), i);
    SumPrefix(Widths(AllWanted(cs, block)), i);
    SumPrefix(AutoSpares(cs), i);
  }

  lemma AllAsked(cs: seq<Column>, block: real)
    ensures MinWidths(cs)[..|cs|] == MinWidths(cs) && MaxWidths(cs)[..|cs|] == MaxWidths(cs)
    ensures Widths(AllWanted(cs, block))[..|cs|] == Widths(AllWanted(cs, block)) &&
            AutoSpares(cs)[..|cs|] == AutoSpares(cs)
  {
  }

  // ------------------------------------------------------------ percentages made to fit

  function Percents(cs: seq<Column>): (r: seq<real>)
    ensures |r| == |cs|
  {
    seq(|cs|, i requires 0 <= i < |cs| => if cs[i].cssWidth.Percent? then cs[i].cssWidth.value else 0.0)
  }

  function FixedWidths(cs: seq<Column>): (r: seq<real>)
    ensures |r| == |cs|
  {
    seq(|cs|, i requires 0 <= i < |cs| => if cs[i].cssWidth.Percent? then 0.0 else cs[i].width)
  }

  // The percentages scaled to a hundred, of what the other columns leave.
  function ScaledWidth(c: Column, room: real, percent: real): real
    requires c.cssWidth.Percent? && percent != 0.0
  {
    room * (c.cssWidth.value * (100.0 / percent)) / 100.0
  }

  function Scaled(c: Column, room: real, percent: real): Column {
    if c.cssWidth.Percent? && percent != 0.0 then c.(width := Max(ScaledWidth(c, room, percent), c.minWidth)) else c
  }

  function AllScaled(cs: seq<Column>, block: real): (r: seq<Column>)
    ensures |r| == |cs|
  {
    seq(|cs|, i requires 0 <= i < |cs| => Scaled(cs[i], block - Sum(FixedWidths(cs)), Sum(Percents(cs))))
  }

  // Some column has a percentage only if the percentages do not add up to nothing.
  predicate PercentsAdd(cs: seq<Column>) {
    (exists i | 0 <= i < |cs| :: cs[i].cssWidth.Percent?) ==> Sum(Percents(cs)) != 0.0
  }

  lemma PercentsStay(cs: seq<Column>, block: real)
    ensures PercentsAdd(AllWanted(cs, block)) <==> PercentsAdd(cs)
  {
    assert Percents(AllWanted(cs, block)) == Percents(cs);
    assert forall i | 0 <= i < |cs| :: AllWanted(cs, block)[i].cssWidth == cs[i].cssWidth;
  }

  // The percentage columns fill the table exactly when none of them is held at its
  // minimum; otherwise the table is too wide.
  lemma ScaledFills(cs: seq<Column>, block: real)
    requires Sum(Percents(cs)) != 0.0
    ensures Sum(Widths(AllScaled(cs, block))) >= block
    ensures Sum(Widths(AllScaled(cs, block))) == block <==> forall i | 0 <= i < |cs| :: !Held(cs, block, i)
  {
    hide Sum;
    var room, percent := block - Sum(FixedWidths(cs)), Sum(Percents(cs));
    var parts, widths := ScaledParts(cs, room, percent), PlainWidths(cs, room, percent);
    forall i | 0 <= i < |cs| ensures parts[i] == Rate(room, percent) * Percents(cs)[i] {
      if cs[i].cssWidth.Percent? { ScaledIsRate(cs[i], room, percent); }
    }
    SumScale(Percents(cs), Rate(room, percent), parts);
    RateOfTotal(room, percent);
    SumAdd(FixedWidths(cs), parts, widths);
    forall i | 0 <= i < |cs|
      ensures widths[i] <= Widths(AllScaled(cs, block))[i]
      ensures widths[i] == Widths(AllScaled(cs, block))[i] <==> !Held(cs, block, i)
    {
    }
    SumLess(widths, Widths(AllScaled(cs, block)));
  }

  // A percentage column whose share would be less than its minimum.
  predicate Held(cs: seq<Column>, block: real, i: nat)
    requires i < |cs| && Sum(Percents(cs)) != 0.0
  {
    && cs[i].cssWidth.Percent?
    && ScaledWidth(cs[i], block - Sum(FixedWidths(cs)), Sum(Percents(cs))) < cs[i].minWidth
  }

  function ScaledParts(cs: seq<Column>, room: real, percent: real): (r: seq<real>)
    requires percent != 0.0
    ensures |r| == |cs|
  {
    seq(|cs|, i requires 0 <= i < |cs| => if cs[i].cssWidth.Percent? then ScaledWidth(cs[i], room, percent) else 0.0)
  }

  function PlainWidths(cs: seq<Column>, room: real, percent: real): (r: seq<real>)
    requires percent != 0.0
    ensures |r| == |cs|
  {
    seq(|cs|, i requires 0 <= i < |cs| =>
      if cs[i].cssWidth.Percent? then ScaledWidth(cs[i], room, percent) else cs[i].width)
  }

  lemma ScaledIsRate(c: Column, room: real, percent: real)
    requires c.cssWidth.Percent? && percent != 0.0
    ensures ScaledWidth(c, room, percent) == Rate(room, percent) * c.cssWidth.value
  {
    var v := c.cssWidth.value;
    assert v * (100.0 / percent) == 100.0 * (v / percent);
    assert room * (100.0 * (v / percent)) / 100.0 == Portion(room, v, percent);
    Rescale(room, v, percent);
  }

  // What calc_table_width makes of the columns `cs` in a block, and the width it
  // returns: the widths asked for if they fit exactly; more if they leave room; if
  // they do not fit, percentages scaled down and then narrowed pixel by pixel.
  ghost predicate Sized(cs: seq<Column>, block: real, isAuto: bool, now: seq<Column>, r: real) {
    var wanted := Sum(Widths(AllWanted(cs, block)));
    && r == Sum(Widths(now))
    && if wanted == block then now == AllWanted(cs, block)
       else if wanted < block then Grown(cs, block, isAuto, now, r)
       else
         var scaled := AllScaled(AllWanted(cs, block), block);
         var sum := Sum(Widths(scaled));
         if sum <= block then now == scaled
         else
           var d := Narrowings(sum - block, Total(Caps(scaled)));
           now == Shrunk(scaled, d) && r == sum - d as real
  }

  // Before the rest is given out: the auto columns at their maximum if that fits.
  ghost predicate WidestFits(cs: seq<Column>, block: real) {
    Sum(Widths(Widest(cs, block))) <= block
  }

  ghost function Base(cs: seq<Column>, block: real): (r: seq<Column>)
    ensures |r| == |cs|
  {
    if WidestFits(cs, block) then Widest(cs, block) else AllWanted(cs, block)
  }

  // Nothing more is given out: the table is full, or it need not be.
  ghost predicate Enough(cs: seq<Column>, block: real, isAuto: bool) {
    cs == [] || (WidestFits(cs, block) && (isAuto || Sum(Widths(Base(cs, block))) == block))
  }

  // With room to spare: every column gets what it asked for or more.  A table with a
  // width of its own fills its block; one without fills it or has every auto column
  // at its maximum.  What is left is shared out over all columns.
  ghost predicate Grown(cs: seq<Column>, block: real, isAuto: bool, now: seq<Column>, r: real) {
    && |now| == |cs|
    && (forall i | 0 <= i < |cs| ::
          && now[i] == Wanted(cs[i], block).(width := now[i].width)
          && now[i].width >= Wanted(cs[i], block).width)
    && (cs == [] || r == block || (isAuto && r < block && now == Widest(cs, block)))
    && (if Enough(cs, block, isAuto) then now == Base(cs, block) else GivenOut(Base(cs, block), block, now))
  }

  ghost predicate GivenOut(base: seq<Column>, block: real, now: seq<Column>)
    requires base != []
  {
    Shared(base, Group(base, 0, |base| - 1), block - Sum(Widths(base)), 0, |base| - 1, now)
  }

  // A column that takes part when a rest is shared out: the auto ones if there are any,
  // else those with a percentage, else all.
  predicate TakesPart(cs: seq<Column>, i: nat)
    requires i < |cs|
  {
    if exists k | 0 <= k < |cs| :: cs[k].cssWidth.Auto? then cs[i].cssWidth.Auto?
    else (exists k | 0 <= k < |cs| :: cs[k].cssWidth.Percent?) ==> cs[i].cssWidth.Percent?
  }

  lemma GroupTakesPart(cs: seq<Column>, base: seq<Column>)
    requires cs != [] && |base| == |cs| && forall i | 0 <= i < |cs| :: base[i] == cs[i].(width := base[i].width)
    ensures var n := |base| - 1;
            forall i | 0 <= i < |cs| :: InStep(base, Group(base, 0, n), 0, n, i) <==> TakesPart(cs, i)
  {
    var n := |base| - 1;
    assert forall i | 0 <= i < |cs| :: base[i].cssWidth == cs[i].cssWidth;
    assert AnyChosen(base, 0, 0, n) <==> exists k | 0 <= k < |cs| :: cs[k].cssWidth.Auto?;
    assert AnyChosen(base, 1, 0, n) <==> exists k | 0 <= k < |cs| :: cs[k].cssWidth.Percent?;
  }

  lemma SharesAreAsSpares(cs: seq<Column>, step: nat, width: real, n: nat, i: nat, j: nat)
    requires n < |cs| && AllSane(cs) && i < |cs| && j < |cs| && InStep(cs, step, 0, n, i) && InStep(cs, step, 0, n, j)
    ensures Share(cs, step, width, 0, n, i) * (cs[j].maxWidth - cs[j].minWidth) ==
            Share(cs, step, width, 0, n, j) * (cs[i].maxWidth - cs[i].minWidth)
  {
    hide Sum, Share;
    ShareIs(cs, step, width, 0, n, i);
    ShareIs(cs, step, width, 0, n, j);
    var spares := Spares(cs, step, 0, n);
    var x, y := cs[i].maxWidth - cs[i].minWidth, cs[j].maxWidth - cs[j].minWidth;
    if Sum(spares) != 0.0 {
      Rescale(width, x, Sum(spares));
      Rescale(width, y, Sum(spares));
      Exchanged(Rate(width, Sum(spares)), x, y);
    } else {
      var none := seq(|cs|, k => 0.0);
      SumZero(none);
      SumLess(none, spares);
      assert spares[i] == none[i] && spares[j] == none[j];
    }
  }

  // Every column's gain is its part of the rest, of one step.
  ghost predicate Gained(base: seq<Column>, step: nat, rest: real, now: seq<Column>) {
    && base != [] && |now| == |base|
    && forall i | 0 <= i < |now| :: now[i].width == base[i].width + Share(base, step, rest, 0, |base| - 1, i)
  }

  lemma BaseIs(cs: seq<Column>, block: real)
    ensures forall i | 0 <= i < |cs| :: Base(cs, block)[i] == cs[i].(width := Base(cs, block)[i].width)
  {
  }

  lemma RestIsGained(cs: seq<Column>, block: real, isAuto: bool, now: seq<Column>, r: real)
    requires Sum(Widths(AllWanted(cs, block))) < block && Sized(cs, block, isAuto, now, r)
    requires !Enough(cs, block, isAuto)
    ensures var base := Base(cs, block);
            var step, rest := Group(base, 0, |base| - 1), block - Sum(Widths(base));
            Gained(base, step, rest, now) && Sum(Widths(now)) == block
  {
    hide Sum, Share, Base;
    var base := Base(cs, block);
    assert GivenOut(base, block, now);
    assert Chosen(base[|base| - 1], 2);
    SharedSum(base, Group(base, 0, |base| - 1), block - Sum(Widths(base)), 0, |base| - 1, now);
  }

  lemma NoPartNoGain(base: seq<Column>, step: nat, rest: real, now: seq<Column>, i: nat)
    requires Gained(base, step, rest, now) && i < |base| && !InStep(base, step, 0, |base| - 1, i)
    ensures now[i].width == base[i].width
  {
    ShareIs(base, step, rest, 0, |base| - 1, i);
  }

  // Two gains are as two amounts.
  predicate InProportion(gain: real, gain': real, x: real, y: real) {
    gain * y == gain' * x
  }

  lemma GainsAsSpares(base: seq<Column>, step: nat, rest: real, now: seq<Column>, i: nat, j: nat, x: real, y: real)
    requires Gained(base, step, rest, now) && AllSane(base) && i < |base| && j < |base|
    requires InStep(base, step, 0, |base| - 1, i) && InStep(base, step, 0, |base| - 1, j)
    requires x == base[i].maxWidth - base[i].minWidth && y == base[j].maxWidth - base[j].minWidth
    ensures InProportion(now[i].width - base[i].width, now[j].width - base[j].width, x, y)
  {
    hide Share;
    SharesAreAsSpares(base, step, rest, |base| - 1, i, j);
  }

  lemma GainsAtEnd(base: seq<Column>, step: nat, rest: real, now: seq<Column>, i: nat, j: nat)
    requires Gained(base, step, rest, now) && i < j < |base|
    requires forall k | 0 <= k < |base| && InStep(base, step, 0, |base| - 1, k) :: base[k].maxWidth == base[k].minWidth
    requires InStep(base, step, 0, |base| - 1, i) && InStep(base, step, 0, |base| - 1, j)
    ensures now[i].width == base[i].width
  {
    hide Sum;
    SumZero(Spares(base, step, 0, |base| - 1));
    ShareIs(base, step, rest, 0, |base| - 1, i);
  }

  // What each column gains: nothing if it takes no part; otherwise the gains are as how
  // far the columns can grow ...
  lemma RestIsShared(cs: seq<Column>, block: real, isAuto: bool, now: seq<Column>, r: real, i: nat, j: nat)
    requires AllSane(cs) && Sum(Widths(AllWanted(cs, block))) < block && Sized(cs, block, isAuto, now, r)
    requires !Enough(cs, block, isAuto) && i < |cs| && j < |cs|
    ensures |now| == |cs| && Sum(Widths(now)) == block
    ensures var gain, gain' := now[i].width - Base(cs, block)[i].width, now[j].width - Base(cs, block)[j].width;
            if !TakesPart(cs, i) then gain == 0.0
            else TakesPart(cs, j) ==>
              InProportion(gain, gain', cs[i].maxWidth - cs[i].minWidth, cs[j].maxWidth - cs[j].minWidth)
  {
    var base := Base(cs, block);
    var step, rest := Group(base, 0, |base| - 1), block - Sum(Widths(base));
    RestIsGained(cs, block, isAuto, now, r);
    BaseIs(cs, block);
    GroupTakesPart(cs, base);
    hide Sum, Base, Gained, InStep, TakesPart, Group, Sized, AllWanted, Enough, InProportion;
    if !TakesPart(cs, i) {
      NoPartNoGain(base, step, rest, now, i);
    } else if TakesPart(cs, j) {
      var x, y := cs[i].maxWidth - cs[i].minWidth, cs[j].maxWidth - cs[j].minWidth;
      GainsAsSpares(base, step, rest, now, i, j, x, y);
    }
  }

  // ... and all goes to the last of them if none can.
  lemma LastTakesAll(cs: seq<Column>, block: real, isAuto: bool, now: seq<Column>, r: real, i: nat, j: nat)
    requires Sum(Widths(AllWanted(cs, block))) < block && Sized(cs, block, isAuto, now, r) && NoneGrows(cs)
    requires !Enough(cs, block, isAuto) && i < j < |cs| && TakesPart(cs, i) && TakesPart(cs, j)
    ensures |now| == |cs| && now[i].width == Base(cs, block)[i].width
  {
    var base := Base(cs, block);
    RestIsGained(cs, block, isAuto, now, r);
    BaseIs(cs, block);
    GroupTakesPart(cs, base);
    hide Sum, Base, Gained, InStep, TakesPart, Group, Sized, AllWanted, Enough;
    GainsAtEnd(base, Group(base, 0, |base| - 1), block - Sum(Widths(base)), now, i, j);
  }

  // No column that takes part can grow.
  predicate NoneGrows(cs: seq<Column>) {
    forall i | 0 <= i < |cs| && TakesPart(cs, i) :: cs[i].maxWidth == cs[i].minWidth
  }

  lemma GivenBySpread(base: seq<Column>, block: real)
    requires base != [] && AllSane(base) && AtLeast(base) && Sum(Widths(base)) <= block
    ensures var s := SpreadFrom(base, 0, block - Sum(Widths(base)), 0, |base| - 1);
            !s.byZero && GivenOut(base, block, s.columns) && Sum(Widths(s.columns)) == block
  {
    hide Sum, SpreadFrom;
    SpreadWidens(base, block - Sum(Widths(base)), 0, |base| - 1);
  }

  // What sizing has to show.
  lemma GrownEnough(cs: seq<Column>, block: real, isAuto: bool, now: seq<Column>, r: real)
    requires AllSane(cs) && Sum(Widths(AllWanted(cs, block))) < block
    requires Enough(cs, block, isAuto) && now == Base(cs, block) && r == Sum(Widths(now))
    ensures Grown(cs, block, isAuto, now, r)
  {
    hide Sum;
  }

  lemma GrownMore(cs: seq<Column>, block: real, isAuto: bool, now: seq<Column>, r: real)
    requires AllSane(cs) && Sum(Widths(Base(cs, block))) <= block && !Enough(cs, block, isAuto)
    requires GivenOut(Base(cs, block), block, now) && r == Sum(Widths(now)) == block
    ensures Grown(cs, block, isAuto, now, r)
  {
    hide Sum, Share;
    var base := Base(cs, block);
    forall i | 0 <= i < |cs|
      ensures now[i] == Wanted(cs[i], block).(width := now[i].width) && now[i].width >= Wanted(cs[i], block).width
    {
      ShareSign(base, Group(base, 0, |base| - 1), block - Sum(Widths(base)), 0, |base| - 1, i);
    }
  }

  // The columns after scaling, and by how much the table is then too wide.
  function ScaledColumns(cs: seq<Column>, block: real): (r: seq<Column>)
    ensures |r| == |cs|
  {
    AllScaled(AllWanted(cs, block), block)
  }

  function Excess(cs: seq<Column>, block: real): real {
    if Sum(Widths(AllWanted(cs, block))) > block then Sum(Widths(ScaledColumns(cs, block))) - block else 0.0
  }

  // A column ends below its minimum exactly when the table was narrowed, the column's
  // way down to its minimum is no whole number of pixels, and the last of its turns is
  // among the narrowings; and then by less than a pixel.
  lemma SizedMinimum(cs: seq<Column>, block: real, isAuto: bool, now: seq<Column>, r: real, i: nat)
    requires Sized(cs, block, isAuto, now, r) && i < |cs|
    ensures |now| == |cs| && now[i].width > cs[i].minWidth - 1.0
    ensures now[i].width < cs[i].minWidth <==>
            var scaled, excess := ScaledColumns(cs, block), Excess(cs, block);
            && excess > 0.0
            && Cap(scaled[i]) > 0 && !Whole(scaled[i].width - scaled[i].minWidth)
            && Turn(Caps(scaled), i, Cap(scaled[i])) <= Narrowings(excess, Total(Caps(scaled)))
  {
    hide Sum, Total, Turn, Whole, Ceiling;
    if Sum(Widths(AllWanted(cs, block))) > block {
      var scaled := ScaledColumns(cs, block);
      assert scaled[i].width >= cs[i].minWidth && scaled[i].minWidth == cs[i].minWidth;
      if Excess(cs, block) > 0.0 {
        BelowMinimum(scaled, Narrowings(Excess(cs, block), Total(Caps(scaled))), i);
      }
    }
  }

  // Percentage columns that are not held share in proportion to their percentages.
  lemma ScaledProportional(cs: seq<Column>, block: real, i: nat, j: nat)
    requires Sum(Percents(cs)) != 0.0 && i < |cs| && j < |cs|
    requires cs[i].cssWidth.Percent? && cs[j].cssWidth.Percent? && !Held(cs, block, i) && !Held(cs, block, j)
    ensures var now := AllScaled(cs, block);
            InProportion(now[i].width, now[j].width, cs[i].cssWidth.value, cs[j].cssWidth.value)
  {
    hide Sum;
    var room, percent := block - Sum(FixedWidths(cs)), Sum(Percents(cs));
    ScaledIsRate(cs[i], room, percent);
    ScaledIsRate(cs[j], room, percent);
    Exchanged(Rate(room, percent), cs[i].cssWidth.value, cs[j].cssWidth.value);
  }

  // Scaling alone never leaves the table narrower than its block.
  lemma ScaledIsEnough(cs: seq<Column>, block: real)
    requires PercentsAdd(cs) && Sum(Widths(cs)) > block
    ensures Sum(Widths(AllScaled(cs, block))) >= block
  {
    if Sum(Percents(cs)) != 0.0 {
      ScaledFills(cs, block);
    } else {
      assert AllScaled(cs, block) == cs;
    }
  }

  // A table that does not fit ends narrower than its block exactly when the excess is
  // no whole number of pixels and the columns can give more than it; it ends wider
  // exactly when they cannot give all of it.
  lemma SizedTable(cs: seq<Column>, block: real, isAuto: bool, now: seq<Column>, r: real)
    requires Sized(cs, block, isAuto, now, r) && PercentsAdd(cs) && Sum(Widths(AllWanted(cs, block))) > block
    ensures var excess, cap := Excess(cs, block), Total(Caps(ScaledColumns(cs, block)));
            && (r < block <==> !Whole(excess) && cap as real > excess)
            && (r > block <==> cap as real < excess)
  {
    hide Sum, Total;
    PercentsStay(cs, block);
    ScaledIsEnough(AllWanted(cs, block), block);
    if Excess(cs, block) == 0.0 {
      assert r == block;
    }
  }

  // Two columns of half the table each, 2.25 and 1 wide at least, in a block of 2.5:
  // the excess is exactly one pixel, the table fits in the end, and the second column
  // is a quarter of a pixel wide.
  lemma TooNarrow(now: seq<Column>, isAuto: bool, r: real)
    requires Sized([Column(2.25, 5.0, 0.0, Percent(50.0)), Column(1.0, 5.0, 0.0, Percent(50.0))], 2.5, isAuto, now, r)
    ensures r == 2.5 && |now| == 2 && now[1].width == 0.25 < now[1].minWidth == 1.0
  {
    hide Sum, Total, Turn;
    var cs := [Column(2.25, 5.0, 0.0, Percent(50.0)), Column(1.0, 5.0, 0.0, Percent(50.0))];
    var wanted := [cs[0].(width := 2.25), cs[1].(width := 1.25)];
    assert AllWanted(cs, 2.5) == wanted;
    TwoSum(Widths(wanted), 2.25, 1.25);
    HalfEach(wanted);
    assert Caps(wanted) == [0, 1] by { assert (-0.25).Floor == -1; }
    OneTurn(Caps(wanted));
    assert Narrowings(1.0, 1) == 1 by { assert (1.0).Floor == 1; }
    assert Times(Caps(wanted), 1, 1, 1) == 1;
  }

  // A column of 0% beside an auto column, 10 wide at least each, in a block of 15.
  lemma NothingPercent()
    ensures var cs := [Column(10.0, 20.0, 0.0, Percent(0.0)), Column(10.0, 20.0, 0.0, Auto)];
            Sum(Widths(AllWanted(cs, 15.0))) == 20.0 && !PercentsAdd(cs)
  {
    hide Sum;
    var cs := [Column(10.0, 20.0, 0.0, Percent(0.0)), Column(10.0, 20.0, 0.0, Auto)];
    TwoSum(Widths(AllWanted(cs, 15.0)), 10.0, 10.0);
    TwoSum(Percents(cs), 0.0, 0.0);
    assert cs[0].cssWidth.Percent?;
  }

  lemma HalfEach(wanted: seq<Column>)
    requires wanted == [Column(2.25, 5.0, 2.25, Percent(50.0)), Column(1.0, 5.0, 1.25, Percent(50.0))]
    ensures AllScaled(wanted, 2.5) == wanted
  {
    hide Sum;
    TwoSum(Percents(wanted), 50.0, 50.0);
    TwoSum(FixedWidths(wanted), 0.0, 0.0);
    assert ScaledWidth(wanted[0], 2.5, 100.0) == 1.25;
    assert ScaledWidth(wanted[1], 2.5, 100.0) == 1.25;
  }

  lemma OneTurn(caps: seq<nat>)
    requires caps == [0, 1]
    ensures Total(caps) == 1 && Turn(caps, 1, 1) == 1
  {
    var first := caps[..1];
    assert first == [0] && first[..0] == [];
    assert Total(first[..0]) == 0 && GivenSum(first[..0], 0, 2) == 0;
    assert Total(first) == 0 && GivenSum(first, 0, 2) == 0;
  }

  lemma TwoSum(xs: seq<real>, a: real, b: real)
    requires xs == [a, b]
    ensures Sum(xs) == a + b
  {
    var first := xs[..1];
    assert first == [a] && first[..0] == [];
    assert Sum(first[..0]) == 0.0;
    assert Sum(first) == a;
  }
}
