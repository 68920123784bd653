// The grid: it sizes its columns and rows in place.
module TableGrid {
  import opened TableModel
  import opened TableSpread
  import opened TableShrink
  import opened TableWidths
  import opened TableHeights

  class Grid {
    var columns: seq<Column>
    var rows: seq<Row>

    predicate InBounds(start: int, end: int)
      reads `columns
    {
      0 <= start < |columns| && 0 <= end < |columns|
    }

    // ------------------------------------------------------------------ spanning cells

    method SpanTotal(start: nat, end: nat) returns (colsWidth: real)
      requires start <= end < |columns|
      ensures colsWidth == Sum(Spanned(columns, start, end))
    {
      colsWidth := 0.0;
      ghost var spanned := Spanned(columns, start, end);
      SumZero(spanned[..start]);
      for col := start to end + 1
        invariant colsWidth == Sum(spanned[..col])
      {
        SumPrefix(spanned, col);
        colsWidth := colsWidth + columns[col].maxWidth;
      }
      SumTail(spanned, end + 1);
    }

    // Widens the columns a cell spans by `width` in all.
    method DistributeSpan(width: real, start: int, end: int, acc: Accessor)
      requires InBounds(start, end) ==> start <= end
      modifies `columns
      ensures !old(InBounds(start, end)) ==> columns == old(columns)
      ensures old(InBounds(start, end)) ==>
                && SpannedUpTo(old(columns), width, start, end, acc, end + 1, columns)
                && Sum(Gets(columns, acc)) == Sum(Gets(old(columns), acc)) + width
    {
      if !InBounds(start, end) {
        return;
      }
      hide Sum, SpanShare, Spanned, Portion, Each;
      ghost var cs := columns;
      var colsWidth := SpanTotal(start, end);
      var col := start;
      SpanBegins(cs, width, start, end, acc);
      while col <= end
        invariant start <= col <= end + 1 && SpannedUpTo(cs, width, start, end, acc, col, columns)
      {
        var add := Each(width, end - start + 1);
        if colsWidth != 0.0 {
          add := Portion(width, columns[col].maxWidth, colsWidth);
        }
        SpanShareIs(cs, width, start, end, col);
        columns := columns[col := Put(columns[col], acc, Get(columns[col], acc) + add)];
        col := col + 1;
      }
      SpanSum(cs, width, start, end, acc, columns);
    }

    // ------------------------------------------------------------------ the whole table

    // How far the columns a step chooses can grow, and the first and last of them.
    method StepTotal(step: nat, start: nat, end: nat)
      returns (colsWidth: real, some: bool, first: nat, last: nat)
      requires start <= end < |columns|
      ensures colsWidth == Spare(columns, step, start, end) && (some <==> AnyChosen(columns, step, start, end))
      ensures some ==> first == First(columns, step, start, end) && last == Last(columns, step, start, end)
    {
      hide Sum, Spares, First, Last;
      colsWidth, some, first, last := 0.0, false, start, start;
      ghost var cs := columns;
      ghost var spares := Spares(cs, step, start, end);
      forall i | 0 <= i < |cs|
        ensures spares[i] == if InStep(cs, step, start, end, i) then cs[i].maxWidth - cs[i].minWidth else 0.0
      {
        SparesIs(cs, step, start, end, i);
      }
      SumZero(spares[..start]);
      for col := start to end + 1
        invariant colsWidth == Sum(spares[..col])
        invariant some <==> exists k | start <= k < col :: Chosen(cs[k], step)
        invariant some ==>
                    && start <= first <= last < col && Chosen(cs[first], step) && Chosen(cs[last], step)
                    && forall k | start <= k < first || last < k < col :: !Chosen(cs[k], step)
      {
        SumPrefix(spares, col);
        if Chosen(columns[col], step) {
          colsWidth := colsWidth + (columns[col].maxWidth - columns[col].minWidth);
          if !some { first := col; }
          some, last := true, col;
        }
      }
      SumTail(spares, end + 1);
    }

    // The columns of a step move by their parts.
    method MoveColumns(step: nat, width: real, start: nat, end: nat, colsWidth: real)
      returns (added: real, byZero: bool)
      requires start <= end < |columns| && colsWidth == Spare(columns, step, start, end) != 0.0
      modifies `columns
      ensures byZero <==> AnyNoSign(old(columns), step, width, start, end)
      ensures byZero ||
              (columns == AllMoved(old(columns), step, width, start, end) &&
               added == Sum(Tallies(old(columns), step, width, start, end)))
    {
      hide Sum, Spare, Share, AllMoved, Tallies, Portion;
      added, byZero := 0.0, false;
      ghost var cs := columns;
      ghost var moved, tallies := AllMoved(cs, step, width, start, end), Tallies(cs, step, width, start, end);
      forall i | 0 <= i < |cs| && !InStep(cs, step, start, end, i) ensures moved[i] == cs[i] && tallies[i] == 0.0 {
        MovedIs(cs, step, width, start, end, i);
      }
      SumZero(tallies[..start]);
      var col := start;
      while col <= end
        invariant start <= col <= end + 1 && |columns| == |cs|
        invariant forall i | 0 <= i < |cs| :: columns[i] == if start <= i < col then moved[i] else cs[i]
        invariant added == Sum(tallies[..col])
        invariant forall k | start <= k < col && Chosen(cs[k], step) ::
                    !NoSign(cs[k], Share(cs, step, width, start, end, k))
      {
        SumPrefix(tallies, col);
        MovedIs(cs, step, width, start, end, col);
        ShareIs(cs, step, width, start, end, col);
        var c := columns[col];
        if Chosen(c, step) {
          var add := Portion(width, c.maxWidth - c.minWidth, colsWidth);
          if c.width + add >= c.minWidth {
            columns := columns[col := c.(width := c.width + add)];
            added := added + add;
          } else {
            if add == 0.0 {
              return added, true;
            }
            WithSign(c.width - c.minWidth, add);
            added := added + (c.width - c.minWidth) * (add / Abs(add));
            columns := columns[col := c.(width := c.minWidth)];
          }
        }
        col := col + 1;
      }
      SumTail(tallies, end + 1);
    }

    // One step: its columns share the width by how far they can grow.
    method DistributeStep(step: nat, width: real, start: nat, end: nat) returns (added: real, byZero: bool)
      requires start <= end < |columns| && step <= 2
      modifies `columns
      ensures byZero <==> AnyNoSign(old(columns), step, width, start, end)
      ensures byZero || (columns, added) == Stepped(old(columns), step, width, start, end)
    {
      hide Sum, Spare, Share, AllMoved, Tallies, First, Last;
      var colsWidth, some, first, last := StepTotal(step, start, end);
      assert Chosen(columns[end], 2);
      if !some && step != 2 {
        return 0.0, false;
      }
      byZero := false;
      if colsWidth != 0.0 {
        added, byZero := MoveColumns(step, width, start, end, colsWidth);
        if !byZero && added < width && step > 0 {
          columns := columns[first := columns[first].(width := columns[first].width + (width - added))];
          added := width;
        }
      } else {
        columns := columns[last := columns[last].(width := columns[last].width + width)];
        added := width;
      }
    }

    // Gives the columns a width, or takes one back: from the auto ones first, then from
    // those with a percentage, then from all.
    method DistributeWidth(width: real, start: int, end: int) returns (byZero: bool)
      requires InBounds(start, end) ==> start <= end
      modifies `columns
      ensures !old(InBounds(start, end)) ==> columns == old(columns) && !byZero
      ensures old(InBounds(start, end)) ==>
                var s := SpreadFrom(old(columns), 0, width, start, end);
                byZero == s.byZero && (byZero || columns == s.columns)
    {
      hide Stepped, AnyNoSign;
      if !InBounds(start, end) {
        return false;
      }
      var rest := width;
      var step := 0;
      ghost var cs, all := columns, SpreadFrom(columns, 0, width, start, end);
      while step < 3
        invariant 0 <= step <= 3 && |columns| == |cs|
        invariant SpreadFrom(columns, step, rest, start, end) == all
        decreases 3 - step
      {
        var added;
        added, byZero := DistributeStep(step, rest, start, end);
        if byZero || added == rest {
          return;
        }
        rest := rest - added;
        step := step + 1;
      }
      byZero := false;
    }

    // One sweep over the percentage columns, each narrowed by a pixel if it is wider
    // than its minimum, until the table is as wide as its block: the sweep after `m`
    // others, up to the column `p`.
    method ShrinkSweep(start: real, block: real, ghost cs: seq<Column>, ghost m: nat)
      returns (curWidth: real, shrunk: bool, ghost p: nat, ghost d: nat)
      requires columns == Swept(cs, m, 0) && start == Sum(Widths(columns)) && start != block
      modifies `columns
      ensures p <= |cs| && columns == Swept(cs, m, p)
      ensures GivenSum(Caps(cs), m, p) == GivenSum(Caps(cs), m, 0) + d
      ensures curWidth == start - d as real == Sum(Widths(columns)) && (shrunk <==> d > 0)
      ensures forall k: nat | 0 < k < d :: !Fits(start, block, k)
      ensures curWidth == block || p == |cs|
      ensures shrunk || forall i | 0 <= i < |cs| :: Cap(cs[i]) <= m
    {
      hide Sum, GivenSum, Cap;
      curWidth, shrunk, p, d := start, false, 0, 0;
      var col := 0;
      while col < |columns|
        invariant 0 <= col <= |columns| == |cs| && columns == Swept(cs, m, col)
        invariant GivenSum(Caps(cs), m, col) == GivenSum(Caps(cs), m, 0) + d
        invariant curWidth == start - d as real == Sum(Widths(columns)) && curWidth != block && (shrunk <==> d > 0)
        invariant forall k: nat | 0 < k <= d :: !Fits(start, block, k)
        invariant !shrunk ==> forall i | 0 <= i < col :: Cap(cs[i]) <= m
      {
        var c := columns[col];
        CanNarrow(cs[col], Given(Cap(cs[col]), m, false));
        GivenOne(Caps(cs), m, col);
        if c.cssWidth.Percent? && c.width > c.minWidth {
          var narrow := c.(width := c.width - 1.0);
          WidthsUpdate(columns, col, narrow);
          columns := columns[col := narrow];
          curWidth, shrunk, d := curWidth - 1.0, true, d + 1;
          if curWidth == block {
            p := col + 1;
            return;
          }
        }
        col := col + 1;
      }
      p := col;
    }

    // Shrinks the percentage columns of a table that is too wide.
    method ShrinkPercents(start: real, block: real) returns (curWidth: real)
      requires start == Sum(Widths(columns)) && start > block
      modifies `columns
      ensures curWidth == Sum(Widths(columns))
      ensures var d := Narrowings(start - block, Total(Caps(old(columns))));
              columns == Shrunk(old(columns), d) && curWidth == start - d as real
    {
      hide Sum, Total, GivenSum, Swept, Shrunk;
      curWidth := start;
      ghost var cs, m, d := columns, 0, 0;
      NoSweep(cs);
      while true
        invariant columns == Swept(cs, m, 0) && d == GivenSum(Caps(cs), m, 0)
        invariant curWidth == start - d as real == Sum(Widths(columns)) && curWidth != block
        invariant forall k: nat | 0 < k <= d :: !Fits(start, block, k)
        decreases Total(Caps(cs)) - d
      {
        ghost var width, p, more := curWidth, 0, 0;
        var shrunk;
        curWidth, shrunk, p, more := ShrinkSweep(curWidth, block, cs, m);
        SweepFits(start, width, block, d, more);
        d := d + more;
        GivenAtMost(Caps(cs), m, p);
        SweptIsShrunk(cs, m, p);
        if curWidth == block || !shrunk {
          if !shrunk { Exhausted(Caps(cs), m); }
          break;
        }
        NextSweep(cs, m);
        m := m + 1;
        assert !Fits(start, block, d);
      }
      WholeExcess(start, block, d, Total(Caps(cs)));
    }

    // The widths asked for, and their sums.
    method AskWidths(block: real) returns (minTable: real, maxTable: real, curWidth: real, minW: real, maxW: real)
      modifies `columns
      ensures columns == AllWanted(old(columns), block)
      ensures minTable == Sum(MinWidths(old(columns))) && maxTable == Sum(MaxWidths(old(columns)))
      ensures curWidth == Sum(Widths(columns)) && maxW - minW == Sum(AutoSpares(old(columns)))
    {
      hide Sum, Wanted;
      ghost var cs := columns;
      minTable, maxTable, curWidth, minW, maxW := 0.0, 0.0, 0.0, 0.0, 0.0;
      NoneAsked(cs, block);
      var col := 0;
      while col < |columns|
        invariant 0 <= col <= |columns| == |cs|
        invariant forall i | 0 <= i < |cs| :: columns[i] == if i < col then Wanted(cs[i], block) else cs[i]
        invariant minTable == Sum(MinWidths(cs)[..col]) && maxTable == Sum(MaxWidths(cs)[..col])
        invariant curWidth == Sum(Widths(AllWanted(cs, block))[..col]) && maxW - minW == Sum(AutoSpares(cs)[..col])
      {
        OneMoreAsked(cs, block, col);
        var c := columns[col];
        minTable, maxTable := minTable + c.minWidth, maxTable + c.maxWidth;
        if !c.cssWidth.Auto? {
          columns := columns[col := c.(width := Max(Resolve(c.cssWidth, block), c.minWidth))];
        } else {
          columns := columns[col := c.(width := c.minWidth)];
          maxW, minW := maxW + c.maxWidth, minW + c.minWidth;
        }
        curWidth := curWidth + columns[col].width;
        col := col + 1;
      }
      AllAsked(cs, block);
    }

    // The auto columns at their maximum.
    method WidenAuto(ghost cs: seq<Column>, ghost block: real) returns (curWidth: real)
      requires columns == AllWanted(cs, block)
      modifies `columns
      ensures columns == Widest(cs, block) && curWidth == Sum(Widths(columns))
    {
      hide Sum;
      curWidth := 0.0;
      assert forall i | 0 <= i < |cs| :: columns[i] == AllWanted(cs, block)[i];
      ghost var widest := Widths(Widest(cs, block));
      SumZero(widest[..0]);
      var col := 0;
      while col < |columns|
        invariant 0 <= col <= |columns| == |cs|
        invariant forall i | 0 <= i < |cs| ::
                    columns[i] == if i < col then Widest(cs, block)[i] else Wanted(cs[i], block)
        invariant curWidth == Sum(widest[..col])
      {
        SumPrefix(widest, col);
        if columns[col].cssWidth.Auto? {
          columns := columns[col := columns[col].(width := columns[col].maxWidth)];
        }
        curWidth := curWidth + columns[col].width;
        col := col + 1;
      }
      assert widest[..|cs|] == widest;
    }

    method TotalWidth() returns (curWidth: real)
      ensures curWidth == Sum(Widths(columns))
    {
      curWidth := 0.0;
      for col := 0 to |columns|
        invariant curWidth == Sum(Widths(columns)[..col])
      {
        SumPrefix(Widths(columns), col);
        curWidth := curWidth + columns[col].width;
      }
      assert Widths(columns)[..|columns|] == Widths(columns);
    }

    // What the columns without a percentage take, and the percentages in all.
    method FixedAndPercent() returns (fixedWidth: real, percent: real)
      ensures fixedWidth == Sum(FixedWidths(columns)) && percent == Sum(Percents(columns))
    {
      hide Sum;
      fixedWidth, percent := 0.0, 0.0;
      SumZero(FixedWidths(columns)[..0]);
      SumZero(Percents(columns)[..0]);
      for col := 0 to |columns|
        invariant fixedWidth == Sum(FixedWidths(columns)[..col]) && percent == Sum(Percents(columns)[..col])
      {
        SumPrefix(FixedWidths(columns), col);
        SumPrefix(Percents(columns), col);
        if columns[col].cssWidth.Percent? {
          percent := percent + columns[col].cssWidth.value;
        } else {
          fixedWidth := fixedWidth + columns[col].width;
        }
      }
      assert FixedWidths(columns)[..|columns|] == FixedWidths(columns) &&
             Percents(columns)[..|columns|] == Percents(columns);
    }

    // Scales the percentages so that they share what the other columns leave; it
    // divides by their sum.
    method ScalePercents(block: real) returns (curWidth: real, byZero: bool)
      modifies `columns
      ensures byZero <==> !PercentsAdd(old(columns))
      ensures columns == AllScaled(old(columns), block) && (byZero || curWidth == Sum(Widths(columns)))
    {
      hide Sum, ScaledWidth;
      ghost var cs := columns;
      var fixedWidth, percent := FixedAndPercent();
      curWidth, byZero := 0.0, false;
      ghost var scaled := Widths(AllScaled(cs, block));
      SumZero(scaled[..0]);
      var col := 0;
      while col < |columns|
        invariant 0 <= col <= |columns| == |cs|
        invariant forall i | 0 <= i < |cs| :: columns[i] == if i < col then AllScaled(cs, block)[i] else cs[i]
        invariant curWidth == Sum(scaled[..col])
        invariant percent == 0.0 ==> forall i | 0 <= i < col :: !cs[i].cssWidth.Percent?
      {
        SumPrefix(scaled, col);
        var c := columns[col];
        if c.cssWidth.Percent? {
          if percent == 0.0 {
            assert forall i | 0 <= i < |cs| :: AllScaled(cs, block)[i] == cs[i];
            return 0.0, true;
          }
          columns := columns[col := c.(width := Max(ScaledWidth(c, block - fixedWidth, percent), c.minWidth))];
        }
        curWidth := curWidth + columns[col].width;
        col := col + 1;
      }
      assert scaled[..|cs|] == scaled;
    }

    // Sizes the columns in a block and returns the width of the table.  The outcome
    // `byZero` is a division by percentages that add up to nothing.
    method CalcTableWidth(block: real, isAuto: bool) returns (r: real, minTable: real, maxTable: real, byZero: bool)
      requires AllSane(columns)
      modifies `columns
      ensures minTable == Sum(MinWidths(old(columns))) && maxTable == Sum(MaxWidths(old(columns)))
      ensures byZero <==> Sum(Widths(AllWanted(old(columns), block))) > block && !PercentsAdd(old(columns))
      ensures byZero || Sized(old(columns), block, isAuto, columns, r)
    {
      hide Sum, Wanted, Total;
      ghost var cs := columns;
      var minW, maxW;
      byZero := false;
      minTable, maxTable, r, minW, maxW := AskWidths(block);
      WidestSum(cs, block);
      if r == block {
        return;
      }
      if r < block {
        r := Grow(cs, block, isAuto, r, maxW - minW);
      } else {
        PercentsStay(cs, block);
        r, byZero := ScalePercents(block);
        if !byZero && r > block {
          r := ShrinkPercents(r, block);
        }
      }
    }

    // The columns of a table that leaves room.
    method Grow(ghost cs: seq<Column>, block: real, isAuto: bool, wanted: real, autoSpare: real) returns (r: real)
      requires columns == AllWanted(cs, block) && AllSane(cs)
      requires wanted == Sum(Widths(columns)) < block && autoSpare == Sum(AutoSpares(cs))
      modifies `columns
      ensures Grown(cs, block, isAuto, columns, r) && r == Sum(Widths(columns))
    {
      hide Sum, Grown, GivenOut, SpreadFrom;
      r := wanted;
      WidestSum(cs, block);
      if r + autoSpare <= block {
        r := WidenAuto(cs, block);
        if r == block || isAuto {
          GrownEnough(cs, block, isAuto, columns, r);
          return;
        }
      }
      ghost var base := columns;
      if |columns| > 0 {
        var extra, last := block - r, |columns| - 1;
        var byZero := DistributeWidth(extra, 0, last);
        GivenBySpread(base, block);
      }
      r := TotalWidth();
      if cs == [] { GrownEnough(cs, block, isAuto, columns, r); } else { GrownMore(cs, block, isAuto, columns, r); }
    }

    // -------------------------------------------------------------------------- rows

    // Rows take their own heights, which become their minima.
    method AskHeights() returns (minTable: real)
      modifies `rows
      ensures rows == AllRaised(old(rows)) && minTable == Sum(Heights(rows))
    {
      hide Sum;
      ghost var rs := rows;
      minTable := 0.0;
      SumZero(Heights(AllRaised(rs))[..0]);
      var i := 0;
      while i < |rows|
        invariant 0 <= i <= |rows| == |rs|
        invariant forall k | 0 <= k < |rs| :: rows[k] == if k < i then Raised(rs[k]) else rs[k]
        invariant minTable == Sum(Heights(AllRaised(rs))[..i])
      {
        SumPrefix(Heights(AllRaised(rs)), i);
        var row := rows[i];
        if row.cssHeight.Fixed? && row.height < row.cssHeight.value {
          row := row.(height := row.cssHeight.value);
        }
        rows := rows[i := row.(minHeight := row.height)];
        minTable := minTable + row.height;
        i := i + 1;
      }
      assert Heights(AllRaised(rs))[..|rs|] == Heights(AllRaised(rs));
    }

    // Rows with a percentage take it of the block, until the extra height is gone;
    // also counts the auto rows on the way.
    method TakePercentages(block: real, extra: real) returns (rest: real, autoCount: nat, ghost b: nat)
      requires AtMinimum(rows) && extra > 0.0
      modifies `rows
      ensures ServedTo(old(rows), block, b, rows) && rest == LeftFor(old(rows), block, extra, b)
      ensures rest > 0.0 ==> b == |rows| && autoCount == AutoRows(old(rows))
      ensures rest <= 0.0 ==> b > 0 && LeftFor(old(rows), block, extra, b - 1) > 0.0
    {
      hide Sum;
      ghost var rs := rows;
      rest, autoCount, b := extra, 0, 0;
      SumZero(Asks(rs, block)[..0]);
      var i := 0;
      while i < |rows|
        invariant 0 <= i <= |rows| && ServedTo(rs, block, i, rows) && rest == LeftFor(rs, block, extra, i) > 0.0
        invariant autoCount == AutoRows(rs[..i])
      {
        var row := rows[i];
        assert rs[..i + 1][..i] == rs[..i];
        LeftNext(rs, block, extra, i);
        b := i + 1;
        if row.cssHeight.Percent? {
          row := row.(height := Max(Resolve(row.cssHeight, block), row.minHeight));
          rows := rows[i := row];
          rest := rest - (row.height - row.minHeight);
          if rest <= 0.0 { return; }
        } else if row.cssHeight.Auto? {
          autoCount := autoCount + 1;
        }
        i := i + 1;
      }
      b := i;
      assert rs[..|rs|] == rs;
    }

    // What is left goes to the auto rows, or to all if there are none.
    method SpreadHeight(extra: real, autoCount: nat)
      requires rows != [] ==> autoCount <= |rows|
      modifies `rows
      ensures |rows| == |old(rows)|
      ensures forall k | 0 <= k < |rows| ::
                rows[k] == if old(rows)[k].cssHeight.Auto? || autoCount == 0
                           then old(rows)[k].(height := old(rows)[k].height +
                                                        Each(extra, if autoCount == 0 then |rows| else autoCount))
                           else old(rows)[k]
    {
      ghost var rs := rows;
      if rows == [] {
        return;
      }
      var all := autoCount == 0;
      var each := Each(extra, if all then |rows| else autoCount);
      var i := 0;
      while i < |rows|
        invariant 0 <= i <= |rows| == |rs|
        invariant forall k | 0 <= k < |rows| ::
                    rows[k] == if k < i && (rs[k].cssHeight.Auto? || all) then rs[k].(height := rs[k].height + each)
                               else rs[k]
      {
        if all || rows[i].cssHeight.Auto? {
          rows := rows[i := rows[i].(height := rows[i].height + each)];
        }
        i := i + 1;
      }
    }

    // What is missing is taken back from the last rows, down to their minima.
    method TakeBack(missing: real)
      requires missing > 0.0
      modifies `rows
      ensures rows == TakenBack(old(rows), missing)
    {
      ghost var rs := rows;
      var extra := missing;
      var i := |rows|;
      assert rs[..|rs|] == rs && rows[i..] == [];
      while i > 0 && extra > 0.0
        invariant 0 <= i <= |rows| == |rs| && rows[..i] == rs[..i]
        invariant TakenBack(rs[..i], extra) + rows[i..] == TakenBack(rs, missing)
      {
        i := i - 1;
        var row := rows[i];
        ghost var before := rs[..i + 1];
        assert rows[..i + 1][i] == before[i] && before[..i] == rs[..i] == rows[..i];
        ghost var behind := rows[i + 1..];
        if row.height > row.minHeight {
          if row.height - extra >= row.minHeight {
            rows := rows[i := row.(height := row.height - extra)];
            extra := 0.0;
          } else {
            extra := extra - (row.height - row.minHeight);
            rows := rows[i := row.(height := row.minHeight)];
          }
        }
        assert rows[i..] == [rows[i]] + behind;
      }
    }

    // Sizes the rows in a block: if their own heights leave room they fill it exactly.
    method CalcRowsHeight(block: real)
      modifies `rows
      ensures var rs := AllRaised(old(rows));
              var needed := Sum(Heights(rs));
              if block <= needed then rows == rs else Served(rs, block, block - needed, rows)
    {
      hide Sum;
      var needed := AskHeights();
      if block > needed {
        ghost var rs := rows;
        var extra, autoCount;
        ghost var b;
        extra, autoCount, b := TakePercentages(block, block - needed);
        ghost var mid := rows;
        if extra > 0.0 {
          AutoRowsAtMost(rs);
          SpreadHeight(extra, autoCount);
          AllServed(rs, block, block - needed, mid, rows);
        } else {
          if extra < 0.0 {
            LeftNext(rs, block, block - needed, b - 1);
            TakenBackHere(rows, b - 1, -extra);
            TakeBack(-extra);
          }
          SomeServed(rs, block, block - needed, b - 1, mid, rows);
        }
      }
    }
  }
}
