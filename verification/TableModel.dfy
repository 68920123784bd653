// Columns and rows of a table, and the sums their sizing must keep.  Sizes are
// exact reals.
module TableModel {

  datatype Length = Auto | Percent(value: real) | Fixed(value: real)

  datatype Column = Column(minWidth: real, maxWidth: real, width: real, cssWidth: Length)

  datatype Row = Row(height: real, minHeight: real, cssHeight: Length)

  // css_length::calc_percent.
  function Resolve(l: Length, whole: real): real {
    match l
    case Auto => 0.0
    case Percent(v) => whole * v / 100.0
    case Fixed(v) => v
  }

  function Max(a: real, b: real): real { if a >= b then a else b }

  // --------------------------------------------------------------------------- sums

  function Sum(xs: seq<real>): real {
    if xs == [] then 0.0 else Sum(xs[..|xs| - 1]) + xs[|xs| - 1]
  }

  lemma {:induction false} SumUpdate(xs: seq<real>, i: nat, x: real)
    requires i < |xs|
    ensures Sum(xs[i := x]) == Sum(xs) - xs[i] + x
  {
    var n := |xs| - 1;
    if i == n {
      assert xs[i := x][..n] == xs[..n];
    } else {
      SumUpdate(xs[..n], i, x);
      assert xs[i := x][..n] == xs[..n][i := x];
    }
  }

  lemma SumPrefix(xs: seq<real>, i: nat)
    requires i < |xs|
    ensures Sum(xs[..i + 1]) == Sum(xs[..i]) + xs[i]
  {
    assert xs[..i + 1][..i] == xs[..i];
  }

  lemma {:induction false} SumAdd(xs: seq<real>, ys: seq<real>, zs: seq<real>)
    requires |xs| == |ys| == |zs| && forall i | 0 <= i < |xs| :: zs[i] == xs[i] + ys[i]
    ensures Sum(zs) == Sum(xs) + Sum(ys)
  {
    if xs != [] {
      var n := |xs| - 1;
      SumAdd(xs[..n], ys[..n], zs[..n]);
    }
  }

  lemma {:induction false} SumScale(xs: seq<real>, k: real, ys: seq<real>)
    requires |xs| == |ys| && forall i | 0 <= i < |xs| :: ys[i] == k * xs[i]
    ensures Sum(ys) == k * Sum(xs)
  {
    if xs != [] {
      var n := |xs| - 1;
      SumScale(xs[..n], k, ys[..n]);
      assert k * (Sum(xs[..n]) + xs[n]) == k * Sum(xs[..n]) + k * xs[n];
    }
  }

  lemma {:induction false} SumLeast(xs: seq<real>, ys: seq<real>)
    requires |xs| == |ys| && forall i | 0 <= i < |xs| :: xs[i] <= ys[i]
    ensures Sum(xs) <= Sum(ys)
  {
    if xs != [] { SumLeast(xs[..|xs| - 1], ys[..|ys| - 1]); }
  }

  // With terms no greater, the sums are equal only if all terms are.
  lemma {:induction false} SumLess(xs: seq<real>, ys: seq<real>)
    requires |xs| == |ys| && forall i | 0 <= i < |xs| :: xs[i] <= ys[i]
    ensures Sum(xs) <= Sum(ys)
    ensures Sum(xs) == Sum(ys) <==> forall i | 0 <= i < |xs| :: xs[i] == ys[i]
  {
    if xs != [] {
      var n := |xs| - 1;
      SumLess(xs[..n], ys[..n]);
      assert (forall i | 0 <= i < |xs| :: xs[i] == ys[i]) <==>
             (forall i | 0 <= i < n :: xs[..n][i] == ys[..n][i]) && xs[n] == ys[n];
    }
  }

  lemma {:induction false} SumNonnegative(xs: seq<real>)
    requires forall k | 0 <= k < |xs| :: xs[k] >= 0.0
    ensures Sum(xs) >= 0.0
  {
    if xs != [] { SumNonnegative(xs[..|xs| - 1]); }
  }

  lemma {:induction false} SumZero(xs: seq<real>)
    requires forall k | 0 <= k < |xs| :: xs[k] == 0.0
    ensures Sum(xs) == 0.0
  {
    if xs != [] { SumZero(xs[..|xs| - 1]); }
  }

  // Zeros at the end add nothing.
  lemma {:induction false} SumTail(xs: seq<real>, n: nat)
    requires n <= |xs| && forall k | n <= k < |xs| :: xs[k] == 0.0
    ensures Sum(xs) == Sum(xs[..n])
  {
    if n == |xs| {
      assert xs[..n] == xs;
    } else {
      SumTail(xs[..|xs| - 1], n);
      assert xs[..|xs| - 1][..n] == xs[..n];
    }
  }

  // How many indices below `n` are in a range.
  function Counted(n: nat, start: nat, end: nat): nat
    requires start <= end
  {
    if n <= start then 0 else if n <= end then n - start else end + 1 - start
  }

  // The same term at every index of a range, zero elsewhere.
  lemma {:induction false} SumRange(xs: seq<real>, start: nat, end: nat, x: real)
    requires start <= end && forall k | 0 <= k < |xs| :: xs[k] == if start <= k <= end then x else 0.0
    ensures Sum(xs) == x * Counted(|xs|, start, end) as real
  {
    if xs != [] {
      var n := |xs| - 1;
      SumRange(xs[..n], start, end, x);
      OneTerm(x, Counted(n, start, end));
    }
  }

  lemma OneTerm(x: real, k: nat)
    ensures x * (k + 1) as real == x * k as real + x
  {
  }

  // ----------------------------------------------------------------- columns by part

  function Widths(cs: seq<Column>): (r: seq<real>)
    ensures |r| == |cs|
  {
    seq(|cs|, i requires 0 <= i < |cs| => cs[i].width)
  }

  function MinWidths(cs: seq<Column>): (r: seq<real>)
    ensures |r| == |cs|
  {
    seq(|cs|, i requires 0 <= i < |cs| => cs[i].minWidth)
  }

  function MaxWidths(cs: seq<Column>): (r: seq<real>)
    ensures |r| == |cs|
  {
    seq(|cs|, i requires 0 <= i < |cs| => cs[i].maxWidth)
  }

  lemma WidthsUpdate(cs: seq<Column>, i: nat, c: Column)
    requires i < |cs|
    ensures Widths(cs[i := c]) == Widths(cs)[i := c.width]
    ensures Sum(Widths(cs[i := c])) == Sum(Widths(cs)) - cs[i].width + c.width
  {
    SumUpdate(Widths(cs), i, c.width);
    assert Widths(cs[i := c]) == Widths(cs)[i := c.width];
  }

  predicate Sane(c: Column) { 0.0 <= c.minWidth <= c.maxWidth }

  predicate AllSane(cs: seq<Column>) {
    forall i | 0 <= i < |cs| :: Sane(cs[i])
  }

  // ------------------------------------------------- distributing over a spanned range

  datatype Accessor = MinWidth | MaxWidth

  function Get(c: Column, acc: Accessor): real {
    if acc.MinWidth? then c.minWidth else c.maxWidth
  }

  function Put(c: Column, acc: Accessor, x: real): Column {
    if acc.MinWidth? then c.(minWidth := x) else c.(maxWidth := x)
  }

  function Gets(cs: seq<Column>, acc: Accessor): (r: seq<real>)
    ensures |r| == |cs|
  {
    seq(|cs|, i requires 0 <= i < |cs| => Get(cs[i], acc))
  }

  function Spanned(cs: seq<Column>, start: nat, end: nat): (r: seq<real>)
    ensures |r| == |cs|
  {
    seq(|cs|, i requires 0 <= i < |cs| => if start <= i <= end then cs[i].maxWidth else 0.0)
  }

  // The part of `width` that `x` is of `total`.
  function Portion(width: real, x: real, total: real): real
    requires total != 0.0
  {
    width * (x / total)
  }

  function Each(width: real, n: int): real
    requires n > 0
  {
    width / n as real
  }

  // A column's part: by its maximum width, or the same for all if those are zero.
  function SpanShare(cs: seq<Column>, width: real, start: nat, end: nat, i: nat): real
    requires i < |cs| && start <= end
  {
    var total := Sum(Spanned(cs, start, end));
    if !(start <= i <= end) then 0.0
    else if total != 0.0 then Portion(width, cs[i].maxWidth, total)
    else Each(width, end - start + 1)
  }

  lemma SpanShareIs(cs: seq<Column>, width: real, start: nat, end: nat, i: nat)
    requires start <= end < |cs| && i < |cs|
    ensures var total := Sum(Spanned(cs, start, end));
            SpanShare(cs, width, start, end, i) ==
              if !(start <= i <= end) then 0.0
              else if total != 0.0 then Portion(width, cs[i].maxWidth, total)
              else Each(width, end - start + 1)
  {
  }

  function SpanShares(cs: seq<Column>, width: real, start: nat, end: nat): (r: seq<real>)
    requires start <= end
    ensures |r| == |cs|
  {
    seq(|cs|, i requires 0 <= i < |cs| => SpanShare(cs, width, start, end, i))
  }

  lemma ByWeight(xs: seq<real>, width: real, ys: seq<real>)
    requires Sum(xs) != 0.0 && |xs| == |ys|
    requires forall i | 0 <= i < |xs| :: ys[i] == Portion(width, xs[i], Sum(xs))
    ensures Sum(ys) == width
  {
    hide Sum;
    var total := Sum(xs);
    forall i | 0 <= i < |xs| ensures ys[i] == Rate(width, total) * xs[i] { Rescale(width, xs[i], total); }
    SumScale(xs, Rate(width, total), ys);
    RateOfTotal(width, total);
  }

  function Rate(width: real, total: real): real
    requires total != 0.0
  {
    width / total
  }

  lemma RateOfTotal(width: real, total: real)
    requires total != 0.0
    ensures Rate(width, total) * total == width
  {
  }

  lemma Rescale(width: real, x: real, total: real)
    requires total != 0.0
    ensures Portion(width, x, total) == Rate(width, total) * x
  {
  }

  lemma Evenly(width: real, n: nat)
    requires n > 0
    ensures Each(width, n) * n as real == width
  {
  }

  // The parts add up to what is to be distributed.
  lemma SpanSharesAddUp(cs: seq<Column>, width: real, start: nat, end: nat)
    requires start <= end < |cs|
    ensures Sum(SpanShares(cs, width, start, end)) == width
  {
    hide Sum;
    var spanned, shares := Spanned(cs, start, end), SpanShares(cs, width, start, end);
    if Sum(spanned) != 0.0 {
      ByWeight(spanned, width, shares);
    } else {
      SumRange(shares, start, end, Each(width, end - start + 1));
      Evenly(width, end - start + 1);
    }
  }

  // Two columns' parts are as their maximum widths, and equal if none has one.
  lemma SpanIsProportional(cs: seq<Column>, width: real, start: nat, end: nat, i: nat, j: nat)
    requires start <= end < |cs| && start <= i <= end && start <= j <= end
    requires forall k | 0 <= k < |cs| :: cs[k].maxWidth >= 0.0
    ensures (exists k | start <= k <= end :: cs[k].maxWidth > 0.0) ==>
              SpanShare(cs, width, start, end, i) * cs[j].maxWidth ==
              SpanShare(cs, width, start, end, j) * cs[i].maxWidth
    ensures (forall k | start <= k <= end :: cs[k].maxWidth == 0.0) ==>
              SpanShare(cs, width, start, end, i) == SpanShare(cs, width, start, end, j)
  {
    hide Sum;
    var spanned := Spanned(cs, start, end);
    var none := seq(|cs|, k => 0.0);
    SumZero(none);
    SumLess(none, spanned);
    if k :| start <= k <= end && cs[k].maxWidth > 0.0 {
      assert none[k] != spanned[k];
      Rescale(width, cs[i].maxWidth, Sum(spanned));
      Rescale(width, cs[j].maxWidth, Sum(spanned));
      Exchanged(Rate(width, Sum(spanned)), cs[i].maxWidth, cs[j].maxWidth);
    }
  }

  lemma Exchanged(k: real, x: real, y: real)
    ensures (k * x) * y == (k * y) * x
  {
  }

  // The spanned columns before `n` have had their part, and nothing else changed.
  ghost predicate SpannedUpTo(cs: seq<Column>, width: real, start: nat, end: nat, acc: Accessor, n: nat,
                              now: seq<Column>)
    requires start <= end
  {
    && |now| == |cs|
    && forall i | 0 <= i < |cs| ::
         now[i] == if start <= i < n then Put(cs[i], acc, Get(cs[i], acc) + SpanShare(cs, width, start, end, i))
                   else cs[i]
  }

  lemma SpanBegins(cs: seq<Column>, width: real, start: nat, end: nat, acc: Accessor)
    requires start <= end
    ensures SpannedUpTo(cs, width, start, end, acc, start, cs)
  {
  }

  lemma SpanSum(cs: seq<Column>, width: real, start: nat, end: nat, acc: Accessor, now: seq<Column>)
    requires start <= end < |cs| && SpannedUpTo(cs, width, start, end, acc, end + 1, now)
    ensures Sum(Gets(now, acc)) == Sum(Gets(cs, acc)) + width
  {
    hide Sum, SpanShare;
    forall i | 0 <= i < |cs| ensures Gets(now, acc)[i] == Gets(cs, acc)[i] + SpanShares(cs, width, start, end)[i] {
      SpanShareIs(cs, width, start, end, i);
    }
    SumAdd(Gets(cs, acc), SpanShares(cs, width, start, end), Gets(now, acc));
    SpanSharesAddUp(cs, width, start, end);
  }
}
