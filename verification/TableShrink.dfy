// Narrowing percentage columns: sweep after sweep over the columns, each made
// narrower by a pixel if it is wider than its minimum, until the table is as wide
// as its block or nothing can be made narrower.
module TableShrink {
  import opened TableModel

  function Ceiling(x: real): int { -((-x).Floor) }

  function Min(a: nat, b: nat): nat { if a <= b then a else b }

  // How often a column can be made narrower.
  function Cap(c: Column): (n: nat) {
    if c.cssWidth.Percent? && c.width > c.minWidth then Ceiling(c.width - c.minWidth) else 0
  }

  function Caps(cs: seq<Column>): (r: seq<nat>)
    ensures |r| == |cs|
  {
    seq(|cs|, i requires 0 <= i < |cs| => Cap(cs[i]))
  }

  function Total(caps: seq<nat>): nat {
    if caps == [] then 0 else Total(caps[..|caps| - 1]) + caps[|caps| - 1]
  }

  function Less(c: Column, k: nat): Column { c.(width := c.width - k as real) }

  lemma CanNarrow(c: Column, k: nat)
    requires k <= Cap(c)
    ensures Less(c, k).cssWidth.Percent? && Less(c, k).width > c.minWidth <==> k < Cap(c)
  {
  }

  // How often a column was made narrower in `m` sweeps, or one more.
  function Given(cap: nat, m: nat, oneMore: bool): nat { Min(cap, if oneMore then m + 1 else m) }

  // ... and all of them, when the next sweep is over the first `p`.
  function GivenSum(caps: seq<nat>, m: nat, p: nat): nat {
    if caps == [] then 0
    else
      var n := |caps| - 1;
      GivenSum(caps[..n], m, p) + Given(caps[n], m, n < p)
  }

  // Which narrowing of all is the t-th of column `i`: up to it, the columns to the
  // left and itself had `t` turns, those to the right one less.
  function Turn(caps: seq<nat>, i: nat, t: nat): nat
    requires i < |caps| && t > 0
  {
    GivenSum(caps, t - 1, i + 1)
  }

  // How many of the first `n` turns of column `i` are among the first `d` of all.
  function Times(caps: seq<nat>, i: nat, d: nat, n: nat): (k: nat)
    requires i < |caps|
    ensures k <= n
  {
    if n == 0 then 0 else if Turn(caps, i, n) <= d then n else Times(caps, i, d, n - 1)
  }

  // The columns after `d` narrowings.
  function Shrunk(cs: seq<Column>, d: nat): (r: seq<Column>)
    ensures |r| == |cs|
  {
    seq(|cs|, i requires 0 <= i < |cs| => Less(cs[i], Times(Caps(cs), i, d, Cap(cs[i]))))
  }

  // The columns after `m` sweeps and one more over the first `p`.
  function Swept(cs: seq<Column>, m: nat, p: nat): (r: seq<Column>)
    ensures |r| == |cs|
  {
    seq(|cs|, i requires 0 <= i < |cs| => Less(cs[i], Given(Cap(cs[i]), m, i < p)))
  }

  lemma {:induction false} GivenNothing(caps: seq<nat>)
    ensures GivenSum(caps, 0, 0) == 0
  {
    if caps != [] { GivenNothing(caps[..|caps| - 1]); }
  }

  lemma {:induction false} GivenMore(caps: seq<nat>, m: nat, p: nat, m': nat, p': nat)
    requires m < m' || (m == m' && p <= p')
    ensures GivenSum(caps, m, p) <= GivenSum(caps, m', p')
  {
    if caps != [] { GivenMore(caps[..|caps| - 1], m, p, m', p'); }
  }

  lemma {:induction false} GivenOne(caps: seq<nat>, m: nat, i: nat)
    requires i < |caps|
    ensures GivenSum(caps, m, i + 1) == GivenSum(caps, m, i) + (if caps[i] > m then 1 else 0)
  {
    var n := |caps| - 1;
    if i == n {
      GivenSame(caps[..n], m, n, n + 1);
    } else {
      GivenOne(caps[..n], m, i);
    }
  }

  lemma {:induction false} GivenSame(caps: seq<nat>, m: nat, p: nat, p': nat)
    requires |caps| <= p && |caps| <= p'
    ensures GivenSum(caps, m, p) == GivenSum(caps, m, p')
  {
    if caps != [] { GivenSame(caps[..|caps| - 1], m, p, p'); }
  }

  // A sweep over all columns is one sweep more.
  lemma {:induction false} GivenAll(caps: seq<nat>, m: nat, p: nat)
    requires |caps| <= p
    ensures GivenSum(caps, m, p) == GivenSum(caps, m + 1, 0)
  {
    if caps != [] { GivenAll(caps[..|caps| - 1], m, p); }
  }

  lemma {:induction false} GivenAtMost(caps: seq<nat>, m: nat, p: nat)
    ensures GivenSum(caps, m, p) <= Total(caps)
  {
    if caps != [] { GivenAtMost(caps[..|caps| - 1], m, p); }
  }

  // A sweep that changed nothing came after the last narrowing.
  lemma {:induction false} Exhausted(caps: seq<nat>, m: nat)
    requires forall i | 0 <= i < |caps| :: caps[i] <= m
    ensures GivenSum(caps, m, 0) == Total(caps)
  {
    if caps != [] { Exhausted(caps[..|caps| - 1], m); }
  }

  // The t-th turn of column `i` has come exactly when it was passed `t` times.
  lemma TurnCame(caps: seq<nat>, m: nat, p: nat, i: nat, t: nat)
    requires i < |caps| && 0 < t <= caps[i]
    ensures Turn(caps, i, t) <= GivenSum(caps, m, p) <==> t <= (if i < p then m + 1 else m)
  {
    if t <= (if i < p then m + 1 else m) {
      GivenMore(caps, t - 1, i + 1, m, p);
    } else {
      GivenMore(caps, m, p, t - 1, i);
      GivenOne(caps, t - 1, i);
    }
  }

  lemma {:induction false} TimesIs(caps: seq<nat>, m: nat, p: nat, i: nat, n: nat)
    requires i < |caps| && n <= caps[i]
    ensures Times(caps, i, GivenSum(caps, m, p), n) == Given(n, m, i < p)
  {
    if n > 0 {
      TurnCame(caps, m, p, i, n);
      TimesIs(caps, m, p, i, n - 1);
    }
  }

  // The sweeps narrow every column as often as its turns come.
  lemma SweptIsShrunk(cs: seq<Column>, m: nat, p: nat)
    ensures Swept(cs, m, p) == Shrunk(cs, GivenSum(Caps(cs), m, p))
  {
    forall i | 0 <= i < |cs| ensures Swept(cs, m, p)[i] == Shrunk(cs, GivenSum(Caps(cs), m, p))[i] {
      TimesIs(Caps(cs), m, p, i, Cap(cs[i]));
    }
  }

  lemma NoSweep(cs: seq<Column>)
    ensures Swept(cs, 0, 0) == cs && GivenSum(Caps(cs), 0, 0) == 0
  {
    GivenNothing(Caps(cs));
  }

  lemma NextSweep(cs: seq<Column>, m: nat)
    ensures Swept(cs, m, |cs|) == Swept(cs, m + 1, 0)
    ensures GivenSum(Caps(cs), m, |cs|) == GivenSum(Caps(cs), m + 1, 0)
  {
    GivenAll(Caps(cs), m, |cs|);
  }

  // ------------------------------------------------------------ how many narrowings

  // How often the columns are made narrower in all: until the excess is gone, if it
  // is a whole number and they can give that much; else as often as they can.
  function Narrowings(excess: real, cap: nat): (d: nat)
    requires excess > 0.0
    ensures d <= cap
  {
    if Whole(excess) && excess.Floor <= cap then excess.Floor else cap
  }

  predicate Whole(x: real) { x == x.Floor as real }

  // After `k` narrowings the table is as wide as its block.
  predicate Fits(start: real, block: real, k: nat) { start - k as real == block }

  lemma WholeExcess(start: real, block: real, d: nat, cap: nat)
    requires start > block && d <= cap
    requires forall k: nat | 0 < k < d :: !Fits(start, block, k)
    requires Fits(start, block, d) || d == cap
    ensures d == Narrowings(start - block, cap)
  {
    var e := start - block;
    if Fits(start, block, d) {
      assert e == d as real;
    } else if Whole(e) {
      assert Fits(start, block, e.Floor);
    }
  }

  lemma SweepFits(start: real, from: real, block: real, d: nat, more: nat)
    requires from == start - d as real
    requires forall k: nat | 0 < k < more :: !Fits(from, block, k)
    requires forall k: nat | 0 < k <= d :: !Fits(start, block, k)
    ensures forall k: nat | 0 < k < d + more :: !Fits(start, block, k)
  {
    forall k: nat | d < k < d + more ensures !Fits(start, block, k) {
      assert !Fits(from, block, k - d);
    }
  }

  // A column ends below its minimum exactly when its way down to it is no whole
  // number of pixels and its last turn comes.
  lemma BelowMinimum(cs: seq<Column>, d: nat, i: nat)
    requires i < |cs| && cs[i].width >= cs[i].minWidth
    ensures Shrunk(cs, d)[i].width < cs[i].minWidth <==>
            && Cap(cs[i]) > 0 && !Whole(cs[i].width - cs[i].minWidth)
            && Turn(Caps(cs), i, Cap(cs[i])) <= d
    ensures Shrunk(cs, d)[i].width > cs[i].minWidth - 1.0
  {
    hide Turn;
    var n := Cap(cs[i]);
    var x := cs[i].width - cs[i].minWidth;
    if n > 0 {
      assert n as real >= x > n as real - 1.0;
      assert Whole(x) <==> x == n as real by { if Whole(x) { assert x.Floor == n; } }
    }
  }
}
