// The heights of a table's rows.
module TableHeights {
  import opened TableModel

  function Heights(rs: seq<Row>): (r: seq<real>)
    ensures |r| == |rs|
  {
    seq(|rs|, i requires 0 <= i < |rs| => rs[i].height)
  }

  // A row no lower than its own height, which is then its minimum.
  function Raised(r: Row): Row {
    var h := if r.cssHeight.Fixed? && r.cssHeight.value > r.height then r.cssHeight.value else r.height;
    Row(h, h, r.cssHeight)
  }

  function AllRaised(rs: seq<Row>): (r: seq<Row>)
    ensures |r| == |rs|
  {
    seq(|rs|, i requires 0 <= i < |rs| => Raised(rs[i]))
  }

  predicate AtMinimum(rs: seq<Row>) {
    forall i | 0 <= i < |rs| :: rs[i].height == rs[i].minHeight
  }

  function AutoRows(rs: seq<Row>): nat {
    if rs == [] then 0 else AutoRows(rs[..|rs| - 1]) + (if rs[|rs| - 1].cssHeight.Auto? then 1 else 0)
  }

  lemma {:induction false} AutoRowsAtMost(rs: seq<Row>)
    ensures AutoRows(rs) <= |rs|
  {
    if rs != [] { AutoRowsAtMost(rs[..|rs| - 1]); }
  }

  // ---------------------------------------------------------------- what rows end at

  // What a row with a percentage asks for beyond its minimum.
  function Ask(r: Row, block: real): real {
    if r.cssHeight.Percent? && block * r.cssHeight.value / 100.0 > r.minHeight
    then block * r.cssHeight.value / 100.0 - r.minHeight
    else 0.0
  }

  function Asks(rs: seq<Row>, block: real): (r: seq<real>)
    ensures |r| == |rs|
  {
    seq(|rs|, i requires 0 <= i < |rs| => Ask(rs[i], block))
  }

  // What the rows before the `i`-th leave of the extra height.
  function LeftFor(rs: seq<Row>, block: real, extra: real, i: nat): real
    requires i <= |rs|
  {
    extra - Sum(Asks(rs, block)[..i])
  }

  // Rows with a percentage are served in order, as long as there is something left.
  function Grant(rs: seq<Row>, block: real, extra: real, i: nat): real
    requires i < |rs|
  {
    var left := LeftFor(rs, block, extra, i);
    if left <= 0.0 then 0.0 else if Ask(rs[i], block) <= left then Ask(rs[i], block) else left
  }

  // What is left then is split evenly among the auto rows, or all if there are none.
  function SharesRest(rs: seq<Row>, i: nat): bool
    requires i < |rs|
  {
    rs[i].cssHeight.Auto? || AutoRows(rs) == 0
  }

  function Rest(rs: seq<Row>, block: real, extra: real): real {
    LeftFor(rs, block, extra, |rs|)
  }

  function RestShare(rs: seq<Row>, block: real, extra: real): real
    requires rs != []
  {
    if Rest(rs, block, extra) > 0.0
    then Each(Rest(rs, block, extra), if AutoRows(rs) == 0 then |rs| else AutoRows(rs))
    else 0.0
  }

  ghost predicate Served(rs: seq<Row>, block: real, extra: real, now: seq<Row>) {
    && |now| == |rs|
    && forall i | 0 <= i < |rs| ::
         now[i] == rs[i].(height := rs[i].minHeight + Grant(rs, block, extra, i) +
                                    if SharesRest(rs, i) then RestShare(rs, block, extra) else 0.0)
  }

  // The first `b` rows have what they ask for.
  ghost predicate ServedTo(rs: seq<Row>, block: real, b: nat, now: seq<Row>) {
    && |now| == |rs| && b <= |rs|
    && forall i | 0 <= i < |rs| ::
         now[i] == if i < b then rs[i].(height := rs[i].minHeight + Ask(rs[i], block)) else rs[i]
  }

  lemma LeftNext(rs: seq<Row>, block: real, extra: real, i: nat)
    requires i < |rs|
    ensures LeftFor(rs, block, extra, i + 1) == LeftFor(rs, block, extra, i) - Ask(rs[i], block)
  {
    SumPrefix(Asks(rs, block), i);
  }

  // Less is left for later rows.
  lemma {:induction false} LeftFalls(rs: seq<Row>, block: real, extra: real, i: nat, j: nat)
    requires i <= j <= |rs|
    ensures LeftFor(rs, block, extra, j) <= LeftFor(rs, block, extra, i)
    decreases j - i
  {
    if i < j {
      LeftFalls(rs, block, extra, i, j - 1);
      LeftNext(rs, block, extra, j - 1);
    }
  }

  // All are served, and what is left is split.
  lemma AllServed(rs: seq<Row>, block: real, extra: real, mid: seq<Row>, now: seq<Row>)
    requires AtMinimum(rs) && ServedTo(rs, block, |rs|, mid) && Rest(rs, block, extra) > 0.0
    requires |now| == |mid|
    requires forall i | 0 <= i < |rs| ::
               now[i] == if SharesRest(rs, i) then mid[i].(height := mid[i].height + RestShare(rs, block, extra))
                         else mid[i]
    ensures Served(rs, block, extra, now)
  {
    hide Sum, RestShare, AutoRows;
    forall i | 0 <= i < |rs| ensures Grant(rs, block, extra, i) == Ask(rs[i], block) {
      LeftFalls(rs, block, extra, i + 1, |rs|);
      LeftNext(rs, block, extra, i);
    }
  }

  // Served up to the row that took what was left or more: what it took too much is
  // taken back.
  lemma SomeServed(rs: seq<Row>, block: real, extra: real, b: nat, mid: seq<Row>, now: seq<Row>)
    requires AtMinimum(rs) && b < |rs| && ServedTo(rs, block, b + 1, mid)
    requires LeftFor(rs, block, extra, b) > 0.0 && LeftFor(rs, block, extra, b + 1) <= 0.0
    requires now == mid[b := mid[b].(height := mid[b].height + LeftFor(rs, block, extra, b + 1))]
    ensures Served(rs, block, extra, now)
  {
    hide Sum, AutoRows;
    LeftNext(rs, block, extra, b);
    LeftFalls(rs, block, extra, b + 1, |rs|);
    forall i | 0 <= i < |rs|
      ensures Grant(rs, block, extra, i) ==
              if i < b then Ask(rs[i], block) else if i == b then LeftFor(rs, block, extra, b) else 0.0
    {
      if i < b {
        LeftFalls(rs, block, extra, i + 1, b);
        LeftNext(rs, block, extra, i);
      } else if i > b {
        LeftFalls(rs, block, extra, b + 1, i);
      }
    }
  }

  // From the last row on, what is missing is taken down to the minima.
  function TakenBack(rs: seq<Row>, missing: real): (r: seq<Row>)
    ensures |r| == |rs|
  {
    if rs == [] || missing <= 0.0 then rs
    else
      var n := |rs| - 1;
      var last := rs[n];
      if last.height <= last.minHeight then TakenBack(rs[..n], missing) + [last]
      else if last.height - missing >= last.minHeight then rs[..n] + [last.(height := last.height - missing)]
      else TakenBack(rs[..n], missing - (last.height - last.minHeight)) + [last.(height := last.minHeight)]
  }

  // A row that can give all of it, with only minima behind it, gives it.
  lemma {:induction false} TakenBackHere(rs: seq<Row>, b: nat, missing: real)
    requires b < |rs| && missing > 0.0 && rs[b].height - missing >= rs[b].minHeight
    requires forall k | b < k < |rs| :: rs[k].height <= rs[k].minHeight
    ensures TakenBack(rs, missing) == rs[b := rs[b].(height := rs[b].height - missing)]
  {
    var n := |rs| - 1;
    if b < n {
      TakenBackHere(rs[..n], b, missing);
    }
  }

  // ------------------------------------------------------------ and that it fills the block

  function Grants(rs: seq<Row>, block: real, extra: real): (r: seq<real>)
    ensures |r| == |rs|
  {
    seq(|rs|, i requires 0 <= i < |rs| => Grant(rs, block, extra, i))
  }

  function RestShares(rs: seq<Row>, block: real, extra: real): (r: seq<real>)
    ensures |r| == |rs|
  {
    seq(|rs|, i requires 0 <= i < |rs| => if SharesRest(rs, i) then RestShare(rs, block, extra) else 0.0)
  }

  lemma {:induction false} GrantSum(rs: seq<Row>, block: real, extra: real, k: nat)
    requires k <= |rs| && extra >= 0.0
    ensures Sum(Grants(rs, block, extra)[..k]) == extra - Max(LeftFor(rs, block, extra, k), 0.0)
  {
    if k > 0 {
      GrantSum(rs, block, extra, k - 1);
      SumPrefix(Grants(rs, block, extra), k - 1);
      LeftNext(rs, block, extra, k - 1);
      LeftFalls(rs, block, extra, k - 1, k);
    }
  }

  // Equal parts for those chosen.
  lemma {:induction false} EvenSum(rs: seq<Row>, all: bool, each: real, xs: seq<real>)
    requires |xs| == |rs| && forall i | 0 <= i < |rs| :: xs[i] == if all || rs[i].cssHeight.Auto? then each else 0.0
    ensures Sum(xs) == each * (if all then |rs| else AutoRows(rs)) as real
  {
    if rs != [] {
      var n := |rs| - 1;
      assert forall i | 0 <= i < n :: rs[..n][i] == rs[i];
      EvenSum(rs[..n], all, each, xs[..n]);
      OneTerm(each, if all then n else AutoRows(rs[..n]));
    }
  }

  lemma RestSum(rs: seq<Row>, block: real, extra: real)
    requires rs != []
    ensures Sum(RestShares(rs, block, extra)) == Max(Rest(rs, block, extra), 0.0)
    ensures RestShare(rs, block, extra) >= 0.0
  {
    hide Sum, LeftFor;
    var n := if AutoRows(rs) == 0 then |rs| else AutoRows(rs);
    EvenSum(rs, AutoRows(rs) == 0, RestShare(rs, block, extra), RestShares(rs, block, extra));
    if Rest(rs, block, extra) > 0.0 {
      Evenly(Rest(rs, block, extra), n);
    }
  }

  // Rows that leave room fill the block exactly, none below its minimum.
  lemma ServedFills(rs: seq<Row>, block: real, extra: real, now: seq<Row>)
    requires AtMinimum(rs) && rs != [] && extra > 0.0 && Served(rs, block, extra, now)
    ensures Sum(Heights(now)) == Sum(Heights(rs)) + extra
    ensures forall i | 0 <= i < |rs| :: now[i].height >= rs[i].minHeight == now[i].minHeight
  {
    hide Sum, LeftFor, RestShare, SharesRest;
    GrantSum(rs, block, extra, |rs|);
    RestSum(rs, block, extra);
    var grants, shares := Grants(rs, block, extra), RestShares(rs, block, extra);
    var mids := seq(|rs|, i requires 0 <= i < |rs| => rs[i].height + grants[i]);
    assert grants[..|rs|] == grants;
    SumAdd(Heights(rs), grants, mids);
    SumAdd(mids, shares, Heights(now));
  }

  // ------------------------------------------------------------ and which rows get it

  // What is due to a row before the rest is split.
  function Due(r: Row, block: real): real {
    if r.cssHeight.Percent? then Max(r.minHeight, block * r.cssHeight.value / 100.0) else r.minHeight
  }

  lemma AskIsDue(r: Row, block: real)
    ensures Ask(r, block) == Due(r, block) - r.minHeight >= 0.0
  {
  }

  lemma {:induction false} NoAutoRows(rs: seq<Row>)
    ensures AutoRows(rs) == 0 <==> forall i | 0 <= i < |rs| :: !rs[i].cssHeight.Auto?
  {
    if rs != [] {
      NoAutoRows(rs[..|rs| - 1]);
      assert forall i | 0 <= i < |rs| - 1 :: rs[i] == rs[..|rs| - 1][i];
    }
  }

  lemma RowServed(rs: seq<Row>, block: real, extra: real, now: seq<Row>, i: nat)
    requires AtMinimum(rs) && extra > 0.0 && Served(rs, block, extra, now) && i < |rs|
    ensures 0.0 <= Grant(rs, block, extra, i) <= Due(rs[i], block) - rs[i].minHeight
    ensures Grant(rs, block, extra, i) < Due(rs[i], block) - rs[i].minHeight ==>
              RestShare(rs, block, extra) == 0.0 && forall j | i < j < |rs| :: Grant(rs, block, extra, j) == 0.0
  {
    hide Sum, AutoRows, Due;
    AskIsDue(rs[i], block);
    LeftNext(rs, block, extra, i);
    LeftFalls(rs, block, extra, i + 1, |rs|);
    forall j | i < j < |rs|
      ensures Grant(rs, block, extra, i) < Due(rs[i], block) - rs[i].minHeight ==> Grant(rs, block, extra, j) == 0.0
    {
      LeftFalls(rs, block, extra, i + 1, j);
    }
  }

  // A row that does not get what is due to it leaves nothing, neither to those behind
  // it nor to split.
  lemma ServedInOrder(rs: seq<Row>, block: real, extra: real, now: seq<Row>, i: nat, j: nat)
    requires AtMinimum(rs) && extra > 0.0 && Served(rs, block, extra, now)
    requires i < |rs| && j < |rs| && now[i].height < Due(rs[i], block)
    ensures now[j].height <= Due(rs[j], block)
    ensures j > i || !rs[j].cssHeight.Percent? ==> now[j] == rs[j]
  {
    hide Grant, RestShare, AutoRows;
    RestSum(rs, block, extra);
    RowServed(rs, block, extra, now, i);
    RowServed(rs, block, extra, now, j);
  }

  // What is over when all have that goes to the auto rows, or to all if there are none,
  // the same to each.
  lemma RestIsSplit(rs: seq<Row>, block: real, extra: real, now: seq<Row>, i: nat, j: nat)
    requires AtMinimum(rs) && extra > 0.0 && Served(rs, block, extra, now)
    requires i < |rs| && j < |rs| && now[i].height > Due(rs[i], block)
    ensures now[j].height == Due(rs[j], block) +
              if rs[j].cssHeight.Auto? || (forall k | 0 <= k < |rs| :: !rs[k].cssHeight.Auto?)
              then now[i].height - Due(rs[i], block) else 0.0
  {
    hide Grant, RestShare, AutoRows, Due;
    NoAutoRows(rs);
    RowServed(rs, block, extra, now, i);
    RowServed(rs, block, extra, now, j);
  }
}
