// The searches of html_tag as loops over the children, and the functions that
// specify them.
module SelectorSearch {
  import opened Selectors

  // The element children among the first `i` children.
  ghost function Seen(t: Tree, kids: seq<nat>, i: nat): seq<nat>
    requires i <= |kids| && forall k | 0 <= k < |kids| :: t.Has(kids[k])
  {
    Elements(t, kids[..i])
  }

  lemma SeenStep(t: Tree, kids: seq<nat>, i: nat)
    requires i < |kids| && forall k | 0 <= k < |kids| :: t.Has(kids[k])
    ensures Seen(t, kids, i + 1) == if t.At(kids[i]).isText then Seen(t, kids, i) else Seen(t, kids, i) + [kids[i]]
  {
    assert kids[..i + 1][..i] == kids[..i];
  }

  lemma {:induction false} IndexIs(s: seq<nat>, x: nat, i: nat)
    requires i < |s| && s[i] == x && forall j | 0 <= j < i :: s[j] != x
    ensures IndexOf(s, x) == i
  {
    if i > 0 { IndexIs(s[1..], x, i - 1); }
  }

  lemma SeenBefore(t: Tree, e: nat, kids: seq<nat>, i: nat)
    requires t.Valid() && t.Has(e) && t.At(e).hasParent && kids == t.Kids(t.Parent(e))
    requires i < |kids| && kids[i] == e && forall j | 0 <= j < i :: kids[j] != e
    ensures Seen(t, kids, i) == Before(t, e)
  {
    IndexIs(kids, e, i);
  }

  lemma SiblingStep(t: Tree, ps: States, s: Selector, apply: bool, xs: seq<nat>, c: nat)
    requires Fits(t, ps) && t.Has(c) && forall x | x in xs :: t.Has(x)
    ensures FindSibling(t, ps, s, apply, xs + [c]) ==
            var f, r := FindSibling(t, ps, s, apply, xs), Select(t, ps, c, s, apply);
            if f.Found? then f else if r.Match? then Found(c, r.pseudo) else Nobody
  {
    assert (xs + [c])[..|xs|] == xs;
  }

  lemma CountStep(t: Tree, ps: States, e: nat, s: Simple, xs: seq<nat>, c: nat)
    requires Fits(t, ps) && t.Has(e) && s.Nth? && t.Has(c) && forall x | x in xs :: t.Has(x)
    ensures CountIn(t, ps, e, s, xs + [c]) == CountIn(t, ps, e, s, xs) + (if Counts(t, ps, e, c, s) then 1 else 0)
  {
    assert (xs + [c])[..|xs|] == xs;
  }

  lemma SiblingStart(t: Tree, ps: States, s: Selector, apply: bool, kids: seq<nat>)
    requires Fits(t, ps) && forall k | 0 <= k < |kids| :: t.Has(kids[k])
    ensures FindSibling(t, ps, s, apply, Seen(t, kids, 0)) == Nobody
  {
  }

  lemma CountStart(t: Tree, ps: States, e: nat, s: Simple, kids: seq<nat>)
    requires Fits(t, ps) && t.Has(e) && s.Nth? && forall k | 0 <= k < |kids| :: t.Has(kids[k])
    ensures CountIn(t, ps, e, s, Left(t, kids, |kids|)) == 0
  {
    assert kids[|kids|..] == [];
  }

  // The first element child before `e` that matches.
  method FindSiblingLoop(t: Tree, ps: States, e: nat, s: Selector, apply: bool) returns (ret: Found)
    requires Fits(t, ps) && t.Has(e) && t.At(e).hasParent && !t.At(e).isText
    ensures ret == FindSibling(t, ps, s, apply, Before(t, e))
  {
    hide Select, FindSibling, Tree.Valid, Elements;
    var kids := t.Kids(t.Parent(e));
    ret := Nobody;
    SiblingStart(t, ps, s, apply, kids);
    var i := 0;
    while kids[i] != e
      invariant i < |kids| && forall j | 0 <= j < i :: kids[j] != e
      invariant ret == FindSibling(t, ps, s, apply, Seen(t, kids, i))
      decreases |kids| - i
    {
      SeenStep(t, kids, i);
      var c := kids[i];
      if !t.At(c).isText {
        SiblingStep(t, ps, s, apply, Seen(t, kids, i), c);
        if ret.Nobody? {
          var res := Select(t, ps, c, s, apply);
          if res.Match? {
            ret := Found(c, res.pseudo);
          }
        }
      }
      i := i + 1;
    }
    SeenBefore(t, e, kids, i);
  }

  // The element child just before `e`, if it matches.
  method FindAdjacentLoop(t: Tree, ps: States, e: nat, s: Selector, apply: bool) returns (found: Found)
    requires Fits(t, ps) && t.Has(e) && t.At(e).hasParent && !t.At(e).isText
    ensures found == FindAdjacent(t, ps, e, s, apply, Before(t, e))
  {
    var kids := t.Kids(t.Parent(e));
    var some, ret := false, 0;
    var i := 0;
    while kids[i] != e
      invariant i < |kids| && forall j | 0 <= j < i :: kids[j] != e
      invariant some == (Seen(t, kids, i) != []) && (some ==> ret == Seen(t, kids, i)[|Seen(t, kids, i)| - 1])
      decreases |kids| - i
    {
      SeenStep(t, kids, i);
      if !t.At(kids[i]).isText {
        some, ret := true, kids[i];
      }
      i := i + 1;
    }
    SeenBefore(t, e, kids, i);
    found := Nobody;
    if some {
      var res := Select(t, ps, ret, s, apply);
      if res.Match? {
        found := Found(ret, res.pseudo);
      }
    }
  }

  // :nth-child and :nth-of-type count from the first child ...
  method IsNthChild(t: Tree, ps: States, e: nat, s: Simple) returns (r: bool)
    requires Fits(t, ps) && t.Has(e) && t.At(e).hasParent && !t.At(e).isText && s.Nth?
    ensures r <==> Counts(t, ps, e, e, s) && Steps(1 + CountIn(t, ps, e, s, Before(t, e)), s.a, s.b)
  {
    var kids := t.Kids(t.Parent(e));
    var idx := 1;
    var i := 0;
    while kids[i] != e
      invariant i < |kids| && forall j | 0 <= j < i :: kids[j] != e
      invariant idx == 1 + CountIn(t, ps, e, s, Seen(t, kids, i))
      decreases |kids| - i
    {
      SeenStep(t, kids, i);
      var c := kids[i];
      if !t.At(c).isText {
        CountStep(t, ps, e, s, Seen(t, kids, i), c);
        if Counts(t, ps, e, c, s) {
          idx := idx + 1;
        }
      }
      i := i + 1;
    }
    SeenBefore(t, e, kids, i);
    r := Counts(t, ps, e, e, s) && Steps(idx, s.a, s.b);
  }

  // ... :nth-last-child and :nth-last-of-type from the last.
  method IsNthLastChild(t: Tree, ps: States, e: nat, s: Simple) returns (r: bool)
    requires Fits(t, ps) && t.Has(e) && t.At(e).hasParent && !t.At(e).isText && s.Nth?
    ensures r <==> Counts(t, ps, e, e, s) && Steps(1 + CountIn(t, ps, e, s, After(t, e)), s.a, s.b)
  {
    hide Select, Counts, CountIn, Steps, Tree.Valid, Left, Elements, After;
    var kids := t.Kids(t.Parent(e));
    var idx := 1;
    var i := |kids|;
    ghost var k := IndexOf(kids, e);
    CountStart(t, ps, e, s, kids);
    while kids[i - 1] != e
      invariant k < i <= |kids| && idx == 1 + CountIn(t, ps, e, s, Left(t, kids, i))
      decreases i
    {
      i := i - 1;
      var c := kids[i];
      ElementsFront(t, kids, i);
      if !t.At(c).isText {
        CountFront(t, ps, e, s, Left(t, kids, i + 1), c);
        if Counts(t, ps, e, c, s) {
          idx := idx + 1;
        }
      }
    }
    LeftIsAfter(t, e, kids, i);
    r := Counts(t, ps, e, e, s) && Steps(idx, s.a, s.b);
  }

  // The element children from the `i`-th child on.
  ghost function Left(t: Tree, kids: seq<nat>, i: nat): (r: seq<nat>)
    requires i <= |kids| && forall k | 0 <= k < |kids| :: t.Has(kids[k])
    ensures forall x | x in r :: t.Has(x)
  {
    Elements(t, kids[i..])
  }

  lemma LeftIsAfter(t: Tree, e: nat, kids: seq<nat>, i: nat)
    requires t.Valid() && t.Has(e) && t.At(e).hasParent && kids == t.Kids(t.Parent(e))
    requires 0 < i <= |kids| && kids[i - 1] == e
    ensures Left(t, kids, i) == After(t, e)
  {
    hide Elements, IndexOf, Tree.Valid;
    assert IndexOf(kids, e) == i - 1;
  }

  lemma ElementsFront(t: Tree, kids: seq<nat>, i: nat)
    requires i < |kids| && forall k | 0 <= k < |kids| :: t.Has(kids[k])
    ensures Left(t, kids, i) == if t.At(kids[i]).isText then Left(t, kids, i + 1) else [kids[i]] + Left(t, kids, i + 1)
  {
    assert kids[i..] == [kids[i]] + kids[i + 1..];
    ElementsConcat(t, [kids[i]], kids[i + 1..]);
    assert [kids[i]][..0] == [];
    assert Elements(t, [kids[i]]) == if t.At(kids[i]).isText then [] else [kids[i]];
  }

  lemma {:induction false} ElementsConcat(t: Tree, a: seq<nat>, b: seq<nat>)
    requires forall k | 0 <= k < |a| :: t.Has(a[k])
    requires forall k | 0 <= k < |b| :: t.Has(b[k])
    ensures Elements(t, a + b) == Elements(t, a) + Elements(t, b)
  {
    if b == [] {
      assert a + b == a;
    } else {
      var n := |b| - 1;
      ElementsConcat(t, a, b[..n]);
      assert (a + b)[..|a| + n] == a + b[..n] && (a + b)[|a| + n] == b[n];
      var last := if t.At(b[n]).isText then [] else [b[n]];
      assert Elements(t, a) + (Elements(t, b[..n]) + last) == (Elements(t, a) + Elements(t, b[..n])) + last;
    }
  }

  lemma {:induction false} CountFront(t: Tree, ps: States, e: nat, s: Simple, xs: seq<nat>, c: nat)
    requires Fits(t, ps) && t.Has(e) && s.Nth? && t.Has(c) && forall x | x in xs :: t.Has(x)
    ensures CountIn(t, ps, e, s, [c] + xs) == CountIn(t, ps, e, s, xs) + (if Counts(t, ps, e, c, s) then 1 else 0)
  {
    if xs == [] {
      assert ([c] + xs)[..0] == [] && [c] + xs == [c];
    } else {
      var n := |xs| - 1;
      CountFront(t, ps, e, s, xs[..n], c);
      assert ([c] + xs)[..n + 1] == [c] + xs[..n];
    }
  }
}
