// What selectors mean, declared over the tree and the states alone.
module SelectorMeaning {
  import opened Selectors

  // Child `x` of the same parent comes before `e`.
  ghost predicate Precedes(t: Tree, x: nat, e: nat)
    requires t.Valid()
  {
    && t.Has(e) && t.At(e).hasParent
    && exists i, j :: PlacedAs(t.Kids(t.Parent(e)), x, i, e, j)
  }

  ghost predicate PlacedAs(kids: seq<nat>, x: nat, i: int, e: nat, j: int) {
    0 <= i < j < |kids| && kids[i] == x && kids[j] == e
  }

  ghost predicate ElementBefore(t: Tree, x: nat, e: nat)
    requires t.Valid()
  {
    Precedes(t, x, e) && t.Has(x) && !t.At(x).isText
  }

  ghost predicate IsAncestor(t: Tree, a: nat, e: nat)
    requires t.Valid()
    decreases e
  {
    t.Has(e) && t.At(e).hasParent && (t.Parent(e) == a || IsAncestor(t, a, t.Parent(e)))
  }

  // `a` stands where the combinator wants it, seen from `e`.
  ghost predicate Related(t: Tree, comb: Combinator, a: nat, e: nat)
    requires t.Valid()
  {
    && t.Has(e) && t.At(e).hasParent
    && match comb
       case Descendant => IsAncestor(t, a, e)
       case Child => t.Parent(e) == a
       case Adjacent => ElementBefore(t, a, e) && forall x | ElementBefore(t, x, e) :: x == a || Precedes(t, x, a)
       case Sibling => ElementBefore(t, a, e)
  }

  // What a sub-selector says of an element.
  ghost predicate SimpleMeans(t: Tree, ps: States, e: nat, s: Simple)
    requires Fits(t, ps) && t.Has(e)
    decreases s, 2
  {
    var n := t.At(e);
    match s
    case Class(c) => c in n.classes
    case Id(id) => n.id == id
    case Attribute(test) => test in n.attrs
    case State(c) => c in ps[e]
    case Lang(l) => t.lang == l
    case OnlyChild(ofType) =>
      n.hasParent && forall x | x in t.Kids(t.Parent(e)) && x != e && !t.At(x).isText :: ofType && t.At(x).tag != n.tag
    case Nth(a, b, ofType, fromEnd, of) =>
      && n.hasParent && (a != 0 || b != 0) && IsCounted(t, ps, e, e, s)
      && exists k: nat :: a * k + b == |UpTo(t, ps, e, s)|
    case Is(any) => exists i | 0 <= i < |any| :: Means(t, ps, e, any[i], true)
    case Not(none) => forall i | 0 <= i < |none| :: !Means(t, ps, e, none[i], true)
  }

  // The counted siblings up to `e`, from the end they are counted from.
  ghost function UpTo(t: Tree, ps: States, e: nat, s: Simple): set<nat>
    requires Fits(t, ps) && t.Has(e) && t.At(e).hasParent && s.Nth?
    decreases s, 1
  {
    set x | x in t.Kids(t.Parent(e)) && !t.At(x).isText && IsCounted(t, ps, e, x, s) &&
            (x == e || if s.fromEnd then Precedes(t, e, x) else Precedes(t, x, e))
  }

  ghost predicate IsCounted(t: Tree, ps: States, e: nat, x: nat, s: Simple)
    requires Fits(t, ps) && t.Has(e) && t.Has(x) && s.Nth?
    decreases s, 0
  {
    || (!s.ofType && s.of == [])
    || (s.ofType && t.At(x).tag == t.At(e).tag)
    || exists i | 0 <= i < |s.of| :: Means(t, ps, x, s.of[i], true)
  }

  // What the permissive pass takes for granted.
  predicate Granted(s: Simple) {
    s.State? || s.Lang? || s.OnlyChild? || s.Nth? || s.Is? || s.Not?
  }

  // All sub-selectors hold, but for those taken for granted when not all are applied.
  ghost predicate CompoundHolds(t: Tree, ps: States, e: nat, c: Compound, apply: bool)
    requires Fits(t, ps)
    decreases c
  {
    && t.Has(e) && !t.At(e).isText
    && (c.anyTag || c.tag == t.At(e).tag)
    && forall k | 0 <= k < |c.attrs| :: (!apply && Granted(c.attrs[k])) || SimpleMeans(t, ps, e, c.attrs[k])
  }

  // One element for each compound, left to right.
  datatype Trail = First(el: nat) | Then(before: Trail, el: nat)

  // Every element satisfies its compound, every two their combinator.
  ghost predicate Assigned(t: Tree, ps: States, s: Selector, trail: Trail, apply: bool)
    requires Fits(t, ps)
    decreases s, 0
  {
    && CompoundHolds(t, ps, trail.el, s.right, apply)
    && match s
       case Single(_) => trail.First?
       case Joined(left, comb, _) =>
         trail.Then? && Related(t, comb, trail.before.el, trail.el) && Assigned(t, ps, left, trail.before, apply)
  }

  ghost predicate Means(t: Tree, ps: States, e: nat, s: Selector, apply: bool)
    requires Fits(t, ps)
    decreases s, 1
  {
    exists trail :: Assigned(t, ps, s, trail, apply) && trail.el == e
  }

  // ------------------------------------------------------------ siblings, declared

  lemma {:induction false} InElements(t: Tree, kids: seq<nat>, x: nat)
    requires forall i | 0 <= i < |kids| :: t.Has(kids[i])
    ensures x in Elements(t, kids) <==> x in kids && !t.At(x).isText
  {
    if kids != [] {
      var n := |kids| - 1;
      InElements(t, kids[..n], x);
      assert x in kids <==> x in kids[..n] || x == kids[n];
    }
  }

  lemma BeforeIs(t: Tree, e: nat, x: nat)
    requires t.Valid() && t.Has(e) && t.At(e).hasParent
    ensures x in Before(t, e) <==> ElementBefore(t, x, e)
    ensures x in After(t, e) <==> Precedes(t, e, x) && t.Has(x) && !t.At(x).isText
  {
    var kids := t.Kids(t.Parent(e));
    var k := IndexOf(kids, e);
    KidsBefore(t, e, x);
    KidsAfter(t, e, x);
    hide Precedes;
    InElements(t, kids[..k], x);
    InElements(t, kids[k + 1..], x);
  }

  lemma KidsBefore(t: Tree, e: nat, x: nat)
    requires t.Valid() && t.Has(e) && t.At(e).hasParent
    ensures var kids := t.Kids(t.Parent(e)); x in kids[..IndexOf(kids, e)] <==> Precedes(t, x, e)
  {
    var kids := t.Kids(t.Parent(e));
    var k := IndexOf(kids, e);
    if x in kids[..k] {
      var i :| 0 <= i < k && kids[..k][i] == x;
      assert PlacedAs(kids, x, i, e, k);
    }
    if Precedes(t, x, e) {
      var i, j :| PlacedAs(kids, x, i, e, j);
      assert j == k && kids[..k][i] == x;
    }
  }

  lemma KidsAfter(t: Tree, e: nat, x: nat)
    requires t.Valid() && t.Has(e) && t.At(e).hasParent
    ensures var kids := t.Kids(t.Parent(e)); x in kids[IndexOf(kids, e) + 1..] <==> Precedes(t, e, x)
  {
    var kids := t.Kids(t.Parent(e));
    var k := IndexOf(kids, e);
    if x in kids[k + 1..] {
      var i :| 0 <= i < |kids| - k - 1 && kids[k + 1..][i] == x;
      assert kids[k + 1 + i] == x && t.IsChild(x, t.Parent(e)) && t.Parent(x) == t.Parent(e);
      assert PlacedAs(kids, e, k, x, k + 1 + i);
    }
    if Precedes(t, e, x) {
      PrecedesIsKid(t, e, x);
      var i, j :| PlacedAs(kids, e, i, x, j);
      assert i == k && kids[k + 1..][j - k - 1] == x;
    }
  }

  lemma PrecedesIsKid(t: Tree, x: nat, e: nat)
    requires t.Valid() && Precedes(t, x, e)
    ensures x in t.Kids(t.Parent(e)) && e in t.Kids(t.Parent(e)) && t.Has(x)
    ensures t.At(x).hasParent && t.Parent(x) == t.Parent(e)
  {
    var kids := t.Kids(t.Parent(e));
    var i, j :| PlacedAs(kids, x, i, e, j);
    assert kids[i] in kids && t.IsChild(x, t.Parent(e));
  }

  lemma {:induction false} ElementsDistinct(t: Tree, kids: seq<nat>)
    requires (forall i | 0 <= i < |kids| :: t.Has(kids[i])) && Distinct(kids)
    ensures Distinct(Elements(t, kids))
  {
    if kids != [] {
      var n := |kids| - 1;
      ElementsDistinct(t, kids[..n]);
      InElements(t, kids[..n], kids[n]);
    }
  }

  lemma SidesDistinct(t: Tree, e: nat)
    requires t.Valid() && t.Has(e) && t.At(e).hasParent
    ensures Distinct(Before(t, e)) && Distinct(After(t, e))
  {
    var kids := t.Kids(t.Parent(e));
    var k := IndexOf(kids, e);
    ElementsDistinct(t, kids[..k]);
    ElementsDistinct(t, kids[k + 1..]);
  }

  // Behind the last element there is only text.
  lemma {:induction false} LastElement(t: Tree, kids: seq<nat>) returns (i: nat)
    requires (forall k | 0 <= k < |kids| :: t.Has(kids[k])) && Elements(t, kids) != []
    ensures i < |kids| && kids[i] == Elements(t, kids)[|Elements(t, kids)| - 1] && !t.At(kids[i]).isText
    ensures forall k | i < k < |kids| :: t.At(kids[k]).isText
  {
    var n := |kids| - 1;
    if t.At(kids[n]).isText { i := LastElement(t, kids[..n]); } else { i := n; }
  }

  lemma LastIsAdjacent(t: Tree, e: nat)
    requires t.Valid() && t.Has(e) && t.At(e).hasParent && Before(t, e) != []
    ensures Related(t, Adjacent, Before(t, e)[|Before(t, e)| - 1], e)
  {
    var kids, before := t.Kids(t.Parent(e)), Before(t, e);
    var k := IndexOf(kids, e);
    var i := LastElement(t, kids[..k]);
    var last := kids[i];
    assert last in before;
    BeforeIs(t, e, last);
    hide Before;
    forall x | ElementBefore(t, x, e) ensures x == last || Precedes(t, x, last) { NotBehindLast(t, e, x, i); }
  }

  // The last element before `e` is the adjacent one.
  lemma AdjacentIs(t: Tree, e: nat, a: nat)
    requires t.Valid() && t.Has(e) && t.At(e).hasParent
    ensures Related(t, Adjacent, a, e) <==> Before(t, e) != [] && Before(t, e)[|Before(t, e)| - 1] == a
  {
    var before := Before(t, e);
    BeforeIs(t, e, a);
    hide Before, Precedes;
    if before != [] {
      LastIsAdjacent(t, e);
      var last := before[|before| - 1];
      if Related(t, Adjacent, a, e) && a != last { NotBoth(t, last, a); }
    }
  }

  lemma NotBehindLast(t: Tree, e: nat, x: nat, i: nat)
    requires t.Valid() && t.Has(e) && t.At(e).hasParent && ElementBefore(t, x, e)
    requires i < IndexOf(t.Kids(t.Parent(e)), e)
    requires var kids := t.Kids(t.Parent(e)); forall k | i < k < IndexOf(kids, e) :: t.At(kids[k]).isText
    ensures x == t.Kids(t.Parent(e))[i] || Precedes(t, x, t.Kids(t.Parent(e))[i])
  {
    var kids := t.Kids(t.Parent(e));
    var j, k :| PlacedAs(kids, x, j, e, k);
    assert k == IndexOf(kids, e);
    if j < i {
      assert t.IsChild(kids[i], t.Parent(e)) && t.IsChild(kids[i], t.Parent(kids[i]));
      assert PlacedAs(kids, x, j, kids[i], i);
    }
  }

  lemma NotBoth(t: Tree, x: nat, y: nat)
    requires t.Valid() && Precedes(t, x, y)
    ensures !Precedes(t, y, x) && x != y
  {
    PrecedesIsKid(t, x, y);
    var kids := t.Kids(t.Parent(y));
    var i, j :| PlacedAs(kids, x, i, y, j);
    forall k, l ensures !PlacedAs(kids, y, k, x, l) {}
  }

  // The test on pairs of element children finds another of the kind exactly if there is one.
  lemma OnlyChildIs(t: Tree, e: nat, ofType: bool)
    requires t.Valid() && t.Has(e) && !t.At(e).isText && t.At(e).hasParent
    ensures IsOnlyChild(t, e, ofType) <==>
            forall x | x in t.Kids(t.Parent(e)) && x != e && !t.At(x).isText :: ofType && t.At(x).tag != t.At(e).tag
  {
    var kids := t.Kids(t.Parent(e));
    var es := Elements(t, kids);
    ElementsDistinct(t, kids);
    InElements(t, kids, e);
    var p :| 0 <= p < |es| && es[p] == e;
    if IsOnlyChild(t, e, ofType) {
      forall x | x in kids && x != e && !t.At(x).isText ensures ofType && t.At(x).tag != t.At(e).tag {
        InElements(t, kids, x);
        var q :| 0 <= q < |es| && es[q] == x;
        assert SameTag(t, es[p], e);
        assert ofType && !(SameTag(t, es[p], e) && SameTag(t, es[q], e));
      }
    } else {
      var i, j :| 0 <= i < j < |es| && !(ofType && !(SameTag(t, es[i], e) && SameTag(t, es[j], e)));
      var x := if es[i] == e then es[j] else es[i];
      InElements(t, kids, x);
      assert x in es && x != e;
    }
  }
}
