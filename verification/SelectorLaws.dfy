// What matching means, and why the permissive pass can stand in for it.
module SelectorLaws {
  import opened Selectors
  import opened SelectorMeaning

  // ------------------------------------------------- strict matching, declared

  // The compound's sub-selectors from the k-th on.
  lemma {:induction false} CompoundMeans(t: Tree, ps: States, e: nat, c: Compound, k: nat, apply: bool)
    requires Fits(t, ps) && t.Has(e) && !t.At(e).isText && k <= |c.attrs|
    ensures var r := SelectCompound(t, ps, e, c, k, apply);
            && (r.Match? <==>
                  && (c.anyTag || c.tag == t.At(e).tag)
                  && forall i | k <= i < |c.attrs| ::
                       (!apply && Granted(c.attrs[i])) || SimpleMeans(t, ps, e, c.attrs[i]))
            && (apply ==> r != Match(true))
    decreases c, |c.attrs| - k
  {
    if k < |c.attrs| {
      HoldsMeans(t, ps, e, c.attrs[k]);
      CompoundMeans(t, ps, e, c, k + 1, apply);
    }
  }

  // A sub-selector holds exactly when it means something true of the element.
  lemma {:induction false} HoldsMeans(t: Tree, ps: States, e: nat, s: Simple)
    requires Fits(t, ps) && t.Has(e) && !t.At(e).isText
    ensures Holds(t, ps, e, s) <==> SimpleMeans(t, ps, e, s)
    decreases s, 4
  {
    match s
    case OnlyChild(ofType) => if t.At(e).hasParent { OnlyChildIs(t, e, ofType); }
    case Nth(a, b, ofType, fromEnd, of) =>
      if t.At(e).hasParent {
        CountsIs(t, ps, e, e, s);
        if IsCounted(t, ps, e, e, s) { NthIs(t, ps, e, s); }
      }
    case Is(any) =>
      forall i | 0 <= i < |any| ensures Select(t, ps, e, any[i], true).Match? <==> Means(t, ps, e, any[i], true) {
        SelectMeans(t, ps, e, any[i], true);
      }
    case Not(none) =>
      forall i | 0 <= i < |none| ensures Select(t, ps, e, none[i], true).Match? <==> Means(t, ps, e, none[i], true) {
        SelectMeans(t, ps, e, none[i], true);
      }
    case _ =>
  }

  lemma {:induction false} CountsIs(t: Tree, ps: States, e: nat, x: nat, s: Simple)
    requires Fits(t, ps) && t.Has(e) && t.Has(x) && s.Nth?
    ensures Counts(t, ps, e, x, s) <==> IsCounted(t, ps, e, x, s)
    decreases s, 1
  {
    forall i | 0 <= i < |s.of| ensures Select(t, ps, x, s.of[i], true).Match? <==> Means(t, ps, x, s.of[i], true) {
      SelectMeans(t, ps, x, s.of[i], true);
    }
  }

  lemma {:induction false} NthIs(t: Tree, ps: States, e: nat, s: Simple)
    requires Fits(t, ps) && t.Has(e) && !t.At(e).isText && t.At(e).hasParent && s.Nth? && IsCounted(t, ps, e, e, s)
    ensures var idx := 1 + CountIn(t, ps, e, s, if s.fromEnd then After(t, e) else Before(t, e));
            idx == |UpTo(t, ps, e, s)| && (Steps(idx, s.a, s.b) <==> exists k: nat :: s.a * k + s.b == idx)
    decreases s, 3
  {
    hide Before, After, Steps, UpTo, IsCounted, Counts, Distinct, CountIn;
    var xs := if s.fromEnd then After(t, e) else Before(t, e);
    StepsIsProgression(1 + CountIn(t, ps, e, s, xs), s.a, s.b);
    SidesDistinct(t, e);
    var counted := set x | x in xs && IsCounted(t, ps, e, x, s);
    CountIsCard(t, ps, e, s, xs, counted);
    forall x ensures x in UpTo(t, ps, e, s) <==> x in counted + {e} { UpToIs(t, ps, e, s, x, xs); }
    NotBesideItself(t, e);
    assert UpTo(t, ps, e, s) == counted + {e} && e !in counted;
  }

  lemma NotBesideItself(t: Tree, e: nat)
    requires t.Valid() && t.Has(e) && t.At(e).hasParent
    ensures e !in Before(t, e) && e !in After(t, e)
  {
    BeforeIs(t, e, e);
    if Precedes(t, e, e) { NotBoth(t, e, e); }
  }

  lemma UpToIs(t: Tree, ps: States, e: nat, s: Simple, x: nat, xs: seq<nat>)
    requires Fits(t, ps) && t.Has(e) && !t.At(e).isText && t.At(e).hasParent && s.Nth? && IsCounted(t, ps, e, e, s)
    requires xs == if s.fromEnd then After(t, e) else Before(t, e)
    ensures x in UpTo(t, ps, e, s) <==> x == e || (x in xs && IsCounted(t, ps, e, x, s))
  {
    hide IsCounted, Before, After;
    BeforeIs(t, e, x);
    if Precedes(t, x, e) { PrecedesIsKid(t, x, e); }
    if Precedes(t, e, x) { PrecedesIsKid(t, e, x); }
    assert e in t.Kids(t.Parent(e));
  }

  lemma {:induction false} CountIsCard(t: Tree, ps: States, e: nat, s: Simple, xs: seq<nat>, counted: set<nat>)
    requires Fits(t, ps) && t.Has(e) && s.Nth? && Distinct(xs) && forall x | x in xs :: t.Has(x)
    requires forall x :: x in counted <==> x in xs && IsCounted(t, ps, e, x, s)
    ensures CountIn(t, ps, e, s, xs) == |counted|
    decreases s, 2, |xs|
  {
    if xs == [] {
      assert counted == {};
    } else {
      var n := |xs| - 1;
      var x := xs[n];
      assert x in xs;
      CountsIs(t, ps, e, x, s);
      assert x !in xs[..n];
      CountIsCard(t, ps, e, s, xs[..n], counted - {x});
    }
  }

  // Matching is the existence of an assignment; so taking the first ancestor or sibling
  // that matches loses nothing.
  lemma {:induction false} SelectMeans(t: Tree, ps: States, e: nat, s: Selector, apply: bool)
    requires Fits(t, ps) && t.Has(e)
    ensures Select(t, ps, e, s, apply).Match? <==> Means(t, ps, e, s, apply)
    ensures apply ==> Select(t, ps, e, s, apply) != Match(true)
    decreases s, e, 2
  {
    if !t.At(e).isText { CompoundMeans(t, ps, e, s.right, 0, apply); }
    if !CompoundHolds(t, ps, e, s.right, apply) {
      assert !Means(t, ps, e, s, apply);
    } else if s.Single? {
      assert Assigned(t, ps, s, First(e), apply);
    } else if !t.At(e).hasParent {
      assert !Means(t, ps, e, s, apply);
    } else {
      var a, found := SearchMeans(t, ps, e, s, apply);
      MeansStep(t, ps, e, s, a, found, apply);
    }
  }

  // Strict matching needs no flag ...
  lemma StrictMeans(t: Tree, ps: States, e: nat, s: Selector)
    requires Fits(t, ps) && t.Has(e)
    ensures Select(t, ps, e, s, true) == if Means(t, ps, e, s, true) then Match(false) else NoMatch
  {
    SelectMeans(t, ps, e, s, true);
  }

  // ... and permissive matching asks the same but for what is taken for granted.
  lemma PermissiveMeans(t: Tree, ps: States, e: nat, s: Selector)
    requires Fits(t, ps) && t.Has(e)
    ensures Select(t, ps, e, s, false).Match? <==> Means(t, ps, e, s, false)
  {
    SelectMeans(t, ps, e, s, false);
  }

  // What a search for the left part comes to.
  ghost predicate Searched(t: Tree, ps: States, e: nat, s: Selector, found: bool, a: nat, apply: bool)
    requires Fits(t, ps) && s.Joined?
  {
    if found then Related(t, s.combinator, a, e) && Means(t, ps, a, s.left, apply)
    else forall x | Related(t, s.combinator, x, e) :: !Means(t, ps, x, s.left, apply)
  }

  // The result of a search, with no flag when all is applied.
  predicate IsFound(f: Found, found: bool, a: nat, apply: bool) {
    if found then f.Found? && f.el == a && (apply ==> !f.pseudo) else f.Nobody?
  }

  lemma {:induction false} SearchMeans(t: Tree, ps: States, e: nat, s: Selector, apply: bool)
    returns (a: nat, found: bool)
    requires Fits(t, ps) && t.Has(e) && s.Joined? && t.At(e).hasParent && !t.At(e).isText
    requires SelectCompound(t, ps, e, s.right, 0, apply).Match?
    requires apply ==> SelectCompound(t, ps, e, s.right, 0, apply) == Match(false)
    ensures Searched(t, ps, e, s, found, a, apply)
    ensures Select(t, ps, e, s, apply).Match? <==> found
    ensures apply ==> Select(t, ps, e, s, apply) != Match(true)
    decreases s, e, 1
  {
    match s.combinator
    case Descendant =>
      AncestorMeans(t, ps, e, s.left, apply);
      var f := FindAncestor(t, ps, e, s.left, apply);
      found, a := f.Found?, if f.Found? then f.el else 0;
    case Child =>
      a := t.Parent(e);
      SelectMeans(t, ps, a, s.left, apply);
      found := Select(t, ps, a, s.left, apply).Match?;
    case Adjacent => a, found := SearchAdjacent(t, ps, e, s, apply);
    case Sibling => a, found := SearchSibling(t, ps, e, s, apply);
  }

  lemma {:induction false} SearchAdjacent(t: Tree, ps: States, e: nat, s: Selector, apply: bool)
    returns (a: nat, found: bool)
    requires Fits(t, ps) && t.Has(e) && s.Joined? && s.combinator == Adjacent && t.At(e).hasParent
    ensures Searched(t, ps, e, s, found, a, apply)
    ensures IsFound(FindAdjacent(t, ps, e, s.left, apply, Before(t, e)), found, a, apply)
    decreases s, e, 0
  {
    var before := Before(t, e);
    forall x ensures Related(t, Adjacent, x, e) <==> before != [] && before[|before| - 1] == x { AdjacentIs(t, e, x); }
    a, found := 0, false;
    if before != [] {
      a := before[|before| - 1];
      assert a in before;
      SelectMeans(t, ps, a, s.left, apply);
      found := Select(t, ps, a, s.left, apply).Match?;
    }
  }

  lemma {:induction false} SearchSibling(t: Tree, ps: States, e: nat, s: Selector, apply: bool)
    returns (a: nat, found: bool)
    requires Fits(t, ps) && t.Has(e) && s.Joined? && s.combinator == Sibling && t.At(e).hasParent
    ensures Searched(t, ps, e, s, found, a, apply)
    ensures IsFound(FindSibling(t, ps, s.left, apply, Before(t, e)), found, a, apply)
    decreases s, e, 0
  {
    var before := Before(t, e);
    SiblingMeans(t, ps, s.left, before, apply);
    forall x ensures Related(t, Sibling, x, e) <==> x in before { BeforeIs(t, e, x); }
    var f := FindSibling(t, ps, s.left, apply, before);
    found := f.Found?;
    a := if found then f.el else 0;
  }

  lemma MeansStep(t: Tree, ps: States, e: nat, s: Selector, a: nat, found: bool, apply: bool)
    requires Fits(t, ps) && s.Joined? && CompoundHolds(t, ps, e, s.right, apply)
    requires Searched(t, ps, e, s, found, a, apply)
    ensures found <==> Means(t, ps, e, s, apply)
  {
    if found {
      var trail :| Assigned(t, ps, s.left, trail, apply) && trail.el == a;
      assert Assigned(t, ps, s, Then(trail, e), apply);
    } else {
      forall trail | Assigned(t, ps, s, trail, apply) ensures trail.el != e {
        assert trail.el == e ==> Related(t, s.combinator, trail.before.el, e);
        assert Means(t, ps, trail.before.el, s.left, apply);
      }
    }
  }

  lemma {:induction false} AncestorMeans(t: Tree, ps: States, e: nat, s: Selector, apply: bool)
    requires Fits(t, ps) && t.Has(e)
    ensures var f := FindAncestor(t, ps, e, s, apply);
            && (f.Found? ==> (apply ==> !f.pseudo) && IsAncestor(t, f.el, e) && Means(t, ps, f.el, s, apply))
            && (f.Nobody? ==> forall x | IsAncestor(t, x, e) :: !Means(t, ps, x, s, apply))
    decreases s, e, 1
  {
    if t.At(e).hasParent {
      var p := t.Parent(e);
      SelectMeans(t, ps, p, s, apply);
      AncestorMeans(t, ps, p, s, apply);
    }
  }

  lemma {:induction false} SiblingMeans(t: Tree, ps: States, s: Selector, before: seq<nat>, apply: bool)
    requires Fits(t, ps) && forall x | x in before :: t.Has(x)
    ensures var f := FindSibling(t, ps, s, apply, before);
            && (f.Found? ==> (apply ==> !f.pseudo) && f.el in before && Means(t, ps, f.el, s, apply))
            && (f.Nobody? ==> forall x | x in before :: !Means(t, ps, x, s, apply))
    decreases s, |t.nodes|, 3, |before|
  {
    if before != [] {
      assert before[|before| - 1] in before;
      SiblingMeans(t, ps, s, before[..|before| - 1], apply);
      SelectMeans(t, ps, before[|before| - 1], s, apply);
    }
  }

  // ------------------------------------------------------- the permissive pass

  // Permissive matching misses no strict match, and without the flag it is one.
  ghost predicate Covers(strict: Result, permissive: Result) {
    && (strict.Match? ==> permissive.Match? && !strict.pseudo)
    && (permissive == Match(false) ==> strict.Match?)
  }

  ghost predicate CoversFound(strict: Found, permissive: Found) {
    && (strict.Found? ==> permissive.Found? && !strict.pseudo)
    && (permissive.Found? && !permissive.pseudo ==> strict.Found?)
  }

  lemma {:induction false} CompoundCovers(t: Tree, ps: States, e: nat, c: Compound, k: nat)
    requires Fits(t, ps) && t.Has(e) && k <= |c.attrs|
    ensures Covers(SelectCompound(t, ps, e, c, k, true), SelectCompound(t, ps, e, c, k, false))
    decreases |c.attrs| - k
  {
    if k < |c.attrs| { CompoundCovers(t, ps, e, c, k + 1); }
  }

  lemma {:induction false} PermissiveCovers(t: Tree, ps: States, e: nat, s: Selector)
    requires Fits(t, ps) && t.Has(e)
    ensures Covers(Select(t, ps, e, s, true), Select(t, ps, e, s, false))
    decreases s, e, 2
  {
    CompoundCovers(t, ps, e, s.right, 0);
    if s.Joined? && t.At(e).hasParent {
      match s.combinator
      case Descendant => AncestorCovers(t, ps, e, s.left);
      case Child => PermissiveCovers(t, ps, t.Parent(e), s.left);
      case Adjacent =>
        AdjacentCovers(t, ps, e, s.left, Before(t, e));
      case Sibling => SiblingCovers(t, ps, s.left, Before(t, e));
    }
  }

  lemma {:induction false} AncestorCovers(t: Tree, ps: States, e: nat, s: Selector)
    requires Fits(t, ps) && t.Has(e)
    ensures CoversFound(FindAncestor(t, ps, e, s, true), FindAncestor(t, ps, e, s, false))
    decreases s, e, 1
  {
    if t.At(e).hasParent {
      PermissiveCovers(t, ps, t.Parent(e), s);
      AncestorCovers(t, ps, t.Parent(e), s);
    }
  }

  lemma {:induction false} AdjacentCovers(t: Tree, ps: States, e: nat, s: Selector, before: seq<nat>)
    requires Fits(t, ps) && forall x | x in before :: t.Has(x)
    ensures CoversFound(FindAdjacent(t, ps, e, s, true, before), FindAdjacent(t, ps, e, s, false, before))
    decreases s, |t.nodes|, 3
  {
    if before != [] {
      assert before[|before| - 1] in before;
      PermissiveCovers(t, ps, before[|before| - 1], s);
    }
  }

  lemma {:induction false} SiblingCovers(t: Tree, ps: States, s: Selector, before: seq<nat>)
    requires Fits(t, ps) && forall x | x in before :: t.Has(x)
    ensures CoversFound(FindSibling(t, ps, s, true, before), FindSibling(t, ps, s, false, before))
    decreases s, |t.nodes|, 3, |before|
  {
    if before != [] {
      assert before[|before| - 1] in before;
      SiblingCovers(t, ps, s, before[..|before| - 1]);
      PermissiveCovers(t, ps, before[|before| - 1], s);
    }
  }

  // A selector with nothing to take for granted is never flagged.
  ghost predicate NothingGranted(s: Selector)
    decreases s
  {
    && (forall k | 0 <= k < |s.right.attrs| :: !Granted(s.right.attrs[k]))
    && (s.Joined? ==> NothingGranted(s.left))
  }

  lemma {:induction false} CompoundUnflagged(t: Tree, ps: States, e: nat, c: Compound, k: nat)
    requires Fits(t, ps) && t.Has(e) && k <= |c.attrs| && forall i | 0 <= i < |c.attrs| :: !Granted(c.attrs[i])
    ensures SelectCompound(t, ps, e, c, k, false) != Match(true)
    decreases |c.attrs| - k
  {
    if k < |c.attrs| { CompoundUnflagged(t, ps, e, c, k + 1); }
  }

  lemma {:induction false} Unflagged(t: Tree, ps: States, e: nat, s: Selector)
    requires Fits(t, ps) && t.Has(e) && NothingGranted(s)
    ensures Select(t, ps, e, s, false) != Match(true)
    decreases s, e, 2
  {
    CompoundUnflagged(t, ps, e, s.right, 0);
    if s.Joined? && t.At(e).hasParent {
      match s.combinator
      case Descendant => AncestorUnflagged(t, ps, e, s.left);
      case Child => Unflagged(t, ps, t.Parent(e), s.left);
      case Adjacent =>
        var before := Before(t, e);
        if before != [] {
          assert before[|before| - 1] in before;
          Unflagged(t, ps, before[|before| - 1], s.left);
        }
      case Sibling => SiblingUnflagged(t, ps, s.left, Before(t, e));
    }
  }

  lemma {:induction false} AncestorUnflagged(t: Tree, ps: States, e: nat, s: Selector)
    requires Fits(t, ps) && t.Has(e) && NothingGranted(s)
    ensures var f := FindAncestor(t, ps, e, s, false); f.Found? ==> !f.pseudo
    decreases s, e, 1
  {
    if t.At(e).hasParent {
      Unflagged(t, ps, t.Parent(e), s);
      AncestorUnflagged(t, ps, t.Parent(e), s);
    }
  }

  lemma {:induction false} SiblingUnflagged(t: Tree, ps: States, s: Selector, before: seq<nat>)
    requires Fits(t, ps) && NothingGranted(s) && forall x | x in before :: t.Has(x)
    ensures var f := FindSibling(t, ps, s, false, before); f.Found? ==> !f.pseudo
    decreases s, |t.nodes|, 3, |before|
  {
    if before != [] {
      assert before[|before| - 1] in before;
      SiblingUnflagged(t, ps, s, before[..|before| - 1]);
      Unflagged(t, ps, before[|before| - 1], s);
    }
  }

  // The permissive pass does not look at the states, so its answer never ages.
  lemma {:induction false} CompoundStable(t: Tree, ps: States, qs: States, e: nat, c: Compound, k: nat)
    requires Fits(t, ps) && Fits(t, qs) && t.Has(e) && k <= |c.attrs|
    ensures SelectCompound(t, ps, e, c, k, false) == SelectCompound(t, qs, e, c, k, false)
    decreases |c.attrs| - k
  {
    if k < |c.attrs| { CompoundStable(t, ps, qs, e, c, k + 1); }
  }

  lemma {:induction false} PermissiveStable(t: Tree, ps: States, qs: States, e: nat, s: Selector)
    requires Fits(t, ps) && Fits(t, qs) && t.Has(e)
    ensures Select(t, ps, e, s, false) == Select(t, qs, e, s, false)
    decreases s, e, 2
  {
    CompoundStable(t, ps, qs, e, s.right, 0);
    if s.Joined? && t.At(e).hasParent {
      match s.combinator
      case Descendant => AncestorStable(t, ps, qs, e, s.left);
      case Child => PermissiveStable(t, ps, qs, t.Parent(e), s.left);
      case Adjacent =>
        AdjacentStable(t, ps, qs, e, s.left, Before(t, e));
      case Sibling => SiblingStable(t, ps, qs, s.left, Before(t, e));
    }
  }

  lemma {:induction false} AncestorStable(t: Tree, ps: States, qs: States, e: nat, s: Selector)
    requires Fits(t, ps) && Fits(t, qs) && t.Has(e)
    ensures FindAncestor(t, ps, e, s, false) == FindAncestor(t, qs, e, s, false)
    decreases s, e, 1
  {
    if t.At(e).hasParent {
      PermissiveStable(t, ps, qs, t.Parent(e), s);
      AncestorStable(t, ps, qs, t.Parent(e), s);
    }
  }

  lemma {:induction false} AdjacentStable(t: Tree, ps: States, qs: States, e: nat, s: Selector, before: seq<nat>)
    requires Fits(t, ps) && Fits(t, qs) && forall x | x in before :: t.Has(x)
    ensures FindAdjacent(t, ps, e, s, false, before) == FindAdjacent(t, qs, e, s, false, before)
    decreases s, |t.nodes|, 3
  {
    if before != [] {
      assert before[|before| - 1] in before;
      PermissiveStable(t, ps, qs, before[|before| - 1], s);
    }
  }

  lemma {:induction false} SiblingStable(t: Tree, ps: States, qs: States, s: Selector, before: seq<nat>)
    requires Fits(t, ps) && Fits(t, qs) && forall x | x in before :: t.Has(x)
    ensures FindSibling(t, ps, s, false, before) == FindSibling(t, qs, s, false, before)
    decreases s, |t.nodes|, 3, |before|
  {
    if before != [] {
      assert before[|before| - 1] in before;
      SiblingStable(t, ps, qs, s, before[..|before| - 1]);
      PermissiveStable(t, ps, qs, before[|before| - 1], s);
    }
  }

  // ---------------------------------------------------------------- nth-child

  // The index test of :nth-child(an+b): some n >= 0 reaches the index.
  lemma StepsIsProgression(idx: nat, a: int, b: int)
    ensures Steps(idx, a, b) <==> exists n: nat :: a * n + b == idx
  {
    if a != 0 {
      if Steps(idx, a, b) {
        var n := (idx - b) / a;
        assert a * n == idx - b;
        assert n >= 0;
      }
      if n: nat :| a * n + b == idx {
        assert idx - b == a * n;
        ProductSign(a, n);
        ProductRem(a, n);
      }
    } else if idx == b {
      assert a * 0 + b == idx;
    }
  }

  lemma ProductSign(a: int, n: nat)
    ensures (a * n) * a >= 0
  {
    assert (a * n) * a == n * (a * a);
  }

  lemma ProductRem(a: int, n: nat)
    requires a != 0
    ensures (a * n) % a == 0
  {
    var q, r := (a * n) / a, (a * n) % a;
    assert a * n == a * q + r;
    assert a * (n - q) == r;
    if n > q { Outgrows(a, n - q); } else if n < q { Outgrows(a, q - n); }
  }

  lemma Outgrows(a: int, k: int)
    requires k >= 1
    ensures if a >= 0 then a * k >= a else a * k <= a
  {
  }
}
