// Selectors over an element tree, matched as the engine matches them: strictly,
// or permissively with pseudo-classes taken for granted and flagged.
module Selectors {

  type Name = nat

  // A sub-selector of a compound.  First and last child are Nth with 0n+1.
  datatype Simple =
    | Class(name: Name)
    | Id(name: Name)
    | Attribute(test: nat)
    | State(name: Name)                       // :hover, :active, ...
    | Lang(lang: Name)
    | OnlyChild(ofType: bool)
    | Nth(a: int, b: int, ofType: bool, fromEnd: bool, of: seq<Selector>)
    | Is(any: seq<Selector>)
    | Not(none: seq<Selector>)

  datatype Compound = Compound(anyTag: bool, tag: Name, attrs: seq<Simple>)

  datatype Combinator = Descendant | Child | Adjacent | Sibling

  datatype Selector =
    | Single(right: Compound)
    | Joined(left: Selector, combinator: Combinator, right: Compound)

  predicate IsPseudoClass(s: Simple) {
    s.State? || s.Lang? || s.OnlyChild? || s.Nth? || s.Is? || s.Not?
  }

  // --------------------------------------------------------------------- tree

  datatype Node = Node(tag: Name, id: Name, classes: set<Name>, attrs: set<nat>, isText: bool,
                       hasParent: bool, parent: nat, children: seq<nat>)

  // Elements are numbered so that a parent comes before its children.
  datatype Tree = Tree(nodes: seq<Node>, lang: Name) {
    predicate Has(e: nat) { e < |nodes| }

    function At(e: nat): Node
      requires Has(e)
    {
      nodes[e]
    }

    ghost predicate NodeValid(e: nat)
      requires Has(e)
    {
      var n := At(e);
      && (n.hasParent ==> n.parent < e && e in At(n.parent).children)
      && (forall i | 0 <= i < |n.children| :: e < n.children[i] && IsChild(n.children[i], e))
      && Distinct(n.children)
      && (n.isText ==> n.children == [])
    }

    ghost predicate IsChild(c: nat, e: nat) {
      Has(c) && At(c).hasParent && At(c).parent == e
    }

    ghost predicate Valid() {
      forall e: nat {:trigger NodeValid(e)} | Has(e) :: NodeValid(e)
    }

    function Parent(e: nat): (p: nat)
      requires Valid() && Has(e) && At(e).hasParent
      ensures p < e && Has(p) && e in At(p).children && IsChild(e, p)
    {
      assert NodeValid(e);
      At(e).parent
    }

    function Kids(e: nat): (cs: seq<nat>)
      requires Valid() && Has(e)
      ensures forall i | 0 <= i < |cs| :: e < cs[i] && Has(cs[i])
      ensures forall c | c in cs :: e < c && IsChild(c, e)
      ensures Distinct(cs)
      ensures cs == At(e).children
    {
      assert NodeValid(e);
      At(e).children
    }
  }

  predicate Distinct(s: seq<nat>) {
    forall i, j | 0 <= i < j < |s| :: s[i] != s[j]
  }

  // Which state pseudo-classes each element has now.
  type States = seq<set<Name>>

  ghost predicate Fits(t: Tree, ps: States) {
    t.Valid() && |ps| == |t.nodes|
  }

  // The element children, in order.
  function Elements(t: Tree, kids: seq<nat>): (r: seq<nat>)
    requires forall i | 0 <= i < |kids| :: t.Has(kids[i])
    ensures forall x | x in r :: t.Has(x)
  {
    if kids == [] then []
    else
      var k := kids[|kids| - 1];
      Elements(t, kids[..|kids| - 1]) + (if t.At(k).isText then [] else [k])
  }

  // ----------------------------------------------------------------- matching

  // select_result without pseudo-elements: no match, or a match with its flag.
  datatype Result = NoMatch | Match(pseudo: bool)

  // The element a search found, with its flag.
  datatype Found = Nobody | Found(el: nat, pseudo: bool)

  function Flagged(r: Result, pseudo: bool): Result
    requires r.Match?
  {
    Match(r.pseudo || pseudo)
  }

  function Select(t: Tree, ps: States, e: nat, s: Selector, apply: bool): Result
    requires Fits(t, ps) && t.Has(e)
    decreases s, e, 2
  {
    if t.At(e).isText then NoMatch
    else
      var right := SelectCompound(t, ps, e, s.right, 0, apply);
      if right.NoMatch? || s.Single? then right
      else if !t.At(e).hasParent then NoMatch
      else
        match s.combinator
        case Descendant =>
          var f := FindAncestor(t, ps, e, s.left, apply);
          if f.Nobody? then NoMatch else Flagged(right, f.pseudo)
        case Child =>
          var r := Select(t, ps, t.Parent(e), s.left, apply);
          if r.NoMatch? then NoMatch else Flagged(right, r.pseudo)
        case Adjacent =>
          var f := FindAdjacent(t, ps, e, s.left, apply, Before(t, e));
          if f.Nobody? then NoMatch else Flagged(right, f.pseudo)
        case Sibling =>
          var f := FindSibling(t, ps, s.left, apply, Before(t, e));
          if f.Nobody? then NoMatch else Flagged(right, f.pseudo)
  }

  // The nearest ancestor that matches.
  function FindAncestor(t: Tree, ps: States, e: nat, s: Selector, apply: bool): Found
    requires Fits(t, ps) && t.Has(e)
    decreases s, e, 1
  {
    if !t.At(e).hasParent then Nobody
    else
      var p := t.Parent(e);
      var r := Select(t, ps, p, s, apply);
      if r.Match? then Found(p, r.pseudo) else FindAncestor(t, ps, p, s, apply)
  }

  // The elements before `e` under its parent.
  function Before(t: Tree, e: nat): (r: seq<nat>)
    requires t.Valid() && t.Has(e) && t.At(e).hasParent
    ensures forall x | x in r :: t.Has(x)
  {
    Elements(t, t.Kids(t.Parent(e))[..IndexOf(t.Kids(t.Parent(e)), e)])
  }

  function After(t: Tree, e: nat): (r: seq<nat>)
    requires t.Valid() && t.Has(e) && t.At(e).hasParent
    ensures forall x | x in r :: t.Has(x)
  {
    Elements(t, t.Kids(t.Parent(e))[IndexOf(t.Kids(t.Parent(e)), e) + 1..])
  }

  function IndexOf(s: seq<nat>, x: nat): (i: nat)
    requires x in s
    ensures i < |s| && s[i] == x
  {
    if s[0] == x then 0 else 1 + IndexOf(s[1..], x)
  }

  // The element just before, if it matches.
  function FindAdjacent(t: Tree, ps: States, e: nat, s: Selector, apply: bool, before: seq<nat>): Found
    requires Fits(t, ps) && forall x | x in before :: t.Has(x)
    decreases s, |t.nodes|, 3
  {
    if before == [] then Nobody
    else
      var x := before[|before| - 1];
      var r := Select(t, ps, x, s, apply);
      if r.Match? then Found(x, r.pseudo) else Nobody
  }

  // The first of the elements before that matches.
  function FindSibling(t: Tree, ps: States, s: Selector, apply: bool, before: seq<nat>): Found
    requires Fits(t, ps) && forall x | x in before :: t.Has(x)
    decreases s, |t.nodes|, 3, |before|
  {
    if before == [] then Nobody
    else
      var f := FindSibling(t, ps, s, apply, before[..|before| - 1]);
      if f.Found? then f
      else
        var x := before[|before| - 1];
        var r := Select(t, ps, x, s, apply);
        if r.Match? then Found(x, r.pseudo) else Nobody
  }

  // The compound's sub-selectors from the k-th on.
  function SelectCompound(t: Tree, ps: States, e: nat, c: Compound, k: nat, apply: bool): Result
    requires Fits(t, ps) && t.Has(e) && k <= |c.attrs|
    decreases c, |c.attrs| - k
  {
    if !c.anyTag && c.tag != t.At(e).tag then NoMatch
    else if k == |c.attrs| then Match(false)
    else
      var s := c.attrs[k];
      if IsPseudoClass(s) && !apply then
        var r := SelectCompound(t, ps, e, c, k + 1, apply);
        if r.NoMatch? then NoMatch else Match(true)
      else if !Holds(t, ps, e, s) then NoMatch
      else SelectCompound(t, ps, e, c, k + 1, apply)
  }

  // One sub-selector, pseudo-classes included.
  predicate Holds(t: Tree, ps: States, e: nat, s: Simple)
    requires Fits(t, ps) && t.Has(e)
    decreases s, 2
  {
    var n := t.At(e);
    match s
    case Class(c) => c in n.classes
    case Id(id) => id == n.id
    case Attribute(test) => test in n.attrs
    case State(c) => c in ps[e]
    case Lang(l) => l == t.lang
    case OnlyChild(ofType) => n.hasParent && IsOnlyChild(t, e, ofType)
    case Nth(a, b, ofType, fromEnd, of) =>
      n.hasParent && !(a == 0 && b == 0) && Counts(t, ps, e, e, s) &&
      Steps(1 + CountIn(t, ps, e, s, if fromEnd then After(t, e) else Before(t, e)), a, b)
    case Is(any) => exists i | 0 <= i < |any| :: Select(t, ps, e, any[i], true).Match?
    case Not(none) => !exists i | 0 <= i < |none| :: Select(t, ps, e, none[i], true).Match?
  }

  // Whether sibling `x` is counted for `e` by an Nth sub-selector.
  predicate Counts(t: Tree, ps: States, e: nat, x: nat, s: Simple)
    requires Fits(t, ps) && t.Has(e) && t.Has(x) && s.Nth?
    decreases s, 0
  {
    || (!s.ofType && s.of == [])
    || (s.ofType && t.At(x).tag == t.At(e).tag)
    || (exists i | 0 <= i < |s.of| :: Select(t, ps, x, s.of[i], true).Match?)
  }

  function CountIn(t: Tree, ps: States, e: nat, s: Simple, xs: seq<nat>): nat
    requires Fits(t, ps) && t.Has(e) && s.Nth? && forall x | x in xs :: t.Has(x)
    decreases s, 1, |xs|
  {
    if xs == [] then 0
    else
      CountIn(t, ps, e, s, xs[..|xs| - 1]) + (if Counts(t, ps, e, xs[|xs| - 1], s) then 1 else 0)
  }

  // The index test, with the remainder of the source's truncating division.
  predicate Steps(idx: nat, a: int, b: int) {
    if a != 0 then (idx - b) * a >= 0 && Rem(idx - b, a) == 0 else idx == b
  }

  function Rem(x: int, y: int): int
    requires y != 0
  {
    var r := x % y;
    if x < 0 && r != 0 then r - (if y < 0 then -y else y) else r
  }

  predicate IsOnlyChild(t: Tree, e: nat, ofType: bool)
    requires t.Valid() && t.Has(e) && t.At(e).hasParent
  {
    var kids := Elements(t, t.Kids(t.Parent(e)));
    forall i, j | 0 <= i < j < |kids| ::
      ofType && !(SameTag(t, kids[i], e) && SameTag(t, kids[j], e))
  }

  predicate SameTag(t: Tree, x: nat, e: nat) {
    t.Has(x) && t.Has(e) && t.At(x).tag == t.At(e).tag
  }
}
