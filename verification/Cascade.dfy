// Declarations, the cascade, and the style an element gets from the sheets.
module Cascade {
  import opened Selectors
  import opened SelectorMeaning
  import opened SelectorLaws

  datatype Property = Property(value: int, important: bool)

  type Style = map<Name, Property>

  datatype Rule = Rule(selector: Selector, style: Style, media: bool)

  // One declaration: an important one only gives way to an important one.
  function AddParsed(st: Style, name: Name, p: Property): Style {
    if name in st && st[name].important && !p.important then st else st[name := p]
  }

  // All declarations of a rule at once.
  function Combine(st: Style, src: Style): Style {
    map name | name in st.Keys + src.Keys ::
      if name in src then AddParsed(st, name, src[name])[name] else st[name]
  }

  // Adding a rule's declarations one by one, in any order.
  function AddAll(st: Style, src: Style, order: seq<Name>): Style
    requires forall name | name in order :: name in src
  {
    if order == [] then st
    else
      var name := order[|order| - 1];
      AddParsed(AddAll(st, src, order[..|order| - 1]), name, src[name])
  }

  lemma {:induction false} AddAllAt(st: Style, src: Style, order: seq<Name>, name: Name)
    requires forall x | x in order :: x in src
    requires forall i, j | 0 <= i < j < |order| :: order[i] != order[j]
    ensures name in order ==>
              name in AddAll(st, src, order) && AddAll(st, src, order)[name] == AddParsed(st, name, src[name])[name]
    ensures name !in order ==>
              (name in AddAll(st, src, order) <==> name in st) &&
              (name in st ==> AddAll(st, src, order)[name] == st[name])
  {
    if order != [] {
      var n := |order| - 1;
      AddAllAt(st, src, order[..n], name);
      if name in order && name != order[n] { assert name in order[..n]; }
      assert order[n] !in order[..n];
    }
  }

  // The order in which a rule's declarations are added does not matter.
  lemma CombineAnyOrder(st: Style, src: Style, order: seq<Name>)
    requires forall name :: name in order <==> name in src
    requires forall i, j | 0 <= i < j < |order| :: order[i] != order[j]
    ensures AddAll(st, src, order) == Combine(st, src)
  {
    var a, c := AddAll(st, src, order), Combine(st, src);
    forall name ensures name in a <==> name in c { AddAllAt(st, src, order, name); }
    forall name | name in a ensures a[name] == c[name] { AddAllAt(st, src, order, name); }
  }

  // A style, overwritten in place as declarations are added.
  class StyleProperties {
    var properties: Style

    constructor ()
      ensures properties == map[]
    {
      properties := map[];
    }

    method AddParsedProperty(name: Name, p: Property)
      modifies this
      ensures properties == AddParsed(old(properties), name, p)
    {
      if name in properties {
        if !properties[name].important || (p.important && properties[name].important) {
          properties := properties[name := p];
        }
      } else {
        properties := properties[name := p];
      }
    }

    // Adds the other style's declarations, in whatever order its map yields them.
    method CombineWith(src: Style)
      modifies this
      ensures properties == Combine(old(properties), src)
    {
      hide HalfCombined, AddParsed, Combine;
      ghost var st := properties;
      var rest := src.Keys;
      CombineStart(st, src);
      while rest != {}
        invariant rest <= src.Keys && HalfCombined(st, src, rest, properties)
        decreases |rest|
      {
        var name :| name in rest;
        CombineStep(st, src, rest, properties, name);
        AddParsedProperty(name, src[name]);
        rest := rest - {name};
      }
      CombineEnd(st, src, properties);
    }
  }

  // Every declaration but those of `rest` has been added.
  ghost predicate HalfCombined(st: Style, src: Style, rest: set<Name>, now: Style) {
    && (forall name :: name in now <==> name in st || (name in src && name !in rest))
    && forall name | name in now ::
         now[name] == if name in src && name !in rest then AddParsed(st, name, src[name])[name] else st[name]
  }

  lemma CombineStart(st: Style, src: Style)
    ensures HalfCombined(st, src, src.Keys, st)
  {
  }

  lemma CombineStep(st: Style, src: Style, rest: set<Name>, now: Style, name: Name)
    requires HalfCombined(st, src, rest, now) && rest <= src.Keys && name in rest
    ensures HalfCombined(st, src, rest - {name}, AddParsed(now, name, src[name]))
  {
  }

  lemma CombineEnd(st: Style, src: Style, now: Style)
    requires HalfCombined(st, src, {}, now)
    ensures now == Combine(st, src)
  {
    var c := Combine(st, src);
    assert forall name :: name in c <==> name in st || name in src;
    assert forall name | name in c :: now[name] == c[name];
  }

  // Styles applied one after the other.
  function Fold(st: Style, styles: seq<Style>): Style {
    if styles == [] then st else Combine(Fold(st, styles[..|styles| - 1]), styles[|styles| - 1])
  }

  // Which declaration wins: the last important one, else the last one.
  ghost predicate Wins(styles: seq<Style>, name: Name, k: nat) {
    && k < |styles| && name in styles[k]
    && if styles[k][name].important
       then forall j | k < j < |styles| && name in styles[j] :: !styles[j][name].important
       else forall j | 0 <= j < |styles| && name in styles[j] :: j <= k && !styles[j][name].important
  }

  lemma CombineAt(st: Style, src: Style, name: Name)
    ensures name in Combine(st, src) <==> name in st || name in src
    ensures name in src ==>
              Combine(st, src)[name] ==
              if name in st && st[name].important && !src[name].important then st[name] else src[name]
    ensures name in st && name !in src ==> Combine(st, src)[name] == st[name]
  {
  }

  lemma {:induction false} FoldWinner(styles: seq<Style>, name: Name) returns (k: nat)
    ensures name in Fold(map[], styles) <==> exists j | 0 <= j < |styles| :: name in styles[j]
    ensures name in Fold(map[], styles) ==> Wins(styles, name, k) && Fold(map[], styles)[name] == styles[k][name]
  {
    hide Combine;
    k := 0;
    if styles != [] {
      var n := |styles| - 1;
      var before := Fold(map[], styles[..n]);
      CombineAt(before, styles[n], name);
      k := FoldWinner(styles[..n], name);
      if name in styles[n] {
        if !(name in before && before[name].important && !styles[n][name].important) { k := n; }
      } else if name in before {
        assert styles[..n][k] == styles[k];
      }
    }
  }

  // ------------------------------------------------------- an element's style

  predicate Applies(t: Tree, ps: States, e: nat, r: Rule)
    requires Fits(t, ps) && t.Has(e)
  {
    r.media && Select(t, ps, e, r.selector, true).Match?
  }

  // The definition: try every rule again, in order.
  function Full(t: Tree, ps: States, e: nat, st: Style, rules: seq<Rule>): Style
    requires Fits(t, ps) && t.Has(e)
  {
    if rules == [] then st
    else
      var r := rules[|rules| - 1];
      var before := Full(t, ps, e, st, rules[..|rules| - 1]);
      if Applies(t, ps, e, r) then Combine(before, r.style) else before
  }

  // The styles of the rules whose selector means the element, in order.
  ghost function MeantStyles(t: Tree, ps: States, e: nat, rules: seq<Rule>): seq<Style>
    requires Fits(t, ps) && t.Has(e)
  {
    if rules == [] then []
    else
      var r := rules[|rules| - 1];
      MeantStyles(t, ps, e, rules[..|rules| - 1]) +
      (if r.media && Means(t, ps, e, r.selector, true) then [r.style] else [])
  }

  lemma {:induction false} FullIsFold(t: Tree, ps: States, e: nat, st: Style, rules: seq<Rule>)
    requires Fits(t, ps) && t.Has(e)
    ensures Full(t, ps, e, st, rules) == Fold(st, MeantStyles(t, ps, e, rules))
  {
    if rules != [] {
      var n := |rules| - 1;
      var styles := MeantStyles(t, ps, e, rules[..n]);
      FullIsFold(t, ps, e, st, rules[..n]);
      hide Select, Combine;
      StrictMeans(t, ps, e, rules[n].selector);
      if Applies(t, ps, e, rules[n]) {
        assert (styles + [rules[n].style])[..|styles|] == styles;
      } else {
        assert styles + [] == styles;
      }
    }
  }

  predicate Possible(t: Tree, ps: States, e: nat, r: Rule)
    requires Fits(t, ps) && t.Has(e)
  {
    Select(t, ps, e, r.selector, false).Match?
  }

  // The rules an element remembers: those the permissive pass let through.
  function Remembered(t: Tree, ps: States, e: nat, rules: seq<Rule>): seq<Rule>
    requires Fits(t, ps) && t.Has(e)
  {
    if rules == [] then []
    else
      var r := rules[|rules| - 1];
      Remembered(t, ps, e, rules[..|rules| - 1]) + (if Possible(t, ps, e, r) then [r] else [])
  }

  // A remembered rule and whether it was applied last time.
  datatype Used = Used(rule: Rule, used: bool)

  function Marked(t: Tree, ps: States, e: nat, rules: seq<Rule>): (us: seq<Used>)
    requires Fits(t, ps) && t.Has(e)
    ensures |us| == |rules|
  {
    seq(|rules|, i requires 0 <= i < |rules| => Used(rules[i], Applies(t, ps, e, rules[i])))
  }

  function Rules(us: seq<Used>): (rules: seq<Rule>)
    ensures |rules| == |us|
  {
    seq(|us|, i requires 0 <= i < |us| => us[i].rule)
  }

  // What the marks say the style is.
  function FromMarks(us: seq<Used>): Style {
    if us == [] then map[]
    else
      var u := us[|us| - 1];
      var before := FromMarks(us[..|us| - 1]);
      if u.used then Combine(before, u.rule.style) else before
  }

  // Remembering loses nothing ...
  lemma {:induction false} RememberedSuffices(t: Tree, ps: States, e: nat, st: Style, rules: seq<Rule>)
    requires Fits(t, ps) && t.Has(e)
    ensures Full(t, ps, e, st, Remembered(t, ps, e, rules)) == Full(t, ps, e, st, rules)
  {
    if rules != [] {
      var n := |rules| - 1;
      var kept := Remembered(t, ps, e, rules[..n]);
      RememberedSuffices(t, ps, e, st, rules[..n]);
      ImpossibleStays(t, ps, e, rules[n]);
      hide Possible, Applies, Combine;
      if Possible(t, ps, e, rules[n]) {
        FullMore(t, ps, e, st, kept, rules[n]);
      } else {
        assert kept + [] == kept;
      }
    }
  }

  lemma ImpossibleStays(t: Tree, ps: States, e: nat, r: Rule)
    requires Fits(t, ps) && t.Has(e)
    ensures Applies(t, ps, e, r) ==> Possible(t, ps, e, r)
  {
    PermissiveCovers(t, ps, e, r.selector);
  }

  lemma FullMore(t: Tree, ps: States, e: nat, st: Style, rules: seq<Rule>, r: Rule)
    requires Fits(t, ps) && t.Has(e)
    ensures Full(t, ps, e, st, rules + [r]) ==
            var before := Full(t, ps, e, st, rules); if Applies(t, ps, e, r) then Combine(before, r.style) else before
  {
    hide Applies, Combine;
    assert (rules + [r])[..|rules|] == rules;
  }

  // ... and never ages.
  lemma {:induction false} RememberedStable(t: Tree, ps: States, qs: States, e: nat, rules: seq<Rule>)
    requires Fits(t, ps) && Fits(t, qs) && t.Has(e)
    ensures Remembered(t, ps, e, rules) == Remembered(t, qs, e, rules)
  {
    if rules != [] {
      var n := |rules| - 1;
      RememberedStable(t, ps, qs, e, rules[..n]);
      PermissiveStable(t, ps, qs, e, rules[n].selector);
    }
  }

  lemma {:induction false} RememberedConcat(t: Tree, ps: States, e: nat, a: seq<Rule>, b: seq<Rule>)
    requires Fits(t, ps) && t.Has(e)
    ensures Remembered(t, ps, e, a + b) == Remembered(t, ps, e, a) + Remembered(t, ps, e, b)
  {
    if b == [] {
      assert a + b == a;
    } else {
      var n := |b| - 1;
      RememberedConcat(t, ps, e, a, b[..n]);
      assert (a + b)[..|a| + n] == a + b[..n];
    }
  }

  // Marks that are right now add the full style of their rules.
  lemma {:induction false} MarksAppend(t: Tree, ps: States, e: nat, us: seq<Used>, rules: seq<Rule>)
    requires Fits(t, ps) && t.Has(e)
    ensures FromMarks(us + Marked(t, ps, e, rules)) == Full(t, ps, e, FromMarks(us), rules)
  {
    var ms := Marked(t, ps, e, rules);
    if rules == [] {
      assert us + ms == us;
    } else {
      var n := |rules| - 1;
      MarksAppend(t, ps, e, us, rules[..n]);
      assert ms[..n] == Marked(t, ps, e, rules[..n]);
      assert (us + ms)[..|us| + n] == us + ms[..n];
    }
  }

  lemma MarksAreFull(t: Tree, ps: States, e: nat, rules: seq<Rule>)
    requires Fits(t, ps) && t.Has(e)
    ensures FromMarks(Marked(t, ps, e, rules)) == Full(t, ps, e, map[], rules)
  {
    MarksAppend(t, ps, e, [], rules);
    assert [] + Marked(t, ps, e, rules) == Marked(t, ps, e, rules);
  }

  // The tag and first-class test turns away no rule the permissive pass lets in.
  predicate Prefiltered(t: Tree, e: nat, s: Selector)
    requires t.Has(e)
  {
    || (!s.right.anyTag && s.right.tag != t.At(e).tag)
    || (s.right.attrs != [] && s.right.attrs[0].Class? && s.right.attrs[0].name !in t.At(e).classes)
  }

  lemma PrefilterIsSafe(t: Tree, ps: States, e: nat, s: Selector)
    requires Fits(t, ps) && t.Has(e) && Prefiltered(t, e, s)
    ensures Select(t, ps, e, s, false).NoMatch?
  {
    var c := s.right;
    if c.attrs != [] && c.attrs[0].Class? && c.attrs[0].name !in t.At(e).classes {
      assert !IsPseudoClass(c.attrs[0]) && !Holds(t, ps, e, c.attrs[0]);
    }
    assert SelectCompound(t, ps, e, c, 0, false).NoMatch?;
  }
}
