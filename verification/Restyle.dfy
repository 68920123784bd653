// The document's styles: applied once from the sheets, then kept up to date from
// what each element remembers as hover and other states change.
module Restyle {
  import opened Selectors
  import opened SelectorLaws
  import opened Cascade

  // --------------------------------------------------------------- subtrees

  ghost predicate Inside(t: Tree, e: nat, x: nat)
    requires t.Valid()
    decreases x
  {
    t.Has(x) && (x == e || (t.At(x).hasParent && Inside(t, e, t.Parent(x))))
  }

  // In the subtree of one of the first `i` children.
  ghost predicate Under(t: Tree, e: nat, i: nat, x: nat)
    requires t.Valid() && t.Has(e) && i <= |t.Kids(e)|
  {
    exists j | 0 <= j < i :: Inside(t, t.Kids(e)[j], x)
  }

  lemma {:induction false} InsideTrans(t: Tree, e: nat, c: nat, x: nat)
    requires t.Valid() && Inside(t, c, x) && t.Has(c) && t.At(c).hasParent && t.Parent(c) == e
    ensures Inside(t, e, x) && x > e
    decreases x
  {
    if x != c { InsideTrans(t, e, c, t.Parent(x)); }
  }

  lemma {:induction false} InsideSplit(t: Tree, e: nat, x: nat)
    requires t.Valid() && t.Has(e)
    ensures Inside(t, e, x) <==> x == e || Under(t, e, |t.Kids(e)|, x)
    decreases x
  {
    if t.Has(x) && x != e && t.At(x).hasParent && Inside(t, e, t.Parent(x)) {
      var p := t.Parent(x);
      if p == e {
        var j :| 0 <= j < |t.Kids(e)| && t.Kids(e)[j] == x;
        assert Inside(t, t.Kids(e)[j], x);
      } else {
        InsideSplit(t, e, p);
        var j :| 0 <= j < |t.Kids(e)| && Inside(t, t.Kids(e)[j], p);
        assert Inside(t, t.Kids(e)[j], x);
      }
    }
    if Under(t, e, |t.Kids(e)|, x) {
      var j :| 0 <= j < |t.Kids(e)| && Inside(t, t.Kids(e)[j], x);
      assert t.Kids(e)[j] in t.Kids(e);
      InsideTrans(t, e, t.Kids(e)[j], x);
    }
  }

  // Subtrees of different children do not meet.
  lemma {:induction false} InsideDisjoint(t: Tree, e: nat, i: nat, j: nat, x: nat)
    requires t.Valid() && t.Has(e) && i < |t.Kids(e)| && j < |t.Kids(e)|
    requires Inside(t, t.Kids(e)[i], x) && Inside(t, t.Kids(e)[j], x)
    ensures i == j
    decreases x
  {
    var a, b := t.Kids(e)[i], t.Kids(e)[j];
    assert a in t.Kids(e) && b in t.Kids(e);
    if x == a && x != b {
      assert Inside(t, b, e);
      InsideTrans(t, e, b, e);
    } else if x == b && x != a {
      assert Inside(t, a, e);
      InsideTrans(t, e, a, e);
    } else if x != a {
      InsideDisjoint(t, e, i, j, t.Parent(x));
    }
  }

  datatype Event = Sheet(rules: seq<Rule>) | State(el: nat, cls: Name, add: bool) | Changes | Refresh

  // The rules of all sheets that arrived, in order.
  function SheetsOf(events: seq<Event>): seq<Rule> {
    if events == [] then []
    else
      var n := |events| - 1;
      SheetsOf(events[..n]) + (if events[n].Sheet? then events[n].rules else [])
  }

  // The states all state changes together leave.
  function StatesAfter(ps: States, events: seq<Event>): (r: States)
    ensures |r| == |ps|
  {
    if events == [] then ps
    else
      var n := |events| - 1;
      var before := StatesAfter(ps, events[..n]);
      match events[n]
      case State(e, cls, add) =>
        if e >= |before| then before
        else before[e := if add then before[e] + {cls} else before[e] - {cls}]
      case Sheet(_) => before
      case Changes => before
      case Refresh => before
  }

  // No state changed since the document was last brought up to date.
  predicate Settled(events: seq<Event>) {
    events != [] &&
    var n := |events| - 1;
    match events[n]
    case Changes => true
    case Refresh => true
    case Sheet(_) => Settled(events[..n])
    case State(_, _, _) => false
  }

  class Document {
    const tree: Tree
    var states: States
    var style: seq<Style>
    var used: seq<seq<Used>>
    ghost var sheet: seq<Rule>    // every rule applied so far, in order

    ghost predicate Shaped()
      reads this
    {
      Fits(tree, states) && |style| == |used| == |tree.nodes| && tree.Has(0) && !tree.At(0).isText
    }

    // The elements that sheets reach.
    ghost predicate Reached(x: nat)
      requires tree.Valid()
    {
      Inside(tree, 0, x) && !tree.At(x).isText
    }

    // Each element remembers the rules that can ever match it, and its style is
    // the one its marks spell out.
    ghost predicate Remembers(x: nat)
      requires Shaped() && tree.Has(x)
      reads this
    {
      && Rules(used[x]) == Remembered(tree, states, x, sheet)
      && style[x] == FromMarks(used[x])
      && Honest(used[x])
    }

    // What every refresh is measured against: the style that applying all sheets
    // from scratch would give now, with every mark right.
    ghost predicate Current(x: nat)
      requires Shaped() && tree.Has(x)
      reads this
    {
      UpToDate(tree, states, sheet, x, style[x], used[x])
    }

    // No mark is out of date.
    ghost predicate Fresh(x: nat)
      requires Shaped() && tree.Has(x)
      reads this
    {
      !Stale(tree, states, x, used[x])
    }

    ghost predicate Valid()
      reads this
    {
      Shaped() && forall x | Reached(x) :: Remembers(x)
    }

    constructor (tree: Tree)
      requires tree.Valid() && tree.Has(0) && !tree.At(0).isText
      ensures Valid() && this.tree == tree && sheet == []
    {
      this.tree := tree;
      states := seq(|tree.nodes|, _ => {});
      style := seq(|tree.nodes|, _ => map[]);
      used := seq(|tree.nodes|, _ => []);
      sheet := [];
    }

    // ----------------------------------------------------------- from the sheets

    // The sheet's rules on one element.
    method ApplyOwn(e: nat, rules: seq<Rule>)
      requires Shaped() && tree.Has(e)
      modifies `style, `used
      ensures style == old(style)[e := Full(tree, states, e, old(style[e]), rules)]
      ensures used == old(used)[e := old(used[e]) + Marked(tree, states, e, Remembered(tree, states, e, rules))]
    {
      ghost var st, us := style[e], used[e];
      assert us + [] == us && used == used[e := us] && rules[..0] == [];
      for i := 0 to |rules|
        invariant Shaped()
        invariant style == old(style)[e := Full(tree, states, e, st, rules[..i])]
        invariant used == old(used)[e := us + Marked(tree, states, e, Remembered(tree, states, e, rules[..i]))]
      {
        ApplyOne(e, rules[i]);
        OneMore(tree, states, e, st, us, rules, i);
      }
      assert rules[..|rules|] == rules;
    }

    method ApplyOne(e: nat, r: Rule)
      requires Shaped() && tree.Has(e)
      modifies `style, `used
      ensures style == old(style)[e := if Applies(tree, states, e, r) then Combine(old(style[e]), r.style)
                                       else old(style[e])]
      ensures used == old(used)[e := old(used[e]) +
                if Possible(tree, states, e, r) then [Used(r, Applies(tree, states, e, r))] else []]
    {
      PermissiveCovers(tree, states, e, r.selector);
      if Prefiltered(tree, e, r.selector) {
        PrefilterIsSafe(tree, states, e, r.selector);
        assert used[e] + [] == used[e];
        return;
      }
      var apply := Select(tree, states, e, r.selector, false);
      if apply.Match? {
        var us := Used(r, false);
        if r.media {
          if apply.pseudo {
            if Select(tree, states, e, r.selector, true).Match? {
              style := style[e := Combine(style[e], r.style)];
              us := us.(used := true);
            }
          } else {
            style := style[e := Combine(style[e], r.style)];
            us := us.(used := true);
          }
        }
        used := used[e := used[e] + [us]];
      } else {
        assert used[e] + [] == used[e];
      }
    }

    // The sheet's rules on an element and everything below it.
    method ApplyStylesheet(e: nat, rules: seq<Rule>)
      requires Shaped() && tree.Has(e) && !tree.At(e).isText
      modifies `style, `used
      ensures Shaped()
      ensures forall x: nat | tree.Has(x) ::
                if Inside(tree, e, x) && !tree.At(x).isText
                then Sheeted(tree, states, x, rules, old(style[x]), old(used[x]), style[x], used[x])
                else style[x] == old(style[x]) && used[x] == old(used[x])
      decreases |tree.nodes| - e
    {
      ghost var style0, used0 := style, used;
      ApplyOwn(e, rules);
      var kids := tree.Kids(e);
      for i := 0 to |kids|
        invariant Shaped()
        invariant forall x: nat | tree.Has(x) ::
                    if (x == e || Under(tree, e, i, x)) && !tree.At(x).isText
                    then Sheeted(tree, states, x, rules, style0[x], used0[x], style[x], used[x])
                    else style[x] == style0[x] && used[x] == used0[x]
      {
        ghost var style1, used1 := style, used;
        if !tree.At(kids[i]).isText {
          ApplyStylesheet(kids[i], rules);
        }
        forall x: nat | tree.Has(x)
          ensures if (x == e || Under(tree, e, i + 1, x)) && !tree.At(x).isText
                  then Sheeted(tree, states, x, rules, style0[x], used0[x], style[x], used[x])
                  else style[x] == style0[x] && used[x] == used0[x]
        {
          UnderStep(tree, e, i, x);
        }
      }
      forall x: nat | tree.Has(x) ensures Inside(tree, e, x) <==> x == e || Under(tree, e, |kids|, x) {
        InsideSplit(tree, e, x);
      }
    }

    // A sheet applied to the whole document.
    method AddSheet(rules: seq<Rule>)
      requires Valid()
      modifies this
      ensures Valid() && sheet == old(sheet) + rules && states == old(states)
      ensures forall x: nat | Reached(x) && old(Fresh(x)) :: Fresh(x)
    {
      ApplyStylesheet(0, rules);
      ghost var before := old(sheet);
      sheet := before + rules;
      forall x: nat | Reached(x) ensures Remembers(x) && (old(Fresh(x)) ==> Fresh(x)) {
        assert tree.Has(x) && Inside(tree, 0, x);
        SheetedRemembers(tree, states, x, before, rules, old(used[x]));
      }
    }

    // ----------------------------------------------------------------- refreshing

    // Drops the element's style and applies again what it remembers.
    method RefreshOwn(e: nat)
      requires Shaped() && tree.Has(e)
      modifies `style, `used
      ensures used == old(used)[e := Marked(tree, states, e, Rules(old(used[e])))]
      ensures style == old(style)[e := Full(tree, states, e, map[], Rules(old(used[e])))]
    {
      ghost var us := used[e];
      ghost var rules := Rules(us);
      style := style[e := map[]];
      RefreshStart(tree, states, e, us);
      for i := 0 to |used[e]|
        invariant Shaped() && |used[e]| == |us|
        invariant style == old(style)[e := Full(tree, states, e, map[], rules[..i])]
        invariant used == old(used)[e := HalfMarked(tree, states, e, us, i)]
      {
        RefreshStep(tree, states, e, us, i);
        RefreshOne(e, i);
      }
      assert rules[..|rules|] == rules;
      assert HalfMarked(tree, states, e, us, |us|) == Marked(tree, states, e, rules);
    }

    method RefreshOne(e: nat, i: nat)
      requires Shaped() && tree.Has(e) && i < |used[e]|
      modifies `style, `used
      ensures var r := old(used[e][i].rule);
              && used == old(used)[e := old(used[e])[i := Used(r, Applies(tree, states, e, r))]]
              && style == old(style)[e := if Applies(tree, states, e, r) then Combine(old(style[e]), r.style)
                                          else old(style[e])]
    {
      var usel := used[e][i].(used := false);
      var r := usel.rule;
      PermissiveCovers(tree, states, e, r.selector);
      if r.media {
        var apply := Select(tree, states, e, r.selector, false);
        if apply.Match? {
          if apply.pseudo {
            if Select(tree, states, e, r.selector, true).Match? {
              style := style[e := Combine(style[e], r.style)];
              usel := usel.(used := true);
            }
          } else {
            style := style[e := Combine(style[e], r.style)];
            usel := usel.(used := true);
          }
        }
      }
      used := used[e := used[e][i := usel]];
    }

    // Children first, then the element itself.
    method RefreshStyles(e: nat)
      requires Shaped() && tree.Has(e) && !tree.At(e).isText
      modifies `style, `used
      ensures Shaped()
      ensures forall x: nat | tree.Has(x) ::
                if Inside(tree, e, x) && !tree.At(x).isText
                then Refreshed(tree, states, x, old(used[x]), style[x], used[x])
                else style[x] == old(style[x]) && used[x] == old(used[x])
      decreases |tree.nodes| - e
    {
      ghost var style0, used0 := style, used;
      var kids := tree.Kids(e);
      for i := 0 to |kids|
        invariant Shaped()
        invariant forall x: nat | tree.Has(x) ::
                    if Under(tree, e, i, x) && !tree.At(x).isText
                    then Refreshed(tree, states, x, used0[x], style[x], used[x])
                    else style[x] == style0[x] && used[x] == used0[x]
      {
        ghost var style1, used1 := style, used;
        if !tree.At(kids[i]).isText {
          RefreshStyles(kids[i]);
        }
        forall x: nat | tree.Has(x)
          ensures if Under(tree, e, i + 1, x) && !tree.At(x).isText
                  then Refreshed(tree, states, x, used0[x], style[x], used[x])
                  else style[x] == style0[x] && used[x] == used0[x]
        {
          UnderStep(tree, e, i, x);
        }
      }
      NotUnderItself(tree, e, |kids|);
      RefreshOwn(e);
      forall x: nat | tree.Has(x) ensures Inside(tree, e, x) <==> x == e || Under(tree, e, |kids|, x) {
        InsideSplit(tree, e, x);
      }
    }

    // Refreshing the document gives every element the style it would get from
    // scratch, whatever states changed before.
    method RefreshAll()
      requires Valid()
      modifies `style, `used
      ensures Valid()
      ensures forall x: nat | Reached(x) :: Current(x)
    {
      RefreshStyles(0);
      forall x: nat | Reached(x) ensures Remembers(x) && Current(x) {
        assert tree.Has(x) && Inside(tree, 0, x) && old(Remembers(x));
        RefreshedRemembers(tree, states, x, sheet, old(used[x]));
      }
    }

    // Whether some mark of the element is out of date.
    method RequiresStylesUpdate(e: nat) returns (r: bool)
      requires Shaped() && tree.Has(e) && Honest(used[e])
      ensures r <==> !Fresh(e)
    {
      ghost var rules := Rules(used[e]);
      for i := 0 to |used[e]|
        invariant used[e][..i] == Marked(tree, states, e, rules)[..i]
      {
        var u := used[e][i];
        assert u.used ==> u.rule.media;
        if u.rule.media {
          var res := Select(tree, states, e, u.rule.selector, true);
          StrictMeans(tree, states, e, u.rule.selector);
          if (res.NoMatch? && u.used) || (res == Match(false) && !u.used) {
            assert used[e][i] != Marked(tree, states, e, rules)[i];
            return true;
          }
        }
        assert used[e][i] == Marked(tree, states, e, rules)[i];
      }
      assert used[e][..|used[e]|] == used[e];
      r := false;
    }

    // Refreshes an element with a mark out of date, and with it all below.
    method UpdateOwn(e: nat) returns (update: bool)
      requires Valid() && tree.Has(e) && Inside(tree, 0, e) && !tree.At(e).isText
      modifies `style, `used
      ensures Valid() && update == Stale(tree, states, e, old(used[e]))
      ensures AllDone(tree, states, sheet, e, update, 0, old(style), old(used), style, used)
      ensures !update ==> style == old(style) && used == old(used)
    {
      assert Remembers(e);
      update := RequiresStylesUpdate(e);
      if update {
        RefreshStyles(e);
      }
      forall x: nat | Reached(x) && (update || x == e) && Inside(tree, e, x) ensures Remembers(x) && Current(x) {
        assert old(Remembers(x));
        RefreshedRemembers(tree, states, x, sheet, old(used[x]));
      }
    }

    // Refreshes where some mark is out of date, and goes on below.
    method FindStylesChanges(e: nat) returns (ret: bool)
      requires Valid() && tree.Has(e) && Inside(tree, 0, e)
      modifies `style, `used
      ensures Valid()
      ensures AllUpToDate(tree, states, sheet, e, style, used)
      ensures SameOutside(tree, e, old(style), old(used), style, used)
      ensures ret <==> StaleInside(tree, states, e, old(used))
      ensures !ret ==> style == old(style) && used == old(used)
      decreases |tree.nodes| - e, 2
    {
      if tree.At(e).isText {
        OnlyItself(tree, e);
        return false;
      }
      ghost var style0, used0 := style, used;
      var update := UpdateOwn(e);
      var below := FindStylesChangesBelow(e, update, style0, used0);
      ret := update || below;
      AllDoneEnd(tree, states, sheet, e, update, style0, used0, style, used);
    }

    // The loop over the children ...
    method FindStylesChangesBelow(e: nat, update: bool, ghost style0: seq<Style>, ghost used0: seq<seq<Used>>)
      returns (ret: bool)
      requires Valid() && tree.Has(e) && Inside(tree, 0, e)
      requires AllDone(tree, states, sheet, e, update, 0, style0, used0, style, used)
      modifies `style, `used
      ensures Valid() && Stage(tree, states, sheet, e, update, |tree.Kids(e)|, ret, style0, used0, style, used)
      ensures !ret ==> style == old(style) && used == old(used)
      decreases |tree.nodes| - e, 1
    {
      ret := false;
      for i := 0 to |tree.Kids(e)|
        invariant Valid() && Stage(tree, states, sheet, e, update, i, ret, style0, used0, style, used)
        invariant !ret ==> style == old(style) && used == old(used)
      {
        ret := FindStylesChangesIn(e, i, update, ret, style0, used0);
      }
    }

    // ... and one turn of it.
    method FindStylesChangesIn(e: nat, i: nat, update: bool, before: bool,
                               ghost style0: seq<Style>, ghost used0: seq<seq<Used>>) returns (ret: bool)
      requires Valid() && tree.Has(e) && Inside(tree, 0, e) && i < |tree.Kids(e)|
      requires Stage(tree, states, sheet, e, update, i, before, style0, used0, style, used)
      modifies `style, `used
      ensures Valid() && Stage(tree, states, sheet, e, update, i + 1, ret, style0, used0, style, used)
      ensures !ret ==> !before && style == old(style) && used == old(used)
      decreases |tree.nodes| - e, 0
    {
      var kid := tree.Kids(e)[i];
      assert kid in tree.Kids(e) && Inside(tree, 0, kid);
      ghost var style1, used1 := style, used;
      var r := FindStylesChanges(kid);
      AllDoneStep(tree, states, sheet, e, update, i, before, r, style0, used0, style1, used1, style, used);
      ret := before || r;
    }

    // ------------------------------------------------------------------ every run

    method SetPseudoClass(e: nat, cls: Name, add: bool) returns (ret: bool)
      requires Valid() && tree.Has(e)
      modifies `states
      ensures Valid() && ret == (add != (cls in old(states[e])))
      ensures states == old(states)[e := if add then old(states[e]) + {cls} else old(states[e]) - {cls}]
    {
      ret := add != (cls in states[e]);
      if ret {
        states := states[e := if add then states[e] + {cls} else states[e] - {cls}];
      } else {
        assert (if add then states[e] + {cls} else states[e] - {cls}) == states[e];
      }
      forall x: nat | Reached(x) ensures Remembers(x) {
        assert old(Remembers(x));
        RememberedStable(tree, old(states), states, x, sheet);
      }
    }

    // An element whose marks are right has the right style.
    lemma FreshIsCurrent(x: nat)
      requires Shaped() && tree.Has(x) && Remembers(x) && Fresh(x)
      ensures Current(x)
    {
      RefreshedRemembers(tree, states, x, sheet, used[x]);
    }

    // Sheets arrive and states change in any order and any number; the rules and
    // states at the end are theirs, and unless a state changed since the document
    // was last brought up to date, by a search for changes or a full refresh,
    // every element has the style that applying all sheets from scratch under
    // these states gives.
    method Run(events: seq<Event>)
      requires Valid() && forall k | 0 <= k < |events| :: events[k].State? ==> tree.Has(events[k].el)
      modifies this
      ensures Valid()
      ensures sheet == old(sheet) + SheetsOf(events) && states == StatesAfter(old(states), events)
      ensures Settled(events) ==> forall x: nat | Reached(x) :: Current(x)
    {
      assert sheet + [] == sheet;
      for i := 0 to |events|
        invariant Valid()
        invariant sheet == old(sheet) + SheetsOf(events[..i]) && states == StatesAfter(old(states), events[..i])
        invariant Settled(events[..i]) ==> forall x: nat | Reached(x) :: Current(x)
      {
        assert events[..i + 1][..i] == events[..i];
        RunOne(events[i]);
        Longer(old(sheet), SheetsOf(events[..i]), events[i]);
      }
      assert events[..|events|] == events;
    }

    method RunOne(event: Event)
      requires Valid() && (event.State? ==> tree.Has(event.el))
      modifies this
      ensures Valid()
      ensures sheet == old(sheet) + (if event.Sheet? then event.rules else [])
      ensures states == StatesAfter(old(states), [event])
      ensures event.Changes? || event.Refresh? ==> forall x: nat | Reached(x) :: Current(x)
      ensures event.Sheet? ==> forall x: nat | Reached(x) && old(Current(x)) :: Current(x)
    {
      assert sheet + [] == sheet;
      match event
      case Sheet(rules) => {
        AddSheet(rules);
        forall x: nat | Reached(x) && old(Current(x)) ensures Current(x) {
          assert Remembers(x) && old(Fresh(x));
          FreshIsCurrent(x);
        }
      }
      case State(e, cls, add) => {
        var _ := SetPseudoClass(e, cls, add);
      }
      case Changes => {
        var _ := FindStylesChanges(0);
      }
      case Refresh => {
        RefreshAll();
      }
    }
  }

  lemma Longer(first: seq<Rule>, before: seq<Rule>, event: Event)
    ensures first + (before + (if event.Sheet? then event.rules else [])) ==
            (first + before) + (if event.Sheet? then event.rules else [])
  {
  }

  // What applying a sheet does to one element.
  ghost predicate Sheeted(t: Tree, ps: States, x: nat, rules: seq<Rule>, st: Style, us: seq<Used>, st': Style,
                          us': seq<Used>)
    requires Fits(t, ps) && t.Has(x)
  {
    && st' == Full(t, ps, x, st, rules)
    && us' == us + Marked(t, ps, x, Remembered(t, ps, x, rules))
  }

  // Some mark is not what matching strictly would give now.
  ghost predicate Stale(t: Tree, ps: States, x: nat, us: seq<Used>)
    requires Fits(t, ps) && t.Has(x)
  {
    us != Marked(t, ps, x, Rules(us))
  }

  ghost predicate UpToDate(t: Tree, ps: States, sheet: seq<Rule>, x: nat, st: Style, us: seq<Used>)
    requires Fits(t, ps) && t.Has(x)
  {
    st == Full(t, ps, x, map[], sheet) && !Stale(t, ps, x, us)
  }

  // Where the search below `e` stands at `x` after `i` children.
  ghost predicate Done(t: Tree, ps: States, sheet: seq<Rule>, e: nat, update: bool, i: nat, x: nat,
                       st0: Style, us0: seq<Used>, st: Style, us: seq<Used>)
    requires Fits(t, ps) && t.Has(e) && t.Has(x) && i <= |t.Kids(e)|
  {
    && (Inside(t, 0, x) && !t.At(x).isText && Inside(t, e, x) && (update || x == e || Under(t, e, i, x)) ==>
          UpToDate(t, ps, sheet, x, st, us))
    && (!Inside(t, e, x) || (!update && !Under(t, e, i, x)) ==> st == st0 && us == us0)
  }

  lemma DoneStep(t: Tree, ps: States, sheet: seq<Rule>, e: nat, update: bool, i: nat, x: nat,
                 st0: Style, us0: seq<Used>, st1: Style, us1: seq<Used>, st: Style, us: seq<Used>)
    requires Fits(t, ps) && t.Has(e) && t.Has(x) && i < |t.Kids(e)|
    requires Done(t, ps, sheet, e, update, i, x, st0, us0, st1, us1)
    requires Inside(t, 0, x) && !t.At(x).isText && Inside(t, t.Kids(e)[i], x) ==> UpToDate(t, ps, sheet, x, st, us)
    requires !Inside(t, t.Kids(e)[i], x) ==> st == st1 && us == us1
    ensures Done(t, ps, sheet, e, update, i + 1, x, st0, us0, st, us)
    ensures Under(t, e, i + 1, x) <==> Under(t, e, i, x) || Inside(t, t.Kids(e)[i], x)
  {
    UnderStep(t, e, i, x);
    assert t.Kids(e)[i] in t.Kids(e);
    if Inside(t, t.Kids(e)[i], x) { InsideTrans(t, e, t.Kids(e)[i], x); }
  }

  ghost predicate AllDone(t: Tree, ps: States, sheet: seq<Rule>, e: nat, update: bool, i: nat,
                          style0: seq<Style>, used0: seq<seq<Used>>, style: seq<Style>, used: seq<seq<Used>>)
    requires Fits(t, ps) && t.Has(e) && i <= |t.Kids(e)|
  {
    && |style0| == |used0| == |style| == |used| == |t.nodes|
    && forall x: nat | x < |style| :: Done(t, ps, sheet, e, update, i, x, style0[x], used0[x], style[x], used[x])
  }

  ghost predicate AllUpToDate(t: Tree, ps: States, sheet: seq<Rule>, e: nat, style: seq<Style>, used: seq<seq<Used>>)
    requires Fits(t, ps) && |style| == |used| == |t.nodes|
  {
    forall x: nat | Inside(t, 0, x) && !t.At(x).isText && Inside(t, e, x) ::
      UpToDate(t, ps, sheet, x, style[x], used[x])
  }

  ghost predicate SameOutside(t: Tree, e: nat, style0: seq<Style>, used0: seq<seq<Used>>, style: seq<Style>,
                              used: seq<seq<Used>>)
    requires t.Valid() && |style0| == |used0| == |style| == |used| == |t.nodes|
  {
    forall x: nat | x < |style| && !Inside(t, e, x) :: style[x] == style0[x] && used[x] == used0[x]
  }

  // Some element of the first `i` subtrees below `e` is out of date.
  ghost predicate StaleBelow(t: Tree, ps: States, e: nat, i: nat, used: seq<seq<Used>>)
    requires Fits(t, ps) && t.Has(e) && i <= |t.Kids(e)| && |used| == |t.nodes|
  {
    exists x: nat :: Inside(t, 0, x) && !t.At(x).isText && Under(t, e, i, x) && Stale(t, ps, x, used[x])
  }

  ghost predicate StaleInside(t: Tree, ps: States, e: nat, used: seq<seq<Used>>)
    requires Fits(t, ps) && |used| == |t.nodes|
  {
    exists x: nat :: Inside(t, 0, x) && !t.At(x).isText && Inside(t, e, x) && Stale(t, ps, x, used[x])
  }

  ghost predicate Stage(t: Tree, ps: States, sheet: seq<Rule>, e: nat, update: bool, i: nat, ret: bool,
                        style0: seq<Style>, used0: seq<seq<Used>>, style: seq<Style>, used: seq<seq<Used>>)
    requires Fits(t, ps) && t.Has(e) && i <= |t.Kids(e)|
  {
    && AllDone(t, ps, sheet, e, update, i, style0, used0, style, used)
    && (!update ==> (ret <==> StaleBelow(t, ps, e, i, used0)))
  }

  lemma AllDoneStep(t: Tree, ps: States, sheet: seq<Rule>, e: nat, update: bool, i: nat, ret: bool, r: bool,
                    style0: seq<Style>, used0: seq<seq<Used>>, style1: seq<Style>, used1: seq<seq<Used>>,
                    style: seq<Style>, used: seq<seq<Used>>)
    requires Fits(t, ps) && t.Has(e) && i < |t.Kids(e)| && |style| == |used| == |t.nodes|
    requires Stage(t, ps, sheet, e, update, i, ret, style0, used0, style1, used1)
    requires r <==> StaleInside(t, ps, t.Kids(e)[i], used1)
    requires AllUpToDate(t, ps, sheet, t.Kids(e)[i], style, used)
    requires SameOutside(t, t.Kids(e)[i], style1, used1, style, used)
    ensures Stage(t, ps, sheet, e, update, i + 1, ret || r, style0, used0, style, used)
  {
    var kid := t.Kids(e)[i];
    forall x: nat | t.Has(x)
      ensures Done(t, ps, sheet, e, update, i + 1, x, style0[x], used0[x], style[x], used[x])
      ensures Under(t, e, i + 1, x) <==> Under(t, e, i, x) || Inside(t, kid, x)
      ensures !update && Inside(t, kid, x) ==> used0[x] == used1[x]
    {
      DoneStep(t, ps, sheet, e, update, i, x, style0[x], used0[x], style1[x], used1[x], style[x], used[x]);
      UnderStep(t, e, i, x);
    }
  }

  lemma AllDoneEnd(t: Tree, ps: States, sheet: seq<Rule>, e: nat, update: bool,
                   style0: seq<Style>, used0: seq<seq<Used>>, style: seq<Style>, used: seq<seq<Used>>)
    requires Fits(t, ps) && t.Has(e) && Inside(t, 0, e) && !t.At(e).isText
    requires AllDone(t, ps, sheet, e, update, |t.Kids(e)|, style0, used0, style, used)
    requires update == Stale(t, ps, e, used0[e])
    ensures AllUpToDate(t, ps, sheet, e, style, used) && SameOutside(t, e, style0, used0, style, used)
    ensures StaleInside(t, ps, e, used0) <==> update || StaleBelow(t, ps, e, |t.Kids(e)|, used0)
  {
    forall x: nat | t.Has(x) ensures Inside(t, e, x) <==> x == e || Under(t, e, |t.Kids(e)|, x) {
      InsideSplit(t, e, x);
    }
  }

  lemma OnlyItself(t: Tree, e: nat)
    requires t.Valid() && t.Has(e) && t.At(e).isText
    ensures forall x: nat | Inside(t, e, x) :: x == e
  {
    forall x: nat | Inside(t, e, x) ensures x == e {
      InsideSplit(t, e, x);
      assert t.NodeValid(e);
    }
  }

  // A remembered rule is only marked when its media hold.
  ghost predicate Honest(us: seq<Used>) {
    forall i | 0 <= i < |us| :: us[i].used ==> us[i].rule.media
  }

  // What a refresh does to one element.
  ghost predicate Refreshed(t: Tree, ps: States, x: nat, us: seq<Used>, st': Style, us': seq<Used>)
    requires Fits(t, ps) && t.Has(x)
  {
    && st' == Full(t, ps, x, map[], Rules(us))
    && us' == Marked(t, ps, x, Rules(us))
  }

  lemma SheetedRemembers(t: Tree, ps: States, x: nat, sheet: seq<Rule>, rules: seq<Rule>, us: seq<Used>)
    requires Fits(t, ps) && t.Has(x)
    requires Rules(us) == Remembered(t, ps, x, sheet) && Honest(us)
    ensures var us' := us + Marked(t, ps, x, Remembered(t, ps, x, rules));
            && Rules(us') == Remembered(t, ps, x, sheet + rules)
            && Full(t, ps, x, FromMarks(us), rules) == FromMarks(us')
            && Honest(us')
            && (us == Marked(t, ps, x, Rules(us)) ==> us' == Marked(t, ps, x, Rules(us')))
  {
    hide Remembered, Full, FromMarks, Marked, Rules, Honest;
    var kept := Remembered(t, ps, x, rules);
    RememberedConcat(t, ps, x, sheet, rules);
    MarksAppend(t, ps, x, us, kept);
    RememberedSuffices(t, ps, x, FromMarks(us), rules);
    MarkedRules(t, ps, x, kept);
    RulesConcat(us, Marked(t, ps, x, kept));
    MarkedConcat(t, ps, x, Rules(us), kept);
  }

  lemma RulesConcat(us: seq<Used>, more: seq<Used>)
    ensures Rules(us + more) == Rules(us) + Rules(more)
    ensures Honest(us) && Honest(more) ==> Honest(us + more)
  {
  }

  lemma MarkedConcat(t: Tree, ps: States, x: nat, a: seq<Rule>, b: seq<Rule>)
    requires Fits(t, ps) && t.Has(x)
    ensures Marked(t, ps, x, a + b) == Marked(t, ps, x, a) + Marked(t, ps, x, b)
  {
    hide Applies;
  }

  lemma MarkedRules(t: Tree, ps: States, x: nat, rules: seq<Rule>)
    requires Fits(t, ps) && t.Has(x)
    ensures Rules(Marked(t, ps, x, rules)) == rules && Honest(Marked(t, ps, x, rules))
  {
  }

  lemma RefreshedRemembers(t: Tree, ps: States, x: nat, sheet: seq<Rule>, us: seq<Used>)
    requires Fits(t, ps) && t.Has(x)
    requires Rules(us) == Remembered(t, ps, x, sheet)
    ensures var us' := Marked(t, ps, x, Rules(us));
            && Rules(us') == Rules(us)
            && Full(t, ps, x, map[], Rules(us)) == FromMarks(us') == Full(t, ps, x, map[], sheet)
            && Honest(us')
            && us' == Marked(t, ps, x, Rules(us'))
  {
    MarkedRules(t, ps, x, Rules(us));
    MarksAreFull(t, ps, x, Rules(us));
    RememberedSuffices(t, ps, x, map[], sheet);
  }

  // The first `i` marks renewed.
  ghost function HalfMarked(t: Tree, ps: States, e: nat, us: seq<Used>, i: nat): (r: seq<Used>)
    requires Fits(t, ps) && t.Has(e) && i <= |us|
    ensures |r| == |us|
  {
    Marked(t, ps, e, Rules(us)[..i]) + us[i..]
  }

  lemma RefreshStart(t: Tree, ps: States, e: nat, us: seq<Used>)
    requires Fits(t, ps) && t.Has(e)
    ensures HalfMarked(t, ps, e, us, 0) == us && Full(t, ps, e, map[], Rules(us)[..0]) == map[]
  {
  }

  lemma RefreshStep(t: Tree, ps: States, e: nat, us: seq<Used>, i: nat)
    requires Fits(t, ps) && t.Has(e) && i < |us|
    ensures var r := us[i].rule;
            && HalfMarked(t, ps, e, us, i)[i] == us[i]
            && HalfMarked(t, ps, e, us, i)[i := Used(r, Applies(t, ps, e, r))] == HalfMarked(t, ps, e, us, i + 1)
            && Full(t, ps, e, map[], Rules(us)[..i + 1]) ==
               (if Applies(t, ps, e, r) then Combine(Full(t, ps, e, map[], Rules(us)[..i]), r.style)
                else Full(t, ps, e, map[], Rules(us)[..i]))
  {
    assert Rules(us)[..i + 1][..i] == Rules(us)[..i];
  }

  lemma NotUnderItself(t: Tree, e: nat, i: nat)
    requires t.Valid() && t.Has(e) && i <= |t.Kids(e)|
    ensures !Under(t, e, i, e)
  {
    if Under(t, e, i, e) {
      var j :| 0 <= j < i && Inside(t, t.Kids(e)[j], e);
      assert t.Kids(e)[j] in t.Kids(e);
      InsideTrans(t, e, t.Kids(e)[j], e);
      assert false;
    }
  }

  lemma OneMore(t: Tree, ps: States, e: nat, st: Style, us: seq<Used>, rules: seq<Rule>, i: nat)
    requires Fits(t, ps) && t.Has(e) && i < |rules|
    ensures var r := rules[i];
            && Full(t, ps, e, st, rules[..i + 1]) ==
               (if Applies(t, ps, e, r) then Combine(Full(t, ps, e, st, rules[..i]), r.style)
                else Full(t, ps, e, st, rules[..i]))
            && us + Marked(t, ps, e, Remembered(t, ps, e, rules[..i + 1])) ==
               us + Marked(t, ps, e, Remembered(t, ps, e, rules[..i])) +
               (if Possible(t, ps, e, r) then [Used(r, Applies(t, ps, e, r))] else [])
  {
    assert rules[..i + 1][..i] == rules[..i];
  }

  // One more child's subtree is done; a text child has none but itself.
  lemma UnderStep(t: Tree, e: nat, i: nat, x: nat)
    requires t.Valid() && t.Has(e) && i < |t.Kids(e)|
    ensures Under(t, e, i + 1, x) <==> Under(t, e, i, x) || Inside(t, t.Kids(e)[i], x)
    ensures Under(t, e, i, x) ==> !Inside(t, t.Kids(e)[i], x)
    ensures x == e ==> !Inside(t, t.Kids(e)[i], x)
    ensures t.At(t.Kids(e)[i]).isText && Inside(t, t.Kids(e)[i], x) ==> x == t.Kids(e)[i]
  {
    var c := t.Kids(e)[i];
    assert c in t.Kids(e);
    if Under(t, e, i, x) && Inside(t, c, x) {
      var j :| 0 <= j < i && Inside(t, t.Kids(e)[j], x);
      InsideDisjoint(t, e, i, j, x);
      assert false;
    }
    if Inside(t, c, x) { InsideTrans(t, e, c, x); }
    if t.At(c).isText { InsideSplit(t, c, x); assert t.NodeValid(c); }
  }
}
