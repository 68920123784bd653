// Grouping tokens into component values (CSS Syntax Module Level 3, section 5.4.7
// to 5.4.9), and what grouping keeps.
module Componentize {
  import opened CssTokens

  // What was read, what is left, and whether its bracket was closed.
  datatype Parsed = Parsed(t: Token, rest: seq<Token>, closed: bool)
  datatype Listed = Listed(ts: seq<Token>, rest: seq<Token>, closed: bool)

  function Value(ts: seq<Token>): (r: Parsed)
    requires ts != []
    ensures |r.rest| < |ts| && (!r.closed ==> r.rest == [])
    decreases |ts|, 0
  {
    match ts[0]
    case Open(b) => var l := Values(ts[1..], b); Parsed(Block(b, l.ts), l.rest, l.closed)
    case Function(name) => var l := Values(ts[1..], Round); Parsed(FunctionValue(name, l.ts), l.rest, l.closed)
    case _ => Parsed(ts[0], ts[1..], true)
  }

  // The component values up to the closing bracket, or to the end.
  function Values(ts: seq<Token>, b: Bracket): (r: Listed)
    ensures |r.rest| <= |ts| && (!r.closed ==> r.rest == [])
    decreases |ts|, 1
  {
    if ts == [] then Listed([], [], false)
    else if ts[0] == Close(b) then Listed([], ts[1..], true)
    else
      var v := Value(ts);
      var l := Values(v.rest, b);
      Listed([v.t] + l.ts, l.rest, l.closed)
  }

  function All(ts: seq<Token>): seq<Token>
    decreases |ts|
  {
    if ts == [] then [] else var v := Value(ts); [v.t] + All(v.rest)
  }

  // ------------------------------------------------- nothing is lost in grouping

  // Reading on from a stack of open brackets; a closer that does not fit is left.
  function Scan(ts: seq<Token>, open: seq<Bracket>): seq<Bracket>
    decreases |ts|
  {
    if ts == [] then open
    else
      match ts[0]
      case Open(b) => Scan(ts[1..], [b] + open)
      case Function(_) => Scan(ts[1..], [Round] + open)
      case Close(b) => Scan(ts[1..], if open != [] && open[0] == b then open[1..] else open)
      case _ => Scan(ts[1..], open)
  }

  function Closers(open: seq<Bracket>): seq<Token> {
    if open == [] then [] else [Close(open[0])] + Closers(open[1..])
  }

  lemma {:induction false} ClosersConcat(a: seq<Bracket>, b: seq<Bracket>)
    ensures Closers(a + b) == Closers(a) + Closers(b)
  {
    if a == [] {
      assert a + b == b;
    } else {
      ClosersConcat(a[1..], b);
      assert (a + b)[1..] == a[1..] + b;
    }
  }

  // A value read to its end leaves the stack alone; a value cut off by the end of
  // the input leaves its own brackets on it.
  lemma {:induction false} ValueScan(ts: seq<Token>, open: seq<Bracket>) returns (left: seq<Bracket>)
    requires ts != [] && (open != [] ==> ts[0] != Close(open[0]))
    ensures var v := Value(ts);
            && (v.closed ==> left == [] && Scan(ts, open) == Scan(v.rest, open))
            && (!v.closed ==> Scan(ts, open) == left + open)
            && Flatten(v.t) + FlattenAll(v.rest) == FlattenAll(ts) + Closers(left)
    decreases |ts|, 0
  {
    left := [];
    assert ts == [ts[0]] + ts[1..];
    match ts[0]
    case Open(b) =>
      left := ValuesScan(ts[1..], b, open);
      Wrapped(ts[0], FlattenAll(Values(ts[1..], b).ts), Close(b), FlattenAll(Value(ts).rest),
              FlattenAll(ts[1..]), Closers(left));
    case Function(name) =>
      left := ValuesScan(ts[1..], Round, open);
      Wrapped(ts[0], FlattenAll(Values(ts[1..], Round).ts), Close(Round), FlattenAll(Value(ts).rest),
              FlattenAll(ts[1..]), Closers(left));
    case _ =>
      assert FlattenAll(ts) + [] == FlattenAll(ts);
  }

  lemma Wrapped(o: Token, inner: seq<Token>, c: Token, rest: seq<Token>, ts: seq<Token>, left: seq<Token>)
    requires inner + [c] + rest == ts + left
    ensures ([o] + inner + [c]) + rest == ([o] + ts) + left
  {
    assert ([o] + inner + [c]) + rest == [o] + (inner + [c] + rest);
    assert ([o] + ts) + left == [o] + (ts + left);
  }

  lemma Regrouped(v: seq<Token>, ts: seq<Token>, c: seq<Token>, rest: seq<Token>, after: seq<Token>, left: seq<Token>)
    requires ts + c + rest == after + left
    ensures (v + ts) + c + rest == (v + after) + left
  {
    assert (v + ts) + c + rest == v + (ts + c + rest);
    assert (v + after) + left == v + (after + left);
  }

  lemma {:induction false} ValuesScan(ts: seq<Token>, b: Bracket, open: seq<Bracket>) returns (left: seq<Bracket>)
    ensures var l := Values(ts, b);
            && (l.closed ==> left == [] && Scan(ts, [b] + open) == Scan(l.rest, open))
            && (!l.closed ==> Scan(ts, [b] + open) == left + open && left != [])
            && FlattenAll(l.ts) + [Close(b)] + FlattenAll(l.rest) == FlattenAll(ts) + Closers(left)
    decreases |ts|, 1
  {
    if ts == [] {
      left := [b];
    } else if ts[0] == Close(b) {
      left := [];
      assert ([b] + open)[1..] == open && ts == [ts[0]] + ts[1..];
      assert FlattenAll(ts) + [] == [Close(b)] + FlattenAll(ts[1..]);
    } else {
      var v := Value(ts);
      var inner := ValueScan(ts, [b] + open);
      var l := Values(v.rest, b);
      FlattenOne(v.t, l.ts);
      if v.closed {
        left := ValuesScan(v.rest, b, open);
        Regrouped(Flatten(v.t), FlattenAll(l.ts), [Close(b)], FlattenAll(l.rest), FlattenAll(v.rest), Closers(left));
        assert Flatten(v.t) + FlattenAll(v.rest) == FlattenAll(ts);
      } else {
        left := inner + [b];
        ClosersConcat(inner, [b]);
        assert inner + ([b] + open) == left + open;
        assert Flatten(v.t) + [] == Flatten(v.t) && Closers([b]) == [Close(b)];
        assert FlattenAll(ts) + Closers(inner) + [Close(b)] == FlattenAll(ts) + (Closers(inner) + [Close(b)]);
      }
    }
  }

  // Flattening a componentized list gives back its tokens, followed by one closer
  // for every bracket the end of the input left open, innermost first.
  lemma {:induction false} NothingIsLost(ts: seq<Token>)
    ensures FlattenAll(All(ts)) == FlattenAll(ts) + Closers(Scan(ts, []))
    decreases |ts|
  {
    if ts != [] {
      var v := Value(ts);
      var left := ValueScan(ts, []);
      FlattenOne(v.t, All(v.rest));
      NothingIsLost(v.rest);
      var open := if v.closed then Scan(v.rest, []) else [];
      assert Scan(ts, []) == left + open;
      Appended(Flatten(v.t), FlattenAll(v.rest), FlattenAll(ts), left, open);
    }
  }

  lemma Appended(v: seq<Token>, rest: seq<Token>, ts: seq<Token>, left: seq<Bracket>, open: seq<Bracket>)
    requires v + rest == ts + Closers(left) && (left == [] || open == [])
    ensures v + (rest + Closers(open)) == ts + Closers(left + open)
  {
    ClosersConcat(left, open);
    assert v + (rest + Closers(open)) == (v + rest) + Closers(open);
  }

  // ------------------------------------------------------ grouping twice, and back

  // No bracket or function is left to group.
  predicate Grouped(ts: seq<Token>) {
    forall i | 0 <= i < |ts| :: !ts[i].Open? && !ts[i].Function?
  }

  lemma {:induction false} AllIsGrouped(ts: seq<Token>)
    ensures Grouped(All(ts))
    decreases |ts|
  {
    if ts != [] { AllIsGrouped(Value(ts).rest); }
  }

  // Componentizing changes exactly the lists with something left to group.
  lemma {:induction false} GroupedIsFixed(ts: seq<Token>)
    ensures All(ts) == ts <==> Grouped(ts)
  {
    if Grouped(ts) { GroupedStays(ts); } else { AllIsGrouped(ts); }
  }

  lemma {:induction false} GroupedStays(ts: seq<Token>)
    requires Grouped(ts)
    ensures All(ts) == ts
  {
    if ts != [] {
      GroupedStays(ts[1..]);
      assert ts == [ts[0]] + ts[1..];
    }
  }

  lemma AllIsIdempotent(ts: seq<Token>)
    ensures All(All(ts)) == All(ts)
  {
    AllIsGrouped(ts);
    GroupedStays(All(ts));
  }

  // A component value that grouping could have made: nothing ungrouped inside, and
  // no closer of its own bracket.
  predicate Proper(t: Token)
    decreases t
  {
    match t
    case Open(_) => false
    case Function(_) => false
    case Block(b, value) => AllProper(value) && Close(b) !in value
    case FunctionValue(_, value) => AllProper(value) && Close(Round) !in value
    case _ => true
  }

  predicate AllProper(ts: seq<Token>)
    decreases ts
  {
    ts == [] || (Proper(ts[0]) && AllProper(ts[1..]))
  }

  predicate Thin(ts: seq<Token>) {
    forall i | 0 <= i < |ts| :: !IsFat(ts[i])
  }

  lemma {:induction false} ValueIsProper(ts: seq<Token>)
    requires ts != [] && Thin(ts)
    ensures Proper(Value(ts).t) && Thin(Value(ts).rest)
    decreases |ts|, 0
  {
    match ts[0]
    case Open(b) => ValuesAreProper(ts[1..], b);
    case Function(_) => ValuesAreProper(ts[1..], Round);
    case _ =>
  }

  lemma {:induction false} ValuesAreProper(ts: seq<Token>, b: Bracket)
    requires Thin(ts)
    ensures var l := Values(ts, b); AllProper(l.ts) && Close(b) !in l.ts && Thin(l.rest)
    decreases |ts|, 1
  {
    if ts != [] && ts[0] != Close(b) {
      var v := Value(ts);
      ValueIsProper(ts);
      ValuesAreProper(v.rest, b);
      assert ([v.t] + Values(v.rest, b).ts)[1..] == Values(v.rest, b).ts;
    }
  }

  // What the tokenizer delivers is grouped into proper values ...
  lemma {:induction false} ThinIsMadeProper(ts: seq<Token>)
    requires Thin(ts)
    ensures AllProper(All(ts))
    decreases |ts|
  {
    if ts != [] {
      ValueIsProper(ts);
      ThinIsMadeProper(Value(ts).rest);
      assert All(ts)[1..] == All(Value(ts).rest);
    }
  }

  lemma {:induction false} ValueOfFlat(t: Token, rest: seq<Token>)
    requires Proper(t)
    ensures Flatten(t) != [] && Value(Flatten(t) + rest) == Parsed(t, rest, true)
    ensures forall b :: (Flatten(t) + rest)[0] == Close(b) ==> t == Close(b)
    decreases t
  {
    var ts := Flatten(t) + rest;
    match t
    case Block(b, value) =>
      ValuesOfFlat(value, b, rest);
      assert ts[1..] == FlattenAll(value) + [Close(b)] + rest;
    case FunctionValue(name, value) =>
      ValuesOfFlat(value, Round, rest);
      assert ts[1..] == FlattenAll(value) + [Close(Round)] + rest;
    case _ =>
      assert ts[1..] == rest;
  }

  lemma {:induction false} ValuesOfFlat(value: seq<Token>, b: Bracket, rest: seq<Token>)
    requires AllProper(value) && Close(b) !in value
    ensures Values(FlattenAll(value) + [Close(b)] + rest, b) == Listed(value, rest, true)
    decreases value
  {
    var ts := FlattenAll(value) + [Close(b)] + rest;
    if value == [] {
      assert ts[1..] == rest;
    } else {
      var after := FlattenAll(value[1..]) + [Close(b)] + rest;
      assert ts == Flatten(value[0]) + after;
      ValueOfFlat(value[0], after);
      ValuesOfFlat(value[1..], b, rest);
      assert value == [value[0]] + value[1..];
    }
  }

  // ... and grouping undoes flattening.
  lemma {:induction false} GroupingUndoesFlattening(ts: seq<Token>)
    requires AllProper(ts)
    ensures All(FlattenAll(ts)) == ts
    decreases ts
  {
    if ts != [] {
      ValueOfFlat(ts[0], FlattenAll(ts[1..]));
      GroupingUndoesFlattening(ts[1..]);
      assert ts == [ts[0]] + ts[1..];
    }
  }
}
