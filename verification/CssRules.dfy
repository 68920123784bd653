// Rules, at-rules and declarations read off a token list (CSS Syntax Module Level
// 3, section 5.4), which may or may not have been componentized.
module CssRules {
  import opened CssTokens
  import opened Componentize
  import opened CssDeclaration

  datatype Body = NoBlock | HasBlock(block: Token)

  datatype RawRule =
    | Qualified(prelude: seq<Token>, block: Token)
    | AtRule(name: Token, prelude: seq<Token>, body: Body)

  // A qualified rule that meets the end of the input is not returned.
  datatype QualifiedRead = Nothing | Just(rule: RawRule, rest: seq<Token>)
  datatype AtRead = AtRead(rule: RawRule, rest: seq<Token>)

  // What a style block holds.
  datatype Contents = Contents(decls: seq<Declaration>, rules: seq<RawRule>)

  predicate StartsBlock(t: Token) {
    t == Open(Curly) || (t.Block? && t.b == Curly)
  }

  function QualifiedFrom(ts: seq<Token>, prelude: seq<Token>): (r: QualifiedRead)
    ensures r.Just? ==> |r.rest| < |ts|
    decreases |ts|
  {
    if ts == [] then Nothing
    else
      var v := Value(ts);
      if StartsBlock(ts[0]) then Just(Qualified(prelude, v.t), v.rest)
      else QualifiedFrom(v.rest, prelude + [v.t])
  }

  function AtFrom(ts: seq<Token>, name: Token, prelude: seq<Token>): (r: AtRead)
    ensures |r.rest| <= |ts|
    decreases |ts|
  {
    if ts == [] then AtRead(AtRule(name, prelude, NoBlock), [])
    else if ts[0] == Delim(';') then AtRead(AtRule(name, prelude, NoBlock), ts[1..])
    else
      var v := Value(ts);
      if StartsBlock(ts[0]) then AtRead(AtRule(name, prelude, HasBlock(v.t)), v.rest)
      else AtFrom(v.rest, name, prelude + [v.t])
  }

  predicate Skipped(t: Token, topLevel: bool) {
    t.White? || (topLevel && (t.Cdo? || t.Cdc?))
  }

  function Rules(ts: seq<Token>, topLevel: bool): seq<RawRule>
    decreases |ts|
  {
    if ts == [] then []
    else if Skipped(ts[0], topLevel) then Rules(ts[1..], topLevel)
    else if ts[0].AtKeyword? then var r := AtFrom(ts[1..], ts[0], []); [r.rule] + Rules(r.rest, topLevel)
    else
      var r := QualifiedFrom(ts, []);
      if r.Nothing? then [] else [r.rule] + Rules(r.rest, topLevel)
  }

  // Component values up to a semicolon or the end.
  function ToSemicolon(ts: seq<Token>): (r: (seq<Token>, seq<Token>))
    ensures |r.1| <= |ts| && (ts != [] && ts[0] != Delim(';') ==> |r.1| < |ts|)
    decreases |ts|
  {
    if ts == [] || ts[0] == Delim(';') then ([], ts)
    else
      var v := Value(ts);
      var r := ToSemicolon(v.rest);
      ([v.t] + r.0, r.1)
  }

  // Nothing is returned for what turns out to be no declaration.
  function Given(d: Declaration): seq<Declaration> {
    if d.name == "" then [] else [d]
  }

  function StyleBlock(ts: seq<Token>): Contents
    decreases |ts|
  {
    if ts == [] then Contents([], [])
    else
      var t := ts[0];
      if t.White? || t == Delim(';') then StyleBlock(ts[1..])
      else if t.AtKeyword? then
        var r := AtFrom(ts[1..], t, []);
        var c := StyleBlock(r.rest);
        Contents(c.decls, [r.rule] + c.rules)
      else if t.Ident? then
        var d := ToSemicolon(ts[1..]);
        var c := StyleBlock(d.1);
        Contents(Given(DeclarationOf([t] + d.0)) + c.decls, c.rules)
      else if t == Delim('&') then
        var r := QualifiedFrom(ts, []);
        if r.Nothing? then Contents([], [])
        else
          var c := StyleBlock(r.rest);
          Contents(c.decls, [r.rule] + c.rules)
      else StyleBlock(ToSemicolon(ts).1)
  }

  // ------------------------------------------ componentized or not, it reads the same

  lemma AllStep(ts: seq<Token>)
    requires ts != []
    ensures var all, v := All(ts), Value(ts);
            all != [] && all[0] == v.t && all[1..] == All(v.rest) && Value(all) == Parsed(v.t, All(v.rest), true)
    ensures StartsBlock(ts[0]) <==> StartsBlock(Value(ts).t)
    ensures !ts[0].Open? && !ts[0].Function? ==> Value(ts) == Parsed(ts[0], ts[1..], true)
    ensures ts[0].Open? || ts[0].Function? ==> IsFat(Value(ts).t)
  {
    AllIsGrouped(ts);
  }

  lemma {:induction false} QualifiedFat(ts: seq<Token>, prelude: seq<Token>)
    ensures var r := QualifiedFrom(ts, prelude);
            QualifiedFrom(All(ts), prelude) == if r.Nothing? then Nothing else Just(r.rule, All(r.rest))
    decreases |ts|
  {
    if ts != [] {
      AllStep(ts);
      if !StartsBlock(ts[0]) { QualifiedFat(Value(ts).rest, prelude + [Value(ts).t]); }
    }
  }

  lemma {:induction false} AtFat(ts: seq<Token>, name: Token, prelude: seq<Token>)
    ensures var r := AtFrom(ts, name, prelude); AtFrom(All(ts), name, prelude) == AtRead(r.rule, All(r.rest))
    decreases |ts|
  {
    if ts != [] {
      AllStep(ts);
      if ts[0] != Delim(';') && !StartsBlock(ts[0]) { AtFat(Value(ts).rest, name, prelude + [Value(ts).t]); }
    }
  }

  lemma {:induction false} ToSemicolonFat(ts: seq<Token>)
    ensures var r := ToSemicolon(ts); ToSemicolon(All(ts)) == (r.0, All(r.1))
    decreases |ts|
  {
    if ts != [] {
      AllStep(ts);
      if ts[0] != Delim(';') { ToSemicolonFat(Value(ts).rest); }
    }
  }

  // The rules are the same whether the tokens were componentized first or not.
  lemma {:induction false} RulesReadTheSame(ts: seq<Token>, topLevel: bool)
    ensures Rules(All(ts), topLevel) == Rules(ts, topLevel)
    decreases |ts|
  {
    if ts != [] {
      AllStep(ts);
      if Skipped(ts[0], topLevel) {
        RulesReadTheSame(ts[1..], topLevel);
      } else if ts[0].AtKeyword? {
        AtFat(ts[1..], ts[0], []);
        RulesReadTheSame(AtFrom(ts[1..], ts[0], []).rest, topLevel);
      } else {
        QualifiedFat(ts, []);
        var r := QualifiedFrom(ts, []);
        if r.Just? { RulesReadTheSame(r.rest, topLevel); }
      }
    }
  }

  // So are the declarations and rules of a style block.
  lemma {:induction false} StyleBlockReadsTheSame(ts: seq<Token>)
    ensures StyleBlock(All(ts)) == StyleBlock(ts)
    decreases |ts|
  {
    if ts != [] {
      AllStep(ts);
      var t := ts[0];
      if t.White? || t == Delim(';') {
        StyleBlockReadsTheSame(ts[1..]);
      } else if t.AtKeyword? {
        AtFat(ts[1..], t, []);
        StyleBlockReadsTheSame(AtFrom(ts[1..], t, []).rest);
      } else if t.Ident? {
        ToSemicolonFat(ts[1..]);
        StyleBlockReadsTheSame(ToSemicolon(ts[1..]).1);
      } else if t == Delim('&') {
        QualifiedFat(ts, []);
        var r := QualifiedFrom(ts, []);
        if r.Just? { StyleBlockReadsTheSame(r.rest); }
      } else {
        ToSemicolonFat(ts);
        StyleBlockReadsTheSame(ToSemicolon(ts).1);
      }
    }
  }

  // ------------------------------------------------------------ what a rule is made of

  // The tokens of a rule and what is left are the tokens read, followed by the closers
  // of what the end of the input cut off.
  ghost predicate Kept(parts: seq<Token>, rest: seq<Token>, ts: seq<Token>, left: seq<Bracket>) {
    && parts + FlattenAll(rest) == ts + Closers(left)
    && (left != [] ==> rest == [])
  }

  lemma ValueKept(ts: seq<Token>) returns (left: seq<Bracket>)
    requires ts != []
    ensures Kept(Flatten(Value(ts).t), Value(ts).rest, FlattenAll(ts), left)
  {
    left := ValueScan(ts, []);
  }

  // Prelude, then more of it: the same tokens.
  lemma PreludeMore(prelude: seq<Token>, v: Token, rest: seq<Token>, ts: seq<Token>)
    requires Flatten(v) + FlattenAll(rest) == FlattenAll(ts)
    ensures FlattenAll(prelude + [v]) + FlattenAll(rest) == FlattenAll(prelude) + FlattenAll(ts)
  {
    hide Flatten, FlattenAll;
    FlattenConcat(prelude, [v]);
    FlattenSingle(v);
    assert (FlattenAll(prelude) + Flatten(v)) + FlattenAll(rest) ==
           FlattenAll(prelude) + (Flatten(v) + FlattenAll(rest));
  }

  lemma PreludeThen(prelude: seq<Token>, v: seq<Token>, rest: seq<Token>, ts: seq<Token>, left: seq<Bracket>)
    requires Kept(v, rest, ts, left)
    ensures Kept(prelude + v, rest, prelude + ts, left)
  {
    assert (prelude + v) + FlattenAll(rest) == prelude + (v + FlattenAll(rest));
    assert (prelude + ts) + Closers(left) == prelude + (ts + Closers(left));
  }

  // A qualified rule is its prelude and its block, in order, with nothing dropped.
  lemma {:induction false} QualifiedKeeps(ts: seq<Token>, prelude: seq<Token>) returns (left: seq<Bracket>)
    requires QualifiedFrom(ts, prelude).Just?
    ensures var r := QualifiedFrom(ts, prelude);
            && r.rule.Qualified?
            && Kept(FlattenAll(r.rule.prelude) + Flatten(r.rule.block), r.rest,
                    FlattenAll(prelude) + FlattenAll(ts), left)
    decreases |ts|
  {
    hide Kept, Value;
    var v := Value(ts);
    left := ValueKept(ts);
    if StartsBlock(ts[0]) {
      PreludeThen(FlattenAll(prelude), Flatten(v.t), v.rest, FlattenAll(ts), left);
    } else {
      NotCutOff(ts, left);
      PreludeMore(prelude, v.t, v.rest, ts);
      left := QualifiedKeeps(v.rest, prelude + [v.t]);
    }
  }

  // If something is left to read, the value before it was closed.
  lemma NotCutOff(ts: seq<Token>, left: seq<Bracket>)
    requires ts != [] && Kept(Flatten(Value(ts).t), Value(ts).rest, FlattenAll(ts), left)
    ensures left == [] || Value(ts).rest == []
    ensures left == [] ==> Flatten(Value(ts).t) + FlattenAll(Value(ts).rest) == FlattenAll(ts)
  {
    assert left == [] ==> FlattenAll(ts) + Closers(left) == FlattenAll(ts);
  }

  // An at-rule is its prelude and then its block, or the semicolon or the end that
  // stands for it.
  lemma {:induction false} AtKeeps(ts: seq<Token>, name: Token, prelude: seq<Token>)
    returns (end: seq<Token>, left: seq<Bracket>)
    ensures var r := AtFrom(ts, name, prelude);
            && r.rule.AtRule? && r.rule.name == name
            && (if r.rule.body.HasBlock? then end == Flatten(r.rule.body.block)
                else end == [Delim(';')] || (end == [] && r.rest == []))
            && Kept(FlattenAll(r.rule.prelude) + end, r.rest, FlattenAll(prelude) + FlattenAll(ts), left)
    decreases |ts|
  {
    hide Kept, Value;
    end, left := [], [];
    if ts == [] {
      assert FlattenAll(prelude) + [] == FlattenAll(prelude);
      NothingCutOff(FlattenAll(prelude), [], FlattenAll(prelude) + FlattenAll(ts));
    } else if ts[0] == Delim(';') {
      end := [Delim(';')];
      Semicolon(ts);
      assert (FlattenAll(prelude) + end) + FlattenAll(ts[1..]) == FlattenAll(prelude) + (end + FlattenAll(ts[1..]));
      NothingCutOff(FlattenAll(prelude) + end, ts[1..], FlattenAll(prelude) + FlattenAll(ts));
    } else {
      var v := Value(ts);
      left := ValueKept(ts);
      if StartsBlock(ts[0]) {
        end := Flatten(v.t);
        PreludeThen(FlattenAll(prelude), end, v.rest, FlattenAll(ts), left);
      } else if left == [] {
        NotCutOff(ts, left);
        PreludeMore(prelude, v.t, v.rest, ts);
        end, left := AtKeeps(v.rest, name, prelude + [v.t]);
      } else {
        NotCutOff(ts, left);
        AtEnd(ts, prelude, left);
      }
    }
  }

  lemma NothingCutOff(parts: seq<Token>, rest: seq<Token>, ts: seq<Token>)
    requires parts + FlattenAll(rest) == ts
    ensures Kept(parts, rest, ts, [])
  {
    assert ts + Closers([]) == ts;
  }

  lemma Semicolon(ts: seq<Token>)
    requires ts != [] && ts[0] == Delim(';')
    ensures FlattenAll(ts) == [Delim(';')] + FlattenAll(ts[1..])
  {
  }

  // The last value of a prelude was cut off.
  lemma AtEnd(ts: seq<Token>, prelude: seq<Token>, left: seq<Bracket>)
    requires ts != [] && Value(ts).rest == [] && Kept(Flatten(Value(ts).t), [], FlattenAll(ts), left)
    ensures Kept(FlattenAll(prelude + [Value(ts).t]) + [], [], FlattenAll(prelude) + FlattenAll(ts), left)
  {
    var t := Value(ts).t;
    PreludeThen(FlattenAll(prelude), Flatten(t), [], FlattenAll(ts), left);
    FlattenConcat(prelude, [t]);
    FlattenOne(t, []);
    assert [t] + [] == [t] && Flatten(t) + [] == Flatten(t);
    var all := FlattenAll(prelude + [t]);
    assert all + [] == all;
  }

  // The values up to a semicolon, and what is left.
  lemma {:induction false} ToSemicolonKeeps(ts: seq<Token>) returns (left: seq<Bracket>)
    ensures var r := ToSemicolon(ts); Kept(FlattenAll(r.0), r.1, FlattenAll(ts), left)
    ensures ToSemicolon(ts).1 == [] || ToSemicolon(ts).1[0] == Delim(';')
    decreases |ts|
  {
    hide Value;
    left := [];
    if ts == [] || ts[0] == Delim(';') {
      assert FlattenAll([]) + FlattenAll(ts) == FlattenAll(ts);
      NothingCutOff([], ts, FlattenAll(ts));
    } else {
      var v := Value(ts);
      var cut := ValueKept(ts);
      var r := ToSemicolon(v.rest);
      FlattenOne(v.t, r.0);
      left := ToSemicolonKeeps(v.rest);
      if cut == [] {
        PreludeThen(Flatten(v.t), FlattenAll(r.0), r.1, FlattenAll(v.rest), left);
        NotCutOff(ts, cut);
      } else {
        left := cut;
        assert Flatten(v.t) + FlattenAll([]) == Flatten(v.t);
      }
    }
  }
}
