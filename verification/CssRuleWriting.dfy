// Writing rules and declarations as component values or tokens and reading them back:
// every one is returned, once and in order.
module CssRuleWriting {
  import opened CssTokens
  import opened Componentize
  import opened CssDeclaration
  import opened CssRules

  // A component value as the parser groups them.
  predicate Whole(t: Token) { !t.Open? && !t.Function? }

  predicate IsCurly(t: Token) { t.Block? && t.b == Curly }

  // What can stand in a prelude.
  predicate InPrelude(ts: seq<Token>) {
    forall i | 0 <= i < |ts| :: Whole(ts[i]) && !IsCurly(ts[i])
  }

  predicate NoSemicolon(ts: seq<Token>) {
    forall i | 0 <= i < |ts| :: Whole(ts[i]) && ts[i] != Delim(';')
  }

  // What is passed over between rules.
  predicate Filler(ts: seq<Token>, topLevel: bool) {
    forall i | 0 <= i < |ts| :: ts[i] == White || (topLevel && (ts[i] == Cdo || ts[i] == Cdc))
  }

  // A rule that reads as one: a qualified rule does not start like an at-rule or with
  // what is passed over, and an at-rule's prelude has no semicolon.
  predicate Readable(r: RawRule, topLevel: bool) {
    match r
    case Qualified(prelude, block) =>
      && InPrelude(prelude) && IsCurly(block)
      && (prelude != [] ==> !prelude[0].AtKeyword? && !Filler([prelude[0]], topLevel))
    case AtRule(name, prelude, body) =>
      && name.AtKeyword? && InPrelude(prelude) && NoSemicolon(prelude)
      && (body.HasBlock? ==> IsCurly(body.block))
  }

  function Written(r: RawRule): seq<Token> {
    match r
    case Qualified(prelude, block) => prelude + [block]
    case AtRule(name, prelude, body) => [name] + (prelude + [if body.HasBlock? then body.block else Delim(';')])
  }

  // Rules with something passed over before each.
  function Sheet(fillers: seq<seq<Token>>, rules: seq<RawRule>): seq<Token>
    requires |fillers| == |rules|
  {
    if rules == [] then [] else fillers[0] + (Written(rules[0]) + Sheet(fillers[1..], rules[1..]))
  }

  lemma {:induction false} QualifiedIsRead(prelude: seq<Token>, block: Token, rest: seq<Token>, acc: seq<Token>)
    requires InPrelude(prelude) && IsCurly(block)
    ensures QualifiedFrom(prelude + ([block] + rest), acc) == Just(Qualified(acc + prelude, block), rest)
    decreases |prelude|
  {
    var ts := prelude + ([block] + rest);
    if prelude == [] {
      assert ts[0] == block && ts[1..] == rest && acc + [] == acc;
    } else {
      assert ts[0] == prelude[0] && ts[1..] == prelude[1..] + ([block] + rest);
      QualifiedIsRead(prelude[1..], block, rest, acc + [prelude[0]]);
      assert (acc + [prelude[0]]) + prelude[1..] == acc + prelude;
    }
  }

  lemma {:induction false} AtIsRead(name: Token, prelude: seq<Token>, body: Body, rest: seq<Token>, acc: seq<Token>)
    requires InPrelude(prelude) && NoSemicolon(prelude) && (body.HasBlock? ==> IsCurly(body.block))
    ensures AtFrom(prelude + ([if body.HasBlock? then body.block else Delim(';')] + rest), name, acc) ==
            AtRead(AtRule(name, acc + prelude, body), rest)
    decreases |prelude|
  {
    var end := if body.HasBlock? then body.block else Delim(';');
    var ts := prelude + ([end] + rest);
    if prelude == [] {
      assert ts[0] == end && ts[1..] == rest && acc + [] == acc;
    } else {
      assert ts[0] == prelude[0] && ts[1..] == prelude[1..] + ([end] + rest);
      AtIsRead(name, prelude[1..], body, rest, acc + [prelude[0]]);
      assert (acc + [prelude[0]]) + prelude[1..] == acc + prelude;
    }
  }

  lemma {:induction false} FillerIsSkipped(filler: seq<Token>, rest: seq<Token>, topLevel: bool)
    requires Filler(filler, topLevel)
    ensures Rules(filler + rest, topLevel) == Rules(rest, topLevel)
    decreases |filler|
  {
    if filler == [] {
      assert filler + rest == rest;
    } else {
      assert (filler + rest)[0] == filler[0] && (filler + rest)[1..] == filler[1..] + rest;
      FillerIsSkipped(filler[1..], rest, topLevel);
    }
  }

  lemma QualifiedIsFirst(prelude: seq<Token>, block: Token, rest: seq<Token>, topLevel: bool)
    requires Readable(Qualified(prelude, block), topLevel)
    ensures var ts := prelude + ([block] + rest);
            ts != [] && !Skipped(ts[0], topLevel) && !ts[0].AtKeyword?
    ensures QualifiedFrom(prelude + ([block] + rest), []) == Just(Qualified(prelude, block), rest)
  {
    QualifiedIsRead(prelude, block, rest, []);
    assert [] + prelude == prelude;
    hide QualifiedFrom;
    assert (prelude + ([block] + rest))[0] == if prelude == [] then block else prelude[0];
    assert prelude != [] ==> [prelude[0]][0] == prelude[0];
  }

  lemma AtIsFirst(name: Token, prelude: seq<Token>, body: Body, rest: seq<Token>, topLevel: bool)
    requires Readable(AtRule(name, prelude, body), topLevel)
    ensures var ts := Written(AtRule(name, prelude, body)) + rest;
            ts != [] && ts[0] == name && AtFrom(ts[1..], name, []) == AtRead(AtRule(name, prelude, body), rest)
  {
    hide AtFrom, InPrelude, NoSemicolon;
    var ts := Written(AtRule(name, prelude, body)) + rest;
    var end := if body.HasBlock? then body.block else Delim(';');
    assert ts[0] == name && ts[1..] == prelude + ([end] + rest);
    AtIsRead(name, prelude, body, rest, []);
    assert [] + prelude == prelude;
  }

  lemma RuleIsRead(r: RawRule, rest: seq<Token>, topLevel: bool)
    requires Readable(r, topLevel)
    ensures Rules(Written(r) + rest, topLevel) == [r] + Rules(rest, topLevel)
  {
    hide QualifiedFrom, AtFrom;
    match r
    case Qualified(prelude, block) =>
      assert Written(r) + rest == prelude + ([block] + rest);
      QualifiedIsFirst(prelude, block, rest, topLevel);
    case AtRule(name, prelude, body) =>
      AtIsFirst(name, prelude, body, rest, topLevel);
  }

  // No rule is dropped, and none made up: what comes after is read as if it were alone.
  lemma {:induction false} RulesAreRead(fillers: seq<seq<Token>>, rules: seq<RawRule>, rest: seq<Token>, topLevel: bool)
    requires |fillers| == |rules|
    requires forall i | 0 <= i < |rules| :: Filler(fillers[i], topLevel) && Readable(rules[i], topLevel)
    ensures Rules(Sheet(fillers, rules) + rest, topLevel) == rules + Rules(rest, topLevel)
    decreases |rules|
  {
    hide Readable, Written, Filler, Rules;
    if rules == [] {
      assert Sheet(fillers, rules) + rest == rest && rules + Rules(rest, topLevel) == Rules(rest, topLevel);
    } else {
      var more := Sheet(fillers[1..], rules[1..]) + rest;
      assert Sheet(fillers, rules) + rest == fillers[0] + (Written(rules[0]) + more);
      FillerIsSkipped(fillers[0], Written(rules[0]) + more, topLevel);
      RuleIsRead(rules[0], more, topLevel);
      RulesAreRead(fillers[1..], rules[1..], rest, topLevel);
      assert [rules[0]] + (rules[1..] + Rules(rest, topLevel)) == rules + Rules(rest, topLevel);
    }
  }

  // The same from the plain tokens.
  lemma TokensAreRead(fillers: seq<seq<Token>>, rules: seq<RawRule>, topLevel: bool)
    requires |fillers| == |rules| && AllProper(Sheet(fillers, rules))
    requires forall i | 0 <= i < |rules| :: Filler(fillers[i], topLevel) && Readable(rules[i], topLevel)
    ensures Rules(FlattenAll(Sheet(fillers, rules)), topLevel) == rules
  {
    var ts := Sheet(fillers, rules);
    RulesReadTheSame(FlattenAll(ts), topLevel);
    GroupingUndoesFlattening(ts);
    RulesAreRead(fillers, rules, [], topLevel);
    assert ts + [] == ts && rules + [] == rules;
  }

  // A qualified rule the end cuts off before its block is not returned; an at-rule is.
  lemma {:induction false} CutOff(prelude: seq<Token>, acc: seq<Token>, name: Token)
    requires InPrelude(prelude)
    ensures QualifiedFrom(prelude, acc) == Nothing
    ensures NoSemicolon(prelude) ==> AtFrom(prelude, name, acc) == AtRead(AtRule(name, acc + prelude, NoBlock), [])
    decreases |prelude|
  {
    if prelude == [] {
      assert acc + [] == acc;
    } else {
      CutOff(prelude[1..], acc + [prelude[0]], name);
      assert (acc + [prelude[0]]) + prelude[1..] == acc + prelude;
    }
  }

  // ----------------------------------------------------------------- style blocks

  datatype Entry = Decl(name: Token, value: seq<Token>) | Nested(rule: RawRule)

  predicate EntryReadable(e: Entry) {
    match e
    case Decl(name, value) => name.Ident? && NoSemicolon(value)
    case Nested(rule) =>
      Readable(rule, false) && (rule.Qualified? ==> rule.prelude != [] && rule.prelude[0] == Delim('&'))
  }

  function EntryWritten(e: Entry): seq<Token> {
    match e
    case Decl(name, value) => [name] + (value + [Delim(';')])
    case Nested(rule) => Written(rule)
  }

  function Entries(es: seq<Entry>): seq<Token> {
    if es == [] then [] else EntryWritten(es[0]) + Entries(es[1..])
  }

  function Decls(es: seq<Entry>): seq<Declaration>
    requires forall i | 0 <= i < |es| :: EntryReadable(es[i])
  {
    if es == [] then []
    else DeclsOf(es[0]) + Decls(es[1..])
  }

  function DeclsOf(e: Entry): seq<Declaration>
    requires EntryReadable(e)
  {
    if e.Decl? then Given(DeclarationOf([e.name] + e.value)) else []
  }

  function NestedRules(es: seq<Entry>): seq<RawRule> {
    if es == [] then [] else (if es[0].Nested? then [es[0].rule] else []) + NestedRules(es[1..])
  }

  lemma {:induction false} ValueIsRead(value: seq<Token>, rest: seq<Token>)
    requires NoSemicolon(value) && rest != [] && rest[0] == Delim(';')
    ensures ToSemicolon(value + rest) == (value, rest)
    decreases |value|
  {
    if value == [] {
      assert value + rest == rest;
    } else {
      assert (value + rest)[0] == value[0] && (value + rest)[1..] == value[1..] + rest;
      ValueIsRead(value[1..], rest);
      assert [value[0]] + value[1..] == value;
    }
  }

  lemma DeclIsRead(name: Token, value: seq<Token>, rest: seq<Token>)
    requires name.Ident? && NoSemicolon(value)
    ensures var c := StyleBlock(rest);
            StyleBlock([name] + (value + [Delim(';')]) + rest) ==
            Contents(Given(DeclarationOf([name] + value)) + c.decls, c.rules)
  {
    hide ToSemicolon, DeclarationOf, Given;
    var ts, end := [name] + (value + [Delim(';')]) + rest, [Delim(';')] + rest;
    assert ts[0] == name && ts[1..] == value + end;
    ValueIsRead(value, end);
    assert end[1..] == rest && StyleBlock(end) == StyleBlock(rest);
  }

  lemma NestedIsRead(r: RawRule, rest: seq<Token>)
    requires EntryReadable(Nested(r))
    ensures var c := StyleBlock(rest); StyleBlock(Written(r) + rest) == Contents(c.decls, [r] + c.rules)
  {
    hide QualifiedFrom, AtFrom;
    match r
    case Qualified(prelude, block) =>
      NestedQualified(prelude, block, rest);
    case AtRule(name, prelude, body) =>
      AtIsFirst(name, prelude, body, rest, false);
  }

  lemma NestedQualified(prelude: seq<Token>, block: Token, rest: seq<Token>)
    requires EntryReadable(Nested(Qualified(prelude, block)))
    ensures var c := StyleBlock(rest);
            StyleBlock(Written(Qualified(prelude, block)) + rest) ==
            Contents(c.decls, [Qualified(prelude, block)] + c.rules)
  {
    var ts := prelude + ([block] + rest);
    Regroup(prelude, [block], rest);
    QualifiedIsFirst(prelude, block, rest, false);
    hide QualifiedFrom, Readable, AtFrom;
    assert ts[0] == prelude[0] == Delim('&');
  }

  // Every declaration and every rule of a style block is returned, in order.
  lemma {:induction false} EntriesAreRead(es: seq<Entry>, rest: seq<Token>)
    requires forall i | 0 <= i < |es| :: EntryReadable(es[i])
    ensures var c := StyleBlock(rest);
            StyleBlock(Entries(es) + rest) == Contents(Decls(es) + c.decls, NestedRules(es) + c.rules)
    decreases |es|
  {
    hide EntryReadable, StyleBlock, Written, EntryWritten, DeclsOf;
    var c := StyleBlock(rest);
    if es == [] {
      assert Entries(es) + rest == rest && Decls(es) + c.decls == c.decls && NestedRules(es) + c.rules == c.rules;
    } else {
      var more := Entries(es[1..]) + rest;
      Regroup(EntryWritten(es[0]), Entries(es[1..]), rest);
      EntryIsRead(es[0], more);
      EntriesAreRead(es[1..], rest);
      var d := DeclsOf(es[0]);
      var r := if es[0].Nested? then [es[0].rule] else [];
      Regroup(d, Decls(es[1..]), c.decls);
      Regroup(r, NestedRules(es[1..]), c.rules);
    }
  }

  lemma Regroup<T>(a: seq<T>, b: seq<T>, c: seq<T>)
    ensures (a + b) + c == a + (b + c)
  {
  }

  lemma EntryIsRead(e: Entry, rest: seq<Token>)
    requires EntryReadable(e)
    ensures var c := StyleBlock(rest);
            StyleBlock(EntryWritten(e) + rest) ==
            Contents(DeclsOf(e) + c.decls, (if e.Nested? then [e.rule] else []) + c.rules)
  {
    var c := StyleBlock(rest);
    match e
    case Decl(name, value) =>
      DeclIsRead(name, value, rest);
      assert [] + c.rules == c.rules;
    case Nested(rule) =>
      NestedIsRead(rule, rest);
      assert [] + c.decls == c.decls;
  }

  // ------------------------------------------------------------------- declarations

  // A name, a colon and a value are that declaration, whatever whitespace is around the
  // colon and the value; without a colon there is none.
  lemma PlainDeclaration(name: string, space: seq<Token>, before: seq<Token>, value: seq<Token>, after: seq<Token>)
    requires (forall i | 0 <= i < |space| :: space[i] == White) && (forall i | 0 <= i < |before| :: before[i] == White)
    requires (forall i | 0 <= i < |after| :: after[i] == White)
    requires value != [] && value[0] != White && value[|value| - 1] != White
    requires (forall i | 0 <= i < |value| :: Whole(value[i])) && !Marked(value)
    ensures DeclarationOf([Ident(name)] + (space + ([Delim(':')] + (before + (value + after))))) ==
            Declaration(name, value, false)
  {
    hide SkipWhite, Behind, Taken;
    var behind := [Delim(':')] + (before + (value + after));
    assert ([Ident(name)] + (space + behind))[1..] == space + behind;
    SpaceIsSkipped(space, behind);
    BehindColon(name, before, value + after);
    PlainIsTaken(name, value, after);
  }

  lemma BehindColon(name: string, before: seq<Token>, v: seq<Token>)
    requires (forall i | 0 <= i < |before| :: before[i] == White) && (v != [] ==> v[0] != White)
    requires forall i | 0 <= i < |v| :: Whole(v[i])
    ensures Behind(name, [Delim(':')] + (before + v)) == Taken(name, v)
  {
    hide SkipWhite, Taken, All;
    assert ([Delim(':')] + (before + v))[1..] == before + v;
    SpaceIsSkipped(before, v);
    AllOfWhole(v);
  }

  lemma PlainIsTaken(name: string, value: seq<Token>, after: seq<Token>)
    requires forall i | 0 <= i < |after| :: after[i] == White
    requires value != [] && value[0] != White && value[|value| - 1] != White && !Marked(value)
    ensures Taken(name, value + after) == Declaration(name, value, false)
  {
    hide SkipWhite, DropWhite, Marked;
    SpaceIsSkipped([], value + after);
    assert [] + (value + after) == value + after;
    SpaceIsDropped(value, after);
    SpaceIsSkipped([], value);
    assert [] + value == value;
    SpaceIsDropped(value, []);
    assert value + [] == value;
  }

  lemma {:induction false} SpaceIsSkipped(space: seq<Token>, rest: seq<Token>)
    requires (forall i | 0 <= i < |space| :: space[i] == White) && (rest != [] ==> rest[0] != White)
    ensures SkipWhite(space + rest) == rest
    decreases |space|
  {
    if space == [] {
      assert space + rest == rest;
    } else {
      assert (space + rest)[1..] == space[1..] + rest;
      SpaceIsSkipped(space[1..], rest);
    }
  }

  lemma {:induction false} SpaceIsDropped(value: seq<Token>, space: seq<Token>)
    requires (forall i | 0 <= i < |space| :: space[i] == White) && (value != [] ==> value[|value| - 1] != White)
    ensures DropWhite(value + space) == value
    decreases |space|
  {
    if space == [] {
      assert value + space == value;
    } else {
      var n := |space| - 1;
      assert (value + space)[..|value| + n] == value + space[..n];
      SpaceIsDropped(value, space[..n]);
    }
  }

  lemma {:induction false} AllOfWhole(ts: seq<Token>)
    requires forall i | 0 <= i < |ts| :: Whole(ts[i])
    ensures All(ts) == ts
  {
    if ts != [] {
      AllOfWhole(ts[1..]);
      assert ts == [ts[0]] + ts[1..];
    }
  }

  // "important", in any case.
  lemma ImportantIs(t: Token)
    ensures IsImportant(t) <==>
            t.Ident? && |t.name| == 9 &&
            forall i | 0 <= i < 9 :: t.name[i] == "important"[i] || t.name[i] == "IMPORTANT"[i]
  {
    if t.Ident? && |t.name| == 9 {
      var low, small, big := Lower(t.name), "important", "IMPORTANT";
      assert forall i | 0 <= i < 9 :: small[i] as int == big[i] as int + 32;
      assert low == small <==> forall i | 0 <= i < 9 :: low[i] == small[i];
      forall i | 0 <= i < 9 ensures low[i] == small[i] <==> t.name[i] == small[i] || t.name[i] == big[i] {
      }
    }
  }
}
