// The parser: a cursor over a token list, moved on token by token and stepped back
// to read a token again.
module CssParser {
  import opened CssTokens
  import opened Componentize
  import opened CssDeclaration
  import opened CssRules

  datatype Next = Eof | Next(t: Token)

  lemma OneValue(done: seq<Token>, t: Token, rest: seq<Token>)
    ensures done + ([t] + rest) == (done + [t]) + rest
  {
  }

  lemma OneRule(done: seq<RawRule>, r: RawRule, rest: seq<RawRule>)
    ensures done + ([r] + rest) == (done + [r]) + rest
  {
  }

  lemma OneDeclaration(done: seq<Declaration>, d: Declaration, rest: seq<Declaration>)
    ensures done + (Given(d) + rest) == (done + Given(d)) + rest
  {
  }

  class Parser {
    const tokens: seq<Token>
    var index: nat

    ghost predicate Valid()
      reads this
    {
      index <= |tokens|
    }

    ghost function Rest(): seq<Token>
      requires Valid()
      reads this
    {
      tokens[index..]
    }

    constructor (tokens: seq<Token>)
      ensures Valid() && Rest() == tokens && this.tokens == tokens
    {
      this.tokens := tokens;
      index := 0;
    }

    method NextToken() returns (r: Next)
      requires Valid()
      modifies this
      ensures Valid()
      ensures if old(Rest()) == [] then r == Eof && index == old(index)
              else r == Next(old(Rest())[0]) && index == old(index) + 1 && Rest() == old(Rest())[1..]
    {
      if index == |tokens| {
        return Eof;
      }
      r := Next(tokens[index]);
      index := index + 1;
    }

    method PeekToken() returns (r: Next)
      requires Valid()
      ensures r == if Rest() == [] then Eof else Next(Rest()[0])
    {
      r := if index == |tokens| then Eof else Next(tokens[index]);
    }

    method ConsumeComponentValue() returns (t: Next)
      requires Valid()
      modifies this
      ensures Valid() && old(index) <= index
      ensures if old(Rest()) == [] then t == Eof && index == old(index)
              else t == Next(Value(old(Rest())).t) && Rest() == Value(old(Rest())).rest && index > old(index)
      decreases |tokens| - index, 0
    {
      t := NextToken();
      if t.Next? {
        match t.t
        case Open(b) =>
          var v := ConsumeSimpleBlock(b);
          t := Next(v);
        case Function(name) =>
          var v := ConsumeFunction(name);
          t := Next(v);
        case _ =>
      }
    }

    method ConsumeSimpleBlock(b: Bracket) returns (block: Token)
      requires Valid()
      modifies this
      ensures Valid() && old(index) <= index
      ensures block == Block(b, Values(old(Rest()), b).ts) && Rest() == Values(old(Rest()), b).rest
      decreases |tokens| - index, 2
    {
      var value := ConsumeUntil(b);
      block := Block(b, value);
    }

    method ConsumeFunction(name: string) returns (fun: Token)
      requires Valid()
      modifies this
      ensures Valid() && old(index) <= index
      ensures fun == FunctionValue(name, Values(old(Rest()), Round).ts) && Rest() == Values(old(Rest()), Round).rest
      decreases |tokens| - index, 2
    {
      var value := ConsumeUntil(Round);
      fun := FunctionValue(name, value);
    }

    // The loop of both.
    method ConsumeUntil(b: Bracket) returns (value: seq<Token>)
      requires Valid()
      modifies this
      ensures Valid() && old(index) <= index
      ensures value == Values(old(Rest()), b).ts && Rest() == Values(old(Rest()), b).rest
      decreases |tokens| - index, 1
    {
      value := [];
      ghost var all := Values(Rest(), b);
      while true
        invariant Valid() && old(index) <= index
        invariant all.ts == value + Values(Rest(), b).ts && all.rest == Values(Rest(), b).rest
        decreases |tokens| - index
      {
        ghost var ts := Rest();
        var t := NextToken();
        if t == Next(Close(b)) || t == Eof {
          return;
        }
        index := index - 1;
        assert Rest() == ts;
        var v := ConsumeComponentValue();
        OneValue(value, v.t, Values(Rest(), b).ts);
        value := value + [v.t];
      }
    }

    method Componentize() returns (result: seq<Token>)
      requires Valid()
      modifies this
      ensures Valid() && result == All(old(Rest()))
    {
      result := [];
      while true
        invariant Valid() && All(old(Rest())) == result + All(Rest())
        decreases |tokens| - index
      {
        var t := ConsumeComponentValue();
        if t == Eof { break; }
        result := result + [t.t];
      }
    }

    // ---------------------------------------------------------------------- rules

    method ConsumeQualifiedRule() returns (r: QualifiedRead)
      requires Valid()
      modifies this
      ensures Valid() && old(index) <= index && (old(Rest()) != [] ==> old(index) < index)
      ensures r == QualifiedFrom(old(Rest()), []) && Rest() == if r.Just? then r.rest else []
    {
      var prelude := [];
      while true
        invariant Valid() && old(index) <= index
        invariant QualifiedFrom(old(Rest()), []) == QualifiedFrom(Rest(), prelude)
        decreases |tokens| - index
      {
        var t := NextToken();
        if t == Eof {
          return Nothing;
        } else if t == Next(Open(Curly)) {
          var block := ConsumeSimpleBlock(Curly);
          return Just(Qualified(prelude, block), tokens[index..]);
        } else if t.t.Block? && t.t.b == Curly {
          return Just(Qualified(prelude, t.t), tokens[index..]);
        }
        index := index - 1;
        var v := ConsumeComponentValue();
        prelude := prelude + [v.t];
      }
    }

    method ConsumeAtRule() returns (rule: RawRule)
      requires Valid() && Rest() != [] && Rest()[0].AtKeyword?
      modifies this
      ensures Valid() && old(index) < index
      ensures var r := AtFrom(old(Rest())[1..], old(Rest())[0], []); rule == r.rule && Rest() == r.rest
    {
      var name := NextToken();
      var prelude := [];
      ghost var ts := tokens[index..];
      while true
        invariant Valid() && old(index) < index
        invariant AtFrom(ts, name.t, []) == AtFrom(Rest(), name.t, prelude)
        decreases |tokens| - index
      {
        var t := NextToken();
        if t == Eof || t == Next(Delim(';')) {
          return AtRule(name.t, prelude, NoBlock);
        } else if t == Next(Open(Curly)) {
          var block := ConsumeSimpleBlock(Curly);
          return AtRule(name.t, prelude, HasBlock(block));
        } else if t.t.Block? && t.t.b == Curly {
          return AtRule(name.t, prelude, HasBlock(t.t));
        }
        index := index - 1;
        var v := ConsumeComponentValue();
        prelude := prelude + [v.t];
      }
    }

    method ConsumeListOfRules(topLevel: bool) returns (rules: seq<RawRule>)
      requires Valid()
      modifies this
      ensures Valid() && rules == Rules(old(Rest()), topLevel)
    {
      rules := [];
      ghost var all := Rules(Rest(), topLevel);
      while true
        invariant Valid() && all == rules + Rules(Rest(), topLevel)
        decreases |tokens| - index
      {
        ghost var ts := Rest();
        var t := NextToken();
        if t == Eof {
          return;
        } else if !Skipped(t.t, topLevel) {
          index := index - 1;
          assert Rest() == ts;
          rules := ConsumeRule(topLevel, rules);
        }
      }
    }

    // The at-rule or qualified rule that starts here.
    method ConsumeRule(topLevel: bool, before: seq<RawRule>) returns (rules: seq<RawRule>)
      requires Valid() && Rest() != [] && !Skipped(Rest()[0], topLevel)
      modifies this
      ensures Valid() && old(index) < index
      ensures before + Rules(old(Rest()), topLevel) == rules + Rules(Rest(), topLevel)
    {
      rules := before;
      var t := PeekToken();
      if t.t.AtKeyword? {
        var rule := ConsumeAtRule();
        rules := rules + [rule];
        OneRule(before, rule, Rules(Rest(), topLevel));
      } else {
        var r := ConsumeQualifiedRule();
        if r.Just? {
          rules := rules + [r.rule];
          OneRule(before, r.rule, Rules(Rest(), topLevel));
        }
      }
    }

    method ConsumeToSemicolon() returns (value: seq<Token>)
      requires Valid()
      modifies this
      ensures Valid() && old(index) <= index
      ensures value == ToSemicolon(old(Rest())).0 && Rest() == ToSemicolon(old(Rest())).1
    {
      value := [];
      ghost var all := ToSemicolon(Rest());
      var t := PeekToken();
      while t != Eof && t != Next(Delim(';'))
        invariant Valid() && old(index) <= index && t == if Rest() == [] then Eof else Next(Rest()[0])
        invariant all.0 == value + ToSemicolon(Rest()).0 && all.1 == ToSemicolon(Rest()).1
        decreases |tokens| - index
      {
        var v := ConsumeComponentValue();
        OneValue(value, v.t, ToSemicolon(Rest()).0);
        value := value + [v.t];
        t := PeekToken();
      }
    }

    method SkipWhitespace()
      requires Valid()
      modifies this
      ensures Valid() && old(index) <= index && Rest() == SkipWhite(old(Rest()))
    {
      var t := PeekToken();
      while t.Next? && t.t.White?
        invariant Valid() && old(index) <= index && t == if Rest() == [] then Eof else Next(Rest()[0])
        invariant SkipWhite(Rest()) == SkipWhite(old(Rest()))
        decreases |tokens| - index
      {
        var _ := NextToken();
        t := PeekToken();
      }
    }

    // A declaration from a list that starts with its name.
    method ConsumeDeclaration() returns (decl: Declaration)
      requires Valid() && Rest() != [] && Rest()[0].Ident?
      modifies this
      ensures Valid() && decl == DeclarationOf(old(Rest()))
    {
      hide SkipWhite, Behind, Rest;
      var token := NextToken();
      SkipWhitespace();
      decl := ConsumeBehind(token.t.name);
    }

    // The colon and what is behind it.
    method ConsumeBehind(name: string) returns (decl: Declaration)
      requires Valid()
      modifies this
      ensures Valid() && decl == Behind(name, old(Rest()))
    {
      hide SkipWhite, All, Taken, Rest;
      var t := PeekToken();
      if t != Next(Delim(':')) {
        return NO_DECLARATION;
      }
      var _ := NextToken();
      SkipWhitespace();
      var value := ConsumeRest();
      decl := TakeMark(name, value);
    }

    // Component values to the end.
    method ConsumeRest() returns (value: seq<Token>)
      requires Valid()
      modifies this
      ensures Valid() && value == All(old(Rest()))
    {
      value := [];
      ghost var all := All(Rest());
      var t := PeekToken();
      while t != Eof
        invariant Valid() && t == if Rest() == [] then Eof else Next(Rest()[0])
        invariant all == value + All(Rest())
        decreases |tokens| - index
      {
        var v := ConsumeComponentValue();
        OneValue(value, v.t, All(Rest()));
        value := value + [v.t];
        t := PeekToken();
      }
    }

    method ConsumeStyleBlockContents() returns (c: Contents)
      requires Valid()
      modifies this
      ensures Valid() && c == StyleBlock(old(Rest()))
    {
      hide StyleBlock;
      c := Contents([], []);
      ghost var all := StyleBlock(Rest());
      NothingMore(all);
      while true
        invariant Valid() && all == Joined(c, StyleBlock(Rest()))
        decreases |tokens| - index
      {
        ghost var ts := Rest();
        var t := NextToken();
        if t == Eof {
          NothingMore(c);
          return;
        } else if t.t.White? || t.t == Delim(';') {
          PassedOver(ts);
        } else {
          index := index - 1;
          assert Rest() == ts;
          c := ConsumeContent(c);
        }
      }
    }

    // The tokens up to the semicolon are a list of their own, and a declaration is
    // read from it.
    method AppendDeclaration(before: seq<Declaration>) returns (decls: seq<Declaration>, ghost decl: Declaration)
      requires Valid() && Rest() != [] && Rest()[0].Ident?
      modifies this
      ensures Valid() && old(index) < index && Rest() == ToSemicolon(old(Rest())[1..]).1
      ensures decl == DeclarationOf([old(Rest())[0]] + ToSemicolon(old(Rest())[1..]).0)
      ensures decls == before + Given(decl)
    {
      hide DeclarationOf, ToSemicolon, Rest;
      var t := NextToken();
      var value := ConsumeToSemicolon();
      var parser := new Parser([t.t] + value);
      var d := parser.ConsumeDeclaration();
      decl := d;
      decls := before;
      if d.name != "" {
        decls := decls + [d];
      }
    }

    // The declaration or rule that starts here, or what has to be thrown away.
    method ConsumeContent(before: Contents) returns (c: Contents)
      requires Valid() && Rest() != [] && !Rest()[0].White? && Rest()[0] != Delim(';')
      modifies this
      ensures Valid() && old(index) < index
      ensures Joined(before, StyleBlock(old(Rest()))) == Joined(c, StyleBlock(Rest()))
    {
      hide DeclarationOf, Given;
      c := before;
      ghost var ts := Rest();
      var t := PeekToken();
      if t.t.AtKeyword? {
        var rule := ConsumeAtRule();
        c := c.(rules := c.rules + [rule]);
        OneRule(before.rules, rule, StyleBlock(Rest()).rules);
      } else if t.t.Ident? {
        var decls;
        ghost var decl;
        decls, decl := AppendDeclaration(c.decls);
        c := c.(decls := decls);
        OneDeclaration(before.decls, decl, StyleBlock(Rest()).decls);
      } else if t.t == Delim('&') {
        var r := ConsumeQualifiedRule();
        if r.Just? {
          c := c.(rules := c.rules + [r.rule]);
          OneRule(before.rules, r.rule, StyleBlock(Rest()).rules);
        }
      } else {
        var _ := ConsumeToSemicolon();
        assert |Rest()| < |ts|;
      }
    }
  }

  lemma NothingMore(c: Contents)
    ensures StyleBlock([]) == Contents([], [])
    ensures Joined(c, Contents([], [])) == c == Joined(Contents([], []), c)
  {
  }

  lemma PassedOver(ts: seq<Token>)
    requires ts != [] && (ts[0].White? || ts[0] == Delim(';'))
    ensures StyleBlock(ts) == StyleBlock(ts[1..])
  {
  }

  // Trims the value and takes !important off its end.
  method TakeMark(name: string, v: seq<Token>) returns (decl: Declaration)
    ensures decl == Taken(name, v)
  {
    hide Trim, IsImportant;
    var value := TrimWhitespace(v);
    var important := false;
    if |value| >= 2 && IsImportant(value[|value| - 1]) && value[|value| - 2] == Delim('!') {
      value := value[..|value| - 2];
      important := true;
    }
    value := TrimWhitespace(value);
    decl := Declaration(name, value, important);
  }

  // Whitespace off both ends, a token at a time.
  method TrimWhitespace(tokens: seq<Token>) returns (r: seq<Token>)
    ensures r == Trim(tokens)
  {
    r := tokens;
    while r != [] && r[0].White?
      invariant SkipWhite(r) == SkipWhite(tokens)
      decreases |r|
    {
      r := r[1..];
    }
    while r != [] && r[|r| - 1].White?
      invariant DropWhite(r) == Trim(tokens)
      decreases |r|
    {
      r := r[..|r| - 1];
    }
  }

  function Joined(a: Contents, b: Contents): Contents {
    Contents(a.decls + b.decls, a.rules + b.rules)
  }
}
