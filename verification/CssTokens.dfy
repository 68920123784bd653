// CSS tokens and component values, and the token list a component value stands for.
module CssTokens {

  datatype Bracket = Curly | Square | Round

  // A token, or a component value holding tokens.
  datatype Token =
    | White
    | Open(b: Bracket)
    | Close(b: Bracket)
    | Function(name: string)
    | Delim(ch: char)         // :;, and the rest of the one-character tokens
    | Ident(name: string)
    | AtKeyword(name: string)
    | Cdo
    | Cdc
    | Bad                     // a bad string or a bad url
    | Other(code: nat)        // numbers, strings, hashes, urls
    | Block(b: Bracket, value: seq<Token>)
    | FunctionValue(name: string, value: seq<Token>)

  predicate IsFat(t: Token) { t.Block? || t.FunctionValue? }

  // The tokens a component value was made of.
  function Flatten(t: Token): seq<Token>
    decreases t
  {
    match t
    case Block(b, value) => [Open(b)] + FlattenAll(value) + [Close(b)]
    case FunctionValue(name, value) => [Function(name)] + FlattenAll(value) + [Close(Round)]
    case _ => [t]
  }

  function FlattenAll(ts: seq<Token>): seq<Token>
    decreases ts
  {
    if ts == [] then [] else Flatten(ts[0]) + FlattenAll(ts[1..])
  }

  lemma {:induction false} FlattenConcat(a: seq<Token>, b: seq<Token>)
    ensures FlattenAll(a + b) == FlattenAll(a) + FlattenAll(b)
  {
    hide Flatten;
    if a == [] {
      assert a + b == b;
    } else {
      FlattenConcat(a[1..], b);
      assert (a + b)[1..] == a[1..] + b && (a + b)[0] == a[0];
      assert (Flatten(a[0]) + FlattenAll(a[1..])) + FlattenAll(b) ==
             Flatten(a[0]) + (FlattenAll(a[1..]) + FlattenAll(b));
    }
  }

  lemma FlattenSingle(t: Token)
    ensures FlattenAll([t]) == Flatten(t)
  {
    hide Flatten;
    assert [t][1..] == [] && Flatten(t) + [] == Flatten(t);
  }

  lemma FlattenOne(t: Token, ts: seq<Token>)
    ensures FlattenAll([t] + ts) == Flatten(t) + FlattenAll(ts)
  {
    assert ([t] + ts)[1..] == ts;
  }
}
