// Declarations (CSS Syntax Module Level 3, section 5.4.6): a name, a colon, the
// component values, and whether they end in !important.
module CssDeclaration {
  import opened CssTokens
  import opened Componentize
  import opened Whitespace

  // Without a name it is no declaration.
  datatype Declaration = Declaration(name: string, value: seq<Token>, important: bool)

  const NO_DECLARATION := Declaration("", [], false)

  function SkipWhite(ts: seq<Token>): (r: seq<Token>)
    ensures |r| <= |ts| && r == ts[|ts| - |r|..] && (r != [] ==> !r[0].White?)
  {
    if ts != [] && ts[0].White? then SkipWhite(ts[1..]) else ts
  }

  function DropWhite(ts: seq<Token>): (r: seq<Token>)
    ensures |r| <= |ts| && r == ts[..|r|] && (r != [] ==> !r[|r| - 1].White?)
  {
    if ts != [] && ts[|ts| - 1].White? then DropWhite(ts[..|ts| - 1]) else ts
  }

  function Trim(ts: seq<Token>): seq<Token> { DropWhite(SkipWhite(ts)) }

  function LowerChar(c: char): char {
    if 'A' <= c <= 'Z' then (c as int + 32) as char else c
  }

  function Lower(s: string): string {
    seq(|s|, i requires 0 <= i < |s| => LowerChar(s[i]))
  }

  predicate IsImportant(t: Token) { t.Ident? && Lower(t.name) == "important" }

  predicate Marked(v: seq<Token>) {
    |v| >= 2 && IsImportant(v[|v| - 1]) && v[|v| - 2] == Delim('!')
  }

  // What is made of a name and the component values behind the colon.
  function Taken(name: string, v: seq<Token>): Declaration {
    var t := Trim(v);
    if Marked(t) then Declaration(name, Trim(t[..|t| - 2]), true) else Declaration(name, Trim(t), false)
  }

  function DeclarationOf(ts: seq<Token>): Declaration
    requires ts != [] && ts[0].Ident?
  {
    Behind(ts[0].name, SkipWhite(ts[1..]))
  }

  function Behind(name: string, ts: seq<Token>): Declaration {
    if ts == [] || ts[0] != Delim(':') then NO_DECLARATION else Taken(name, All(SkipWhite(ts[1..])))
  }

  // --------------------------------------------------------------- what the standard says

  // The last two tokens that are no whitespace are "!" and "important".
  predicate StandardMarked(v: seq<Token>) { Marked(Solids(v)) }

  lemma {:induction false} WhiteIsNotSolid(ts: seq<Token>)
    requires forall i | 0 <= i < |ts| :: ts[i].White?
    ensures Solids(ts) == []
  {
    if ts != [] { WhiteIsNotSolid(ts[1..]); }
  }

  lemma Grouped(a: seq<Token>, b: seq<Token>, c: seq<Token>)
    ensures a + (b + c) == a + b + c
  {
  }

  lemma {:induction false} SkipIsWhite(ts: seq<Token>)
    ensures forall i | 0 <= i < |ts| - |SkipWhite(ts)| :: ts[i].White?
  {
    if ts != [] && ts[0].White? {
      SkipIsWhite(ts[1..]);
      assert forall i | 1 <= i < |ts| :: ts[i] == ts[1..][i - 1];
    }
  }

  lemma {:induction false} DropIsWhite(ts: seq<Token>)
    ensures forall i | |DropWhite(ts)| <= i < |ts| :: ts[i].White?
  {
    if ts != [] && ts[|ts| - 1].White? { DropIsWhite(ts[..|ts| - 1]); }
  }

  lemma {:induction false} DropStays(ts: seq<Token>)
    requires ts != [] ==> !ts[0].White?
    ensures DropWhite(ts) != [] ==> !DropWhite(ts)[0].White?
  {
    if ts != [] && ts[|ts| - 1].White? { DropStays(ts[..|ts| - 1]); }
  }

  // Trimming takes whitespace off both ends and nothing else.
  lemma TrimIsInside(ts: seq<Token>) returns (before: seq<Token>, after: seq<Token>)
    ensures ts == before + Trim(ts) + after
    ensures (forall i | 0 <= i < |before| :: before[i].White?) && (forall i | 0 <= i < |after| :: after[i].White?)
    ensures Trim(ts) != [] ==> !Trim(ts)[0].White? && !Trim(ts)[|Trim(ts)| - 1].White?
    ensures Solids(Trim(ts)) == Solids(ts)
  {
    hide Solids, SkipWhite, DropWhite;
    var s := SkipWhite(ts);
    SkipIsWhite(ts);
    DropIsWhite(s);
    DropStays(s);
    before, after := ts[..|ts| - |s|], s[|DropWhite(s)|..];
    Middle(before, DropWhite(s), after);
    Grouped(before, DropWhite(s), after);
  }

  lemma Middle(before: seq<Token>, t: seq<Token>, after: seq<Token>)
    requires (forall i | 0 <= i < |before| :: before[i].White?) && (forall i | 0 <= i < |after| :: after[i].White?)
    ensures Solids(before + t + after) == Solids(t)
  {
    hide Solids;
    WhiteIsNotSolid(before);
    WhiteIsNotSolid(after);
    SolidsConcat(before + t, after);
    SolidsConcat(before, t);
    assert [] + Solids(t) == Solids(t) && Solids(t) + [] == Solids(t);
  }

  lemma SolidsOfTwo(a: Token, b: Token)
    requires !a.White? && !b.White?
    ensures Solids([a, b]) == [a, b]
  {
    assert [a, b][1..] == [b] && [b][1..] == [];
    assert Solids([b]) == [b];
  }

  lemma TwoAtEnd(s: seq<Token>, a: Token, b: Token)
    requires !a.White? && !b.White?
    ensures Solids(s + [a, b]) == Solids(s) + [a, b]
  {
    hide Solids;
    SolidsOfTwo(a, b);
    SolidsConcat(s, [a, b]);
  }

  lemma OneAtMost(t: seq<Token>)
    requires |t| <= 1
    ensures |Solids(t)| <= 1
  {
    if |t| == 1 { assert t[1..] == []; }
  }

  // A declaration is important when the standard says so, unless whitespace stands
  // between "!" and "important".  Its value is the tokens there are but the mark's,
  // and does not begin or end with whitespace.
  lemma TakenIs(name: string, v: seq<Token>)
    ensures var d, t := Taken(name, v), Trim(v);
            && d.name == name
            && (StandardMarked(v) ==> |t| >= 2)
            && (d.important <==> StandardMarked(v) && !t[|t| - 2].White?)
            && Solids(d.value) == (if d.important then Solids(v)[..|Solids(v)| - 2] else Solids(v))
            && (d.value != [] ==> !d.value[0].White? && !d.value[|d.value| - 1].White?)
  {
    hide Solids, SkipWhite, DropWhite, Trim, Marked, IsImportant;
    var t := Trim(v);
    var _, _ := TrimIsInside(v);
    MarkedIs(t);
    if Marked(t) {
      var _, _ := TrimIsInside(t[..|t| - 2]);
    } else {
      var _, _ := TrimIsInside(t);
    }
  }

  // On a list that ends with no whitespace, the mark is the standard's but for
  // whitespace inside it.
  lemma MarkedIs(t: seq<Token>)
    requires t != [] ==> !t[|t| - 1].White?
    ensures StandardMarked(t) ==> |t| >= 2
    ensures Marked(t) <==> StandardMarked(t) && !t[|t| - 2].White?
    ensures Marked(t) ==> |Solids(t)| >= 2 && Solids(t[..|t| - 2]) == Solids(t)[..|Solids(t)| - 2]
  {
    hide Solids, IsImportant;
    if |t| < 2 {
      OneAtMost(t);
    } else if !t[|t| - 2].White? {
      var s, a, b := t[..|t| - 2], t[|t| - 2], t[|t| - 1];
      assert t == s + [a, b];
      TwoAtEnd(s, a, b);
      LastTwo(Solids(s), a, b);
    }
  }

  lemma LastTwo(s: seq<Token>, a: Token, b: Token)
    ensures var r := s + [a, b]; r[|r| - 2] == a && r[|r| - 1] == b && r[..|r| - 2] == s
  {
  }

  // "red ! important" is important to the standard and not here.
  lemma SpacedMark()
    ensures var v := [Ident("red"), White, Delim('!'), White, Ident("important")];
            StandardMarked(v) && Taken("color", v) == Declaration("color", v, false)
  {
    var v := [Ident("red"), White, Delim('!'), White, Ident("important")];
    assert v[1..][1..][1..][1..] == [Ident("important")] && [Ident("important")][1..] == [];
    assert Solids(v[1..][1..][1..][1..]) == [Ident("important")];
    assert Solids(v[1..][1..]) == [Delim('!'), Ident("important")];
    assert Solids(v) == [Ident("red"), Delim('!'), Ident("important")];
    assert Lower("important") == "important";
    assert Trim(v) == v;
  }
}
