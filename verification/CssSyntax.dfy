// Tokenization of a text of code points (CSS Syntax Module Level 3, section 4.3),
// by position and without a cursor.  What the byte tokenizer is held against.
module CssSyntax {

  type Text = seq<nat>

  const TAB := 0x09
  const NEWLINE := 0x0A
  const SPACE := 0x20
  const QUOTE := 0x22
  const HASH := 0x23
  const PERCENT := 0x25
  const APOSTROPHE := 0x27
  const LPAREN := 0x28
  const RPAREN := 0x29
  const STAR := 0x2A
  const PLUS := 0x2B
  const MINUS := 0x2D
  const DOT := 0x2E
  const SLASH := 0x2F
  const LESS := 0x3C
  const GREATER := 0x3E
  const AT := 0x40
  const BACKSLASH := 0x5C
  const UNDERSCORE := 0x5F
  const BANG := 0x21
  const REPLACEMENT := 0xFFFD

  predicate IsWhitespace(c: nat) { c == NEWLINE || c == TAB || c == SPACE }
  predicate IsDigit(c: nat) { 0x30 <= c <= 0x39 }
  predicate IsLetter(c: nat) { 0x41 <= c <= 0x5A || 0x61 <= c <= 0x7A }
  predicate IsHexDigit(c: nat) { IsDigit(c) || 0x61 <= c <= 0x66 || 0x41 <= c <= 0x46 }
  predicate IsIdentStart(c: nat) { IsLetter(c) || c >= 0x80 || c == UNDERSCORE }
  predicate IsIdentPoint(c: nat) { IsIdentStart(c) || IsDigit(c) || c == MINUS }
  predicate IsNonPrintable(c: nat) { c <= 8 || c == 0xB || 0xE <= c <= 0x1F || c == 0x7F }

  function Lower(c: nat): nat { if 0x41 <= c <= 0x5A then c + 0x20 else c }

  function DigitValue(c: nat): nat
    requires IsHexDigit(c)
  {
    if IsDigit(c) then c - 0x30 else Lower(c) - 0x61 + 10
  }

  datatype CssToken =
    | Whitespace | Str(value: Text) | BadStr
    | Hash(isId: bool, name: Text) | AtKeyword(name: Text) | Ident(name: Text) | Function(name: Text)
    | Number(repr: Text, integer: bool) | Percentage(repr: Text) | Dimension(repr: Text, integer: bool, name: Text)
    | Url(value: Text) | BadUrl | Cdo | Cdc | Delim(c: nat) | EndOfFile

  // A token and the position after it.
  datatype Lexed = Lexed(t: CssToken, next: nat)

  // A text read and the position after it.
  datatype Scanned = Scanned(text: Text, next: nat)

  // The code point at a position, zero past the end.
  function Peek(s: Text, p: nat): nat {
    if p < |s| then s[p] else 0
  }

  function SkipWhite(s: Text, p: nat): (q: nat)
    requires p <= |s|
    ensures p <= q <= |s|
    decreases |s| - p
  {
    if p < |s| && IsWhitespace(s[p]) then SkipWhite(s, p + 1) else p
  }

  // --------------------------------------------------------------------- comments

  // The position after the comment's end, or the end of the text.
  function CloseComment(s: Text, p: nat): (q: nat)
    requires p <= |s|
    ensures p <= q <= |s|
    decreases |s| - p
  {
    if p + 1 >= |s| then |s|
    else if s[p] == STAR && s[p + 1] == SLASH then p + 2
    else CloseComment(s, p + 1)
  }

  function Comments(s: Text, p: nat): (q: nat)
    requires p <= |s|
    ensures p <= q <= |s|
    decreases |s| - p
  {
    if p + 1 < |s| && s[p] == SLASH && s[p + 1] == STAR then Comments(s, CloseComment(s, p + 2)) else p
  }

  // ---------------------------------------------------------------------- escapes

  // Up to `left` more hexadecimal digits.
  function HexDigits(s: Text, p: nat, number: nat, left: nat): (r: (nat, nat))
    requires p <= |s|
    ensures p <= r.1 <= |s|
    decreases left
  {
    if left > 0 && p < |s| && IsHexDigit(s[p]) then HexDigits(s, p + 1, number * 16 + DigitValue(s[p]), left - 1)
    else (number, p)
  }

  function CodePoint(number: nat): nat {
    if number == 0 || 0xD800 <= number < 0xE000 || number > 0x10FFFF then REPLACEMENT else number
  }

  // After a backslash: the code point escaped and the position after it.
  function Escaped(s: Text, p: nat): (r: (nat, nat))
    requires p <= |s|
    ensures p <= r.1 <= |s| && (p < |s| ==> p < r.1)
  {
    if p == |s| then (REPLACEMENT, p)
    else if IsHexDigit(s[p]) then
      var (number, q) := HexDigits(s, p + 1, DigitValue(s[p]), 5);
      (CodePoint(number), if q < |s| && IsWhitespace(s[q]) then q + 1 else q)
    else (s[p], p + 1)
  }

  // ------------------------------------------------------------- strings and names

  function StringToken(s: Text, p: nat, ending: nat, acc: Text): (r: Lexed)
    requires p <= |s|
    ensures p <= r.next <= |s|
    decreases |s| - p
  {
    if p == |s| then Lexed(Str(acc), p)
    else if s[p] == NEWLINE then Lexed(BadStr, p)
    else if s[p] == BACKSLASH then
      if p + 1 == |s| then StringToken(s, p + 1, ending, acc)
      else if s[p + 1] == NEWLINE then StringToken(s, p + 2, ending, acc)
      else var (c, q) := Escaped(s, p + 1); StringToken(s, q, ending, acc + [c])
    else if s[p] == ending then Lexed(Str(acc), p + 1)
    else StringToken(s, p + 1, ending, acc + [s[p]])
  }

  predicate StartsIdent(c1: nat, c2: nat, c3: nat) {
    if c1 == MINUS then IsIdentStart(c2) || c2 == MINUS || (c2 == BACKSLASH && c3 != NEWLINE)
    else IsIdentStart(c1) || (c1 == BACKSLASH && c2 != NEWLINE)
  }

  function IdentSequence(s: Text, p: nat, acc: Text): (r: Scanned)
    requires p <= |s|
    ensures p <= r.next <= |s|
    decreases |s| - p
  {
    if p == |s| then Scanned(acc, p)
    else if IsIdentPoint(s[p]) then IdentSequence(s, p + 1, acc + [s[p]])
    else if s[p] == BACKSLASH && Peek(s, p + 1) != NEWLINE then
      var (c, q) := Escaped(s, p + 1);
      IdentSequence(s, q, acc + [c])
    else Scanned(acc, p)
  }

  // ----------------------------------------------------------------------- numbers

  predicate StartsNumber(x: nat, y: nat, z: nat) {
    if x == PLUS || x == MINUS then IsDigit(y) || (y == DOT && IsDigit(z))
    else if x == DOT then IsDigit(y)
    else IsDigit(x)
  }

  function Digits(s: Text, p: nat): (q: nat)
    requires p <= |s|
    ensures p <= q <= |s|
    decreases |s| - p
  {
    if p < |s| && IsDigit(s[p]) then Digits(s, p + 1) else p
  }

  function Sign(s: Text, p: nat): (q: nat)
    requires p <= |s|
    ensures p <= q <= |s|
  {
    if Peek(s, p) == PLUS || Peek(s, p) == MINUS then p + 1 else p
  }

  function Fraction(s: Text, p: nat): (q: nat)
    requires p <= |s|
    ensures p <= q <= |s|
  {
    if Peek(s, p) == DOT && IsDigit(Peek(s, p + 1)) then Digits(s, p + 2) else p
  }

  function Exponent(s: Text, p: nat): (q: nat)
    requires p <= |s|
    ensures p <= q <= |s|
  {
    if Lower(Peek(s, p)) != 0x65 then p
    else if (Peek(s, p + 1) == PLUS || Peek(s, p + 1) == MINUS) && IsDigit(Peek(s, p + 2)) then Digits(s, p + 3)
    else if IsDigit(Peek(s, p + 1)) then Digits(s, p + 2)
    else p
  }

  // Where the number at `p` ends, and whether it is an integer.
  function NumberEnd(s: Text, p: nat): (r: (nat, bool))
    requires p <= |s|
    ensures p <= r.0 <= |s|
  {
    var whole := Digits(s, Sign(s, p));
    var fraction := Fraction(s, whole);
    var end := Exponent(s, fraction);
    (end, end == whole)
  }

  function NumericToken(s: Text, p: nat): (r: Lexed)
    requires p <= |s|
    ensures p <= r.next <= |s|
  {
    var (q, integer) := NumberEnd(s, p);
    if StartsIdent(Peek(s, q), Peek(s, q + 1), Peek(s, q + 2)) then
      var unit := IdentSequence(s, q, []);
      Lexed(Dimension(s[p..q], integer, unit.text), unit.next)
    else if Peek(s, q) == PERCENT then Lexed(Percentage(s[p..q]), q + 1)
    else Lexed(Number(s[p..q], integer), q)
  }

  // -------------------------------------------------------------------------- urls

  // The position after what is left of a bad url.
  function BadUrlRemnants(s: Text, p: nat): (q: nat)
    requires p <= |s|
    ensures p <= q <= |s|
    decreases |s| - p
  {
    if p == |s| then p
    else if s[p] == RPAREN then p + 1
    else if s[p] == BACKSLASH && Peek(s, p + 1) != NEWLINE then BadUrlRemnants(s, Escaped(s, p + 1).1)
    else BadUrlRemnants(s, p + 1)
  }

  function UrlToken(s: Text, p: nat, acc: Text): (r: Lexed)
    requires p <= |s|
    ensures p <= r.next <= |s|
    decreases |s| - p
  {
    if p == |s| then Lexed(Url(acc), p)
    else if s[p] == RPAREN then Lexed(Url(acc), p + 1)
    else if IsWhitespace(s[p]) then
      var q := SkipWhite(s, p + 1);
      if q == |s| then Lexed(Url(acc), q)
      else if s[q] == RPAREN then Lexed(Url(acc), q + 1)
      else Lexed(BadUrl, BadUrlRemnants(s, q))
    else if s[p] == QUOTE || s[p] == APOSTROPHE || s[p] == LPAREN || IsNonPrintable(s[p]) then
      Lexed(BadUrl, BadUrlRemnants(s, p + 1))
    else if s[p] == BACKSLASH then
      if Peek(s, p + 1) == NEWLINE then Lexed(BadUrl, BadUrlRemnants(s, p + 1))
      else var (c, q) := Escaped(s, p + 1); UrlToken(s, q, acc + [c])
    else UrlToken(s, p + 1, acc + [s[p]])
  }

  predicate IsUrl(name: Text) {
    |name| == 3 && Lower(name[0]) == 0x75 && Lower(name[1]) == 0x72 && Lower(name[2]) == 0x6C
  }

  // A quoted url is left to the parser, with one space before the quote if any.
  function IdentLikeToken(s: Text, p: nat): (r: Lexed)
    requires p <= |s|
    ensures p <= r.next <= |s|
  {
    var name := IdentSequence(s, p, []);
    if Peek(s, name.next) != LPAREN then Lexed(Ident(name.text), name.next)
    else if !IsUrl(name.text) then Lexed(Function(name.text), name.next + 1)
    else
      var q := SkipWhite(s, name.next + 1);
      if Peek(s, q) == QUOTE || Peek(s, q) == APOSTROPHE then
        Lexed(Function(name.text), if q > name.next + 1 then q - 1 else q)
      else UrlToken(s, q, [])
  }

  // ------------------------------------------------------------------------ tokens

  // The token at a position where no comment starts.
  function Token(s: Text, p: nat): (r: Lexed)
    requires p <= |s|
    ensures p <= r.next <= |s|
  {
    if p == |s| then Lexed(EndOfFile, p)
    else
      var c, c1, c2 := s[p], Peek(s, p + 1), Peek(s, p + 2);
      if IsWhitespace(c) then Lexed(Whitespace, SkipWhite(s, p + 1))
      else if c == QUOTE || c == APOSTROPHE then StringToken(s, p + 1, c, [])
      else if c == HASH && (IsIdentPoint(c1) || (c1 == BACKSLASH && c2 != NEWLINE)) then
        var name := IdentSequence(s, p + 1, []);
        Lexed(Hash(StartsIdent(c1, c2, Peek(s, p + 3)), name.text), name.next)
      else if (c == PLUS || c == DOT || c == MINUS || IsDigit(c)) && StartsNumber(c, c1, c2) then NumericToken(s, p)
      else if c == MINUS && c1 == MINUS && c2 == GREATER then Lexed(Cdc, p + 3)
      else if c == LESS && c1 == BANG && c2 == MINUS && Peek(s, p + 3) == MINUS then Lexed(Cdo, p + 4)
      else if c == AT && StartsIdent(c1, c2, Peek(s, p + 3)) then
        var name := IdentSequence(s, p + 1, []);
        Lexed(AtKeyword(name.text), name.next)
      else if StartsIdent(c, c1, c2) then IdentLikeToken(s, p)
      else Lexed(Delim(c), p + 1)
  }

  // Every token is made of at least one code point.
  lemma TokenMovesOn(s: Text, p: nat)
    requires p < |s|
    ensures p < Token(s, p).next && Token(s, p).t != EndOfFile
  {
    var c, c1, c2 := s[p], Peek(s, p + 1), Peek(s, p + 2);
    if StartsNumber(c, c1, c2) { NumberMovesOn(s, p); }
    if StartsIdent(c, c1, c2) { IdentMovesOn(s, p); UrlIsUrl(s, p); }
    if c == QUOTE || c == APOSTROPHE { StringIsString(s, p + 1, c, []); }
  }

  lemma NumberMovesOn(s: Text, p: nat)
    requires p < |s| && StartsNumber(s[p], Peek(s, p + 1), Peek(s, p + 2))
    ensures p < NumberEnd(s, p).0
  {
    assert IsDigit(Peek(s, Sign(s, p))) ==> Digits(s, Sign(s, p)) > Sign(s, p);
  }

  lemma IdentMovesOn(s: Text, p: nat)
    requires p < |s| && StartsIdent(s[p], Peek(s, p + 1), Peek(s, p + 2))
    ensures p < IdentSequence(s, p, []).next
  {
  }

  lemma {:induction false} UrlIsUrl(s: Text, p: nat)
    requires p <= |s|
    ensures IdentLikeToken(s, p).t != EndOfFile
  {
    var name := IdentSequence(s, p, []);
    if Peek(s, name.next) == LPAREN { UrlKind(s, SkipWhite(s, name.next + 1), []); }
  }

  lemma {:induction false} UrlKind(s: Text, p: nat, acc: Text)
    requires p <= |s|
    ensures var t := UrlToken(s, p, acc).t; t.Url? || t.BadUrl?
    decreases |s| - p
  {
    if p < |s| {
      if s[p] == BACKSLASH {
        if Peek(s, p + 1) != NEWLINE { UrlKind(s, Escaped(s, p + 1).1, acc + [Escaped(s, p + 1).0]); }
      } else {
        UrlKind(s, p + 1, acc + [s[p]]);
      }
    }
  }

  lemma {:induction false} StringIsString(s: Text, p: nat, ending: nat, acc: Text)
    requires p <= |s|
    ensures var t := StringToken(s, p, ending, acc).t; t.Str? || t.BadStr?
    decreases |s| - p
  {
    if p < |s| {
      if s[p] == BACKSLASH {
        if p + 1 == |s| {
          StringIsString(s, p + 1, ending, acc);
        } else if s[p + 1] == NEWLINE {
          StringIsString(s, p + 2, ending, acc);
        } else {
          StringIsString(s, Escaped(s, p + 1).1, ending, acc + [Escaped(s, p + 1).0]);
        }
      } else {
        StringIsString(s, p + 1, ending, acc + [s[p]]);
      }
    }
  }

  // A token with the comments skipped before it and the text it was read from.
  datatype Piece = Piece(gap: Text, text: Text, t: CssToken)

  // The whole text: its tokens, and the comments after the last.
  datatype Tokens = Tokens(pieces: seq<Piece>, end: Text)

  function Tokenize(s: Text, p: nat): Tokens
    requires p <= |s|
    decreases |s| - p
  {
    var q := Comments(s, p);
    if q == |s| then Tokens([], s[p..q])
    else
      TokenMovesOn(s, q);
      var r := Token(s, q);
      var rest := Tokenize(s, r.next);
      Tokens([Piece(s[p..q], s[q..r.next], r.t)] + rest.pieces, rest.end)
  }

  function Joined(pieces: seq<Piece>): Text {
    if pieces == [] then [] else pieces[0].gap + pieces[0].text + Joined(pieces[1..])
  }

  // A run of comments; the last may be cut off by the end of the text.
  ghost predicate IsComments(g: Text)
    decreases |g|
  {
    g == [] || exists k | 0 < k <= |g| :: IsComment(g[..k], k == |g|) && IsComments(g[k..])
  }

  ghost predicate IsComment(g: Text, last: bool) {
    && |g| >= 2 && g[0] == 0x2F && g[1] == 0x2A
    && (forall i | 2 <= i < |g| - 2 :: !(g[i] == 0x2A && g[i + 1] == 0x2F))
    && (last || (|g| >= 4 && g[|g| - 2] == 0x2A && g[|g| - 1] == 0x2F))
  }

  lemma {:induction false} CloseCommentIsFirst(s: Text, p: nat)
    requires p <= |s|
    ensures var q := CloseComment(s, p);
            && (forall i | p <= i < q - 2 :: !(s[i] == STAR && s[i + 1] == SLASH))
            && (q < |s| ==> p + 2 <= q && s[q - 2] == STAR && s[q - 1] == SLASH)
    decreases |s| - p
  {
    if p + 1 < |s| && !(s[p] == STAR && s[p + 1] == SLASH) { CloseCommentIsFirst(s, p + 1); }
  }

  lemma {:induction false} CommentsAreComments(s: Text, p: nat)
    requires p <= |s|
    ensures IsComments(s[p..Comments(s, p)])
    decreases |s| - p
  {
    if p + 1 < |s| && s[p] == SLASH && s[p + 1] == STAR {
      hide CloseComment, IsComment;
      var q := CloseComment(s, p + 2);
      OneComment(s, p);
      CommentsAreComments(s, q);
      var g := s[p..Comments(s, p)];
      var k := q - p;
      assert g[..k] == s[p..q] && g[k..] == s[q..Comments(s, q)];
      assert IsComment(g[..k], k == |g|);
    }
  }

  lemma OneComment(s: Text, p: nat)
    requires p + 1 < |s| && s[p] == SLASH && s[p + 1] == STAR
    ensures var q := CloseComment(s, p + 2);
            && IsComment(s[p..q], q == |s|) && IsComment(s[p..q], true)
            && (q < |s| ==> IsComment(s[p..q], false))
  {
    hide CloseComment;
    CloseCommentIsFirst(s, p + 2);
    var q := CloseComment(s, p + 2);
    var g := s[p..q];
    assert forall i | 0 <= i < |g| :: g[i] == s[p + i];
  }

  // Comments and token texts, in order, are the whole text; no token is empty.
  lemma {:induction false} Lossless(s: Text, p: nat)
    requires p <= |s|
    ensures var r := Tokenize(s, p);
            && Joined(r.pieces) + r.end == s[p..]
            && IsComments(r.end)
            && (forall i | 0 <= i < |r.pieces| :: r.pieces[i].text != [] && IsComments(r.pieces[i].gap))
    decreases |s| - p
  {
    hide Token, Comments, IsComments;
    var q := Comments(s, p);
    CommentsAreComments(s, p);
    if q < |s| {
      TokenMovesOn(s, q);
      var next := Token(s, q).next;
      Lossless(s, next);
      var rest := Tokenize(s, next);
      var all := Tokenize(s, p);
      assert all.pieces == [Piece(s[p..q], s[q..next], Token(s, q).t)] + rest.pieces && all.end == rest.end;
      assert all.pieces[1..] == rest.pieces;
      ThreeParts(s, p, q, next, Joined(rest.pieces), rest.end);
    }
  }

  lemma ThreeParts(s: Text, p: nat, q: nat, next: nat, joined: Text, end: Text)
    requires p <= q <= next <= |s| && joined + end == s[next..]
    ensures s[p..q] + s[q..next] + joined + end == s[p..]
  {
    assert s[p..q] + s[q..next] + joined + end == s[p..q] + s[q..next] + (joined + end);
    assert s[p..q] + s[q..next] + s[next..] == s[p..];
  }
}
