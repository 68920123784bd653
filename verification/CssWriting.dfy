// Writing values as CSS text and reading them back.  The writers and their classes of
// code points are spelled out here, so that what is read is held to the values meant.
module CssWriting {
  import opened CssSyntax

  // ------------------------------------------------------------- hexadecimal spellings

  const LOWER_DIGITS: Text :=
    [0x30, 0x31, 0x32, 0x33, 0x34, 0x35, 0x36, 0x37, 0x38, 0x39, 0x61, 0x62, 0x63, 0x64, 0x65, 0x66]
  const UPPER_DIGITS: Text :=
    [0x30, 0x31, 0x32, 0x33, 0x34, 0x35, 0x36, 0x37, 0x38, 0x39, 0x41, 0x42, 0x43, 0x44, 0x45, 0x46]

  // `c` is the digit for `v`, in either case.
  predicate IsDigitOf(c: nat, v: nat) {
    v < 16 && (c == LOWER_DIGITS[v] || c == UPPER_DIGITS[v])
  }

  predicate IsHex(c: nat) {
    0x30 <= c <= 0x39 || 0x41 <= c <= 0x46 || 0x61 <= c <= 0x66
  }

  // The digits spell `n`; there may be zeros in front.
  ghost predicate Spells(ds: Text, n: nat)
    decreases |ds|
  {
    if ds == [] then n == 0
    else IsDigitOf(ds[|ds| - 1], n % 16) && Spells(ds[..|ds| - 1], n / 16)
  }

  function Hex(n: nat): Text {
    if n < 16 then [LOWER_DIGITS[n]] else Hex(n / 16) + [LOWER_DIGITS[n % 16]]
  }

  lemma {:induction false} HexSpells(n: nat)
    ensures Spells(Hex(n), n) && Hex(n) != []
  {
    assert IsDigitOf(LOWER_DIGITS[n % 16], n % 16);
    if n < 16 {
      assert Hex(n)[..0] == [];
    } else {
      HexSpells(n / 16);
      assert Hex(n)[..|Hex(n)| - 1] == Hex(n / 16);
    }
  }

  lemma DigitIsRead(c: nat, v: nat)
    requires IsDigitOf(c, v)
    ensures IsHexDigit(c) && DigitValue(c) == v
  {
  }

  lemma HexIsHex(c: nat)
    ensures IsHexDigit(c) <==> IsHex(c)
  {
  }

  // The text at a position.
  predicate At(s: Text, p: nat, w: Text) {
    p + |w| <= |s| && s[p..p + |w|] == w
  }

  lemma AtIsIn(s: Text, p: nat, w: Text)
    requires At(s, p, w)
    ensures p + |w| <= |s|
  {
  }

  lemma AtParts(s: Text, p: nat, a: Text, b: Text)
    requires At(s, p, a + b)
    ensures At(s, p, a) && At(s, p + |a|, b)
  {
    assert s[p..p + |a + b|][..|a|] == a && s[p..p + |a + b|][|a|..] == b;
  }

  // Reading digits up to the `k`-th gives what they spell so far.
  lemma {:induction false} DigitsAreRead(s: Text, p: nat, ds: Text, n: nat, left: nat)
    requires At(s, p, ds) && Spells(ds, n) && ds != [] && |ds| <= left
    ensures IsHexDigit(s[p]) && p < |s|
    ensures HexDigits(s, p + 1, DigitValue(s[p]), left - 1) == HexDigits(s, p + |ds|, n, left - |ds|)
    decreases |ds|
  {
    var k := |ds| - 1;
    var v := n % 16;
    DigitIsRead(ds[k], v);
    assert s[p + k] == s[p..p + |ds|][k] == ds[k];
    if k == 0 {
      assert n / 16 == 0 && n == v;
    } else {
      assert s[p..p + k] == ds[..k] by { assert s[p..p + |ds|][..k] == ds[..k]; }
      DigitsAreRead(s, p, ds[..k], n / 16, left);
      assert n / 16 * 16 + v == n;
    }
  }

  // One whitespace after an escape belongs to it.
  function AfterSpace(s: Text, q: nat): nat {
    if q < |s| && s[q] in {0x09, 0x0A, 0x20} then q + 1 else q
  }

  // An escape of one to six digits is the scalar they spell; the replacement character
  // stands for zero, the surrogates and what is beyond the last code point.
  lemma EscapeIsRead(s: Text, p: nat, ds: Text, n: nat)
    requires At(s, p, ds) && Spells(ds, n) && 1 <= |ds| <= 6
    requires |ds| == 6 || p + |ds| == |s| || !IsHex(s[p + |ds|])
    ensures Escaped(s, p) ==
            (if n == 0 || 0xD800 <= n <= 0xDFFF || n > 0x10FFFF then 0xFFFD else n, AfterSpace(s, p + |ds|))
  {
    hide Spells, At, DigitValue, IsDigitOf;
    DigitsAreRead(s, p, ds, n, 6);
    if p + |ds| < |s| { HexIsHex(s[p + |ds|]); }
  }

  // Anything else after the backslash stands for itself.
  lemma EscapeIsItself(s: Text, p: nat)
    requires p < |s| && !IsHex(s[p])
    ensures Escaped(s, p) == (s[p], p + 1)
  {
    HexIsHex(s[p]);
  }

  // ----------------------------------------------------------------------- escaping

  // Digits and newlines are escaped by number, with a space behind; others by a backslash.
  function Escape(c: nat): Text {
    if IsHex(c) || c == 0x0A then [0x5C] + Hex(c) + [0x20] else [0x5C, c]
  }

  lemma EscapeShort(c: nat)
    requires IsHex(c) || c == 0x0A
    ensures 1 <= |Hex(c)| <= 2
  {
    assert c / 16 < 16;
  }

  lemma WrittenEscape(s: Text, p: nat, c: nat)
    requires At(s, p, Escape(c))
    ensures p + 1 < |s| && s[p] == 0x5C && s[p + 1] != 0x0A
    ensures Escaped(s, p + 1) == (c, p + |Escape(c)|)
  {
    var w := Escape(c);
    assert s[p] == s[p..p + |w|][0] && s[p + 1] == s[p..p + |w|][1];
    if IsHex(c) || c == 0x0A {
      EscapeShort(c);
      HexSpells(c);
      var ds := Hex(c);
      assert w == [0x5C] + (ds + [0x20]);
      AtParts(s, p, [0x5C], ds + [0x20]);
      AtParts(s, p + 1, ds, [0x20]);
      assert s[p + 1 + |ds|] == s[p + 1 + |ds|..p + 1 + |ds| + 1][0] == 0x20;
      EscapeIsRead(s, p + 1, ds, c);
      assert ds[|ds| - 1] != 0x0A && ds[0] != 0x0A by { HexNoNewline(c); }
      assert s[p + 1] == ds[0];
    } else {
      EscapeIsItself(s, p + 1);
    }
  }

  lemma {:induction false} HexNoNewline(n: nat)
    ensures Hex(n) != [] && forall i | 0 <= i < |Hex(n)| :: Hex(n)[i] >= 0x30
  {
    if n >= 16 { HexNoNewline(n / 16); }
  }

  // ------------------------------------------------------------------------ strings

  // The inside of a string in such quotes.
  function StringBody(t: Text, quote: nat): Text {
    if t == [] then []
    else InString(t[0], quote) + StringBody(t[1..], quote)
  }

  lemma One(s: Text, p: nat, c: nat)
    requires At(s, p, [c])
    ensures p < |s| && s[p] == c
  {
    assert s[p] == s[p..p + 1][0];
  }

  function InString(c: nat, quote: nat): Text {
    if c == quote || c == 0x5C || c == 0x0A then Escape(c) else [c]
  }

  lemma OneOfString(s: Text, p: nat, c: nat, quote: nat, acc: Text)
    requires (quote == 0x22 || quote == 0x27) && At(s, p, InString(c, quote))
    ensures p + |InString(c, quote)| <= |s|
    ensures StringToken(s, p, quote, acc) == StringToken(s, p + |InString(c, quote)|, quote, acc + [c])
  {
    hide Escape, Escaped;
    if c == quote || c == 0x5C || c == 0x0A { WrittenEscape(s, p, c); } else { One(s, p, c); }
  }

  lemma {:induction false} BodyIsRead(s: Text, p: nat, t: Text, quote: nat, acc: Text)
    requires (quote == 0x22 || quote == 0x27) && At(s, p, StringBody(t, quote) + [quote])
    ensures StringToken(s, p, quote, acc) == Lexed(Str(acc + t), p + |StringBody(t, quote)| + 1)
    decreases |t|
  {
    hide At, InString, Escaped;
    if t == [] {
      assert StringBody(t, quote) + [quote] == [quote];
      One(s, p, quote);
      assert acc + t == acc;
    } else {
      var w := InString(t[0], quote);
      assert StringBody(t, quote) + [quote] == w + (StringBody(t[1..], quote) + [quote]);
      AtParts(s, p, w, StringBody(t[1..], quote) + [quote]);
      OneOfString(s, p, t[0], quote, acc);
      hide StringToken;
      BodyIsRead(s, p + |w|, t[1..], quote, acc + [t[0]]);
      assert (acc + [t[0]]) + t[1..] == acc + t;
    }
  }

  // Any text between quotes, with quotes, backslashes and newlines escaped, is a
  // string token of that text.
  lemma StringIsRead(s: Text, p: nat, t: Text, quote: nat)
    requires (quote == 0x22 || quote == 0x27) && At(s, p, [quote] + (StringBody(t, quote) + [quote]))
    ensures Token(s, p) == Lexed(Str(t), p + |StringBody(t, quote)| + 2)
  {
    AtParts(s, p, [quote], StringBody(t, quote) + [quote]);
    assert s[p] == s[p..p + 1][0];
    BodyIsRead(s, p + 1, t, quote, []);
    assert [] + t == t;
  }

  // Text that stands for itself in a string.
  predicate PlainInString(t: Text, quote: nat) {
    forall i | 0 <= i < |t| :: t[i] !in {quote, 0x5C, 0x0A}
  }

  lemma {:induction false} PlainIsCollected(s: Text, p: nat, t: Text, quote: nat, acc: Text)
    requires At(s, p, t) && PlainInString(t, quote)
    ensures StringToken(s, p, quote, acc) == StringToken(s, p + |t|, quote, acc + t)
    decreases |t|
  {
    if t == [] {
      assert acc + t == acc;
    } else {
      assert t == [t[0]] + t[1..];
      AtParts(s, p, [t[0]], t[1..]);
      One(s, p, t[0]);
      PlainIsCollected(s, p + 1, t[1..], quote, acc + [t[0]]);
      assert (acc + [t[0]]) + t[1..] == acc + t;
    }
  }

  // How a string ends without its quote: a newline makes it bad and stays, the end of
  // the text does not; a newline behind a backslash is left out, and so is a backslash
  // at the end.
  lemma StringEnds(s: Text, p: nat, t: Text, quote: nat)
    requires (quote == 0x22 || quote == 0x27) && At(s, p, [quote] + t) && PlainInString(t, quote)
    ensures var q := p + 1 + |t|;
            && (q == |s| ==> Token(s, p) == Lexed(Str(t), q))
            && (q < |s| && s[q] == 0x0A ==> Token(s, p) == Lexed(BadStr, q))
            && (q + 1 == |s| && s[q] == 0x5C ==> Token(s, p) == Lexed(Str(t), q + 1))
            && (q + 1 < |s| && s[q] == 0x5C && s[q + 1] == 0x0A ==>
                  Token(s, p) == StringToken(s, q + 2, quote, t))
  {
    hide StringToken;
    StringStarts(s, p, t, quote);
    StringStops(s, p + 1 + |t|, quote, t);
  }

  lemma StringStarts(s: Text, p: nat, t: Text, quote: nat)
    requires (quote == 0x22 || quote == 0x27) && At(s, p, [quote] + t) && PlainInString(t, quote)
    ensures Token(s, p) == StringToken(s, p + 1 + |t|, quote, t) && p + 1 + |t| <= |s|
  {
    hide StringToken, PlainInString, Token, At;
    AtParts(s, p, [quote], t);
    One(s, p, quote);
    QuoteStarts(s, p, quote);
    var none: Text := [];
    PlainIsCollected(s, p + 1, t, quote, none);
    assert none + t == t;
    assert StringToken(s, p + 1, quote, none) == StringToken(s, p + 1 + |t|, quote, t);
  }

  lemma QuoteStarts(s: Text, p: nat, quote: nat)
    requires (quote == 0x22 || quote == 0x27) && p < |s| && s[p] == quote
    ensures Token(s, p) == StringToken(s, p + 1, quote, [])
  {
  }

  lemma StringStops(s: Text, q: nat, quote: nat, t: Text)
    requires q <= |s|
    ensures q == |s| ==> StringToken(s, q, quote, t) == Lexed(Str(t), q)
    ensures q < |s| && s[q] == 0x0A ==> StringToken(s, q, quote, t) == Lexed(BadStr, q)
    ensures q + 1 == |s| && s[q] == 0x5C ==> StringToken(s, q, quote, t) == Lexed(Str(t), q + 1)
    ensures q + 1 < |s| && s[q] == 0x5C && s[q + 1] == 0x0A ==>
              StringToken(s, q, quote, t) == StringToken(s, q + 2, quote, t)
  {
  }

  // -------------------------------------------------------------------------- names

  predicate StartsName(c: nat) {
    0x41 <= c <= 0x5A || 0x61 <= c <= 0x7A || c == 0x5F || c >= 0x80
  }

  predicate InName(c: nat) {
    StartsName(c) || 0x30 <= c <= 0x39 || c == 0x2D
  }

  // Which code points of a name are escaped: those that have to be, and any others.
  predicate IsEscaped(c: nat, escaped: bool) { escaped || !InName(c) }

  function InAName(c: nat, escaped: bool): Text {
    if IsEscaped(c, escaped) then Escape(c) else [c]
  }

  function Name(t: Text, esc: seq<bool>): Text
    requires |esc| == |t|
  {
    if t == [] then [] else InAName(t[0], esc[0]) + Name(t[1..], esc[1..])
  }

  // Written like this, a name starts an identifier: not with a digit, and with a dash
  // only before another or before what starts one.
  predicate Begins(t: Text, esc: seq<bool>)
    requires |esc| == |t| && t != []
  {
    || IsEscaped(t[0], esc[0]) || StartsName(t[0])
    || (t[0] == 0x2D && |t| > 1 && (IsEscaped(t[1], esc[1]) || StartsName(t[1]) || t[1] == 0x2D))
  }

  // Where a name ends: at the end, or before what is neither in a name nor an escape.
  predicate NameEnds(s: Text, q: nat) {
    q <= |s| && (q == |s| || (!InName(s[q]) && (s[q] != 0x5C || (q + 1 < |s| && s[q + 1] == 0x0A))))
  }

  lemma {:induction false} RestIsRead(s: Text, p: nat, t: Text, esc: seq<bool>, acc: Text)
    requires |esc| == |t| && At(s, p, Name(t, esc)) && NameEnds(s, p + |Name(t, esc)|)
    ensures IdentSequence(s, p, acc) == Scanned(acc + t, p + |Name(t, esc)|)
    decreases |t|
  {
    hide At, InAName, Escaped, IdentSequence, NameEnds;
    if t == [] {
      assert acc + t == acc;
      NameStops(s, p, acc);
    } else {
      var w := InAName(t[0], esc[0]);
      AtParts(s, p, w, Name(t[1..], esc[1..]));
      OneOfName(s, p, t[0], esc[0], acc);
      RestIsRead(s, p + |w|, t[1..], esc[1..], acc + [t[0]]);
      assert (acc + [t[0]]) + t[1..] == acc + t;
    }
  }

  lemma NameStops(s: Text, p: nat, acc: Text)
    requires NameEnds(s, p)
    ensures IdentSequence(s, p, acc) == Scanned(acc, p)
  {
  }

  lemma OneOfName(s: Text, p: nat, c: nat, escaped: bool, acc: Text)
    requires At(s, p, InAName(c, escaped))
    ensures IdentSequence(s, p, acc) == IdentSequence(s, p + |InAName(c, escaped)|, acc + [c])
  {
    hide Escape, Escaped;
    FirstOfName(s, p, c, escaped);
    if IsEscaped(c, escaped) { WrittenEscape(s, p, c); }
  }

  lemma FirstOfName(s: Text, p: nat, c: nat, escaped: bool)
    requires At(s, p, InAName(c, escaped))
    ensures p < |s|
    ensures if IsEscaped(c, escaped) then s[p] == 0x5C && Peek(s, p + 1) != 0x0A else s[p] == c && InName(c)
  {
    hide Escape, Escaped;
    if IsEscaped(c, escaped) { WrittenEscape(s, p, c); } else { One(s, p, c); }
  }

  // How it starts decides what it can be read as.
  lemma NameBegins(s: Text, p: nat, t: Text, esc: seq<bool>)
    requires t != [] && |esc| == |t| && At(s, p, Name(t, esc)) && NameEnds(s, p + |Name(t, esc)|)
    ensures p < |s| && (IsIdentPoint(s[p]) || (s[p] == 0x5C && Peek(s, p + 1) != 0x0A))
    ensures StartsIdent(Peek(s, p), Peek(s, p + 1), Peek(s, p + 2)) <==> Begins(t, esc)
    ensures Begins(t, esc) ==> !IsFigure(s[p]) && (s[p] == 0x2D ==> !FigureAt(s, p + 1) && Peek(s, p + 1) != 0x2E)
  {
    hide At, Escape, Escaped, NameEnds;
    var rest := t[1..];
    AtParts(s, p, InAName(t[0], esc[0]), Name(rest, esc[1..]));
    FirstOfName(s, p, t[0], esc[0]);
    if !IsEscaped(t[0], esc[0]) {
      if rest == [] {
        EndIsNoName(s, p + 1);
      } else {
        AtParts(s, p + 1, InAName(rest[0], esc[1..][0]), Name(rest[1..], esc[1..][1..]));
        FirstOfName(s, p + 1, t[1], esc[1]);
      }
    }
  }

  lemma EndIsNoName(s: Text, q: nat)
    requires NameEnds(s, q)
    ensures !InName(Peek(s, q)) && (Peek(s, q) == 0x5C ==> Peek(s, q + 1) == 0x0A)
  {
  }

  // A name is read as an identifier, or as a function before a parenthesis ...
  lemma IdentIsRead(s: Text, p: nat, t: Text, esc: seq<bool>)
    requires t != [] && |esc| == |t| && At(s, p, Name(t, esc)) && NameEnds(s, p + |Name(t, esc)|)
    requires Begins(t, esc) && !At(s, p, [0x2D, 0x2D, 0x3E])
    ensures var q := p + |Name(t, esc)|;
            && (Peek(s, q) != 0x28 ==> Token(s, p) == Lexed(Ident(t), q))
            && (Peek(s, q) == 0x28 && !SpellsUrl(t) ==> Token(s, p) == Lexed(Function(t), q + 1))
  {
    hide At, Name, NameEnds, Begins, Token, IdentSequence, UrlToken, SkipWhite;
    NameAlone(s, p, t, esc);
  }

  lemma NameAlone(s: Text, p: nat, t: Text, esc: seq<bool>)
    requires t != [] && |esc| == |t| && At(s, p, Name(t, esc)) && NameEnds(s, p + |Name(t, esc)|)
    requires Begins(t, esc) && !At(s, p, [0x2D, 0x2D, 0x3E])
    ensures Token(s, p) == IdentLikeToken(s, p) && IdentSequence(s, p, []) == Scanned(t, p + |Name(t, esc)|)
  {
    hide At, Name, NameEnds, IdentSequence, UrlToken, StringToken, NumericToken, Escaped, IdentLikeToken;
    NameBegins(s, p, t, esc);
    RestIsRead(s, p, t, esc, []);
    assert [] + t == t;
    if Peek(s, p) == 0x2D && Peek(s, p + 1) == 0x2D && Peek(s, p + 2) == 0x3E { MarkupIsThere(s, p); }
  }

  lemma MarkupIsThere(s: Text, p: nat)
    requires Peek(s, p) == 0x2D && Peek(s, p + 1) == 0x2D && Peek(s, p + 2) == 0x3E
    ensures At(s, p, [0x2D, 0x2D, 0x3E])
  {
    assert s[p..p + 3] == [s[p], s[p + 1], s[p + 2]];
  }

  // ... and as what a mark before it makes of it.  Behind "#" it need not be an
  // identifier, but then it is no id.
  lemma MarkedIsRead(s: Text, p: nat, t: Text, esc: seq<bool>)
    requires t != [] && |esc| == |t| && p < |s|
    requires At(s, p + 1, Name(t, esc)) && NameEnds(s, p + 1 + |Name(t, esc)|)
    ensures s[p] == 0x23 ==> Token(s, p) == Lexed(Hash(Begins(t, esc), t), p + 1 + |Name(t, esc)|)
    ensures s[p] == 0x40 ==>
              Token(s, p) == if Begins(t, esc) then Lexed(AtKeyword(t), p + 1 + |Name(t, esc)|)
                             else Lexed(Delim(0x40), p + 1)
  {
    hide At, Name, NameEnds, IdentSequence, UrlToken, StringToken, NumericToken, Escaped, IdentLikeToken, Begins;
    NameBegins(s, p + 1, t, esc);
    RestIsRead(s, p + 1, t, esc, []);
    assert [] + t == t;
  }

  // --------------------------------------------------------------------------- urls

  // What cannot stand for itself in a url without quotes.
  predicate BadInUrl(c: nat) {
    || c == 0x22 || c == 0x27 || c == 0x28 || c == 0x29 || c == 0x5C
    || c == 0x09 || c == 0x0A || c == 0x20
    || c <= 0x08 || c == 0x0B || 0x0E <= c <= 0x1F || c == 0x7F
  }

  function UrlBody(t: Text): Text {
    if t == [] then [] else InUrl(t[0]) + UrlBody(t[1..])
  }

  function InUrl(c: nat): Text {
    if BadInUrl(c) then Escape(c) else [c]
  }

  lemma OneOfUrl(s: Text, p: nat, c: nat, acc: Text)
    requires At(s, p, InUrl(c))
    ensures p + |InUrl(c)| <= |s| && UrlToken(s, p, acc) == UrlToken(s, p + |InUrl(c)|, acc + [c])
  {
    hide Escape, Escaped;
    if BadInUrl(c) { WrittenEscape(s, p, c); } else { One(s, p, c); }
  }

  lemma {:induction false} UrlBodyIsRead(s: Text, p: nat, t: Text, acc: Text)
    requires At(s, p, UrlBody(t) + [0x29])
    ensures UrlToken(s, p, acc) == Lexed(Url(acc + t), p + |UrlBody(t)| + 1)
    decreases |t|
  {
    hide At, InUrl, Escaped;
    if t == [] {
      assert UrlBody(t) + [0x29] == [0x29];
      One(s, p, 0x29);
      assert acc + t == acc;
    } else {
      var w := InUrl(t[0]);
      assert UrlBody(t) + [0x29] == w + (UrlBody(t[1..]) + [0x29]);
      AtParts(s, p, w, UrlBody(t[1..]) + [0x29]);
      OneOfUrl(s, p, t[0], acc);
      hide UrlToken;
      UrlBodyIsRead(s, p + |w|, t[1..], acc + [t[0]]);
      assert (acc + [t[0]]) + t[1..] == acc + t;
    }
  }

  // "url", in any case.
  predicate SpellsUrl(t: Text) {
    |t| == 3 && t[0] in {0x55, 0x75} && t[1] in {0x52, 0x72} && t[2] in {0x4C, 0x6C}
  }

  // "url(" and any text with such code points escaped, not starting with a quote or
  // whitespace, is a url token of that text.
  lemma UrlIsRead(s: Text, p: nat, u: Text, esc: seq<bool>, t: Text)
    requires SpellsUrl(u) && |esc| == |u| && At(s, p, Name(u, esc) + ([0x28] + (UrlBody(t) + [0x29])))
    ensures Token(s, p) == Lexed(Url(t), p + |Name(u, esc)| + 1 + |UrlBody(t)| + 1)
  {
    hide At, Token, Name, UrlBody, UrlToken, StringToken;
    var q := p + |Name(u, esc)| + 1;
    AtParts(s, p, Name(u, esc), [0x28] + (UrlBody(t) + [0x29]));
    AtParts(s, q - 1, [0x28], UrlBody(t) + [0x29]);
    UrlStart(s, q, t);
    AtWhole(s, p, Name(u, esc), [0x28]);
    UrlOrFunction(s, p, u, esc, q);
    UrlBodyIsRead(s, q, t, []);
    assert [] + t == t;
  }

  lemma AtWhole(s: Text, p: nat, a: Text, b: Text)
    requires At(s, p, a) && At(s, p + |a|, b)
    ensures At(s, p, a + b)
  {
    assert s[p..p + |a + b|] == s[p..p + |a|] + s[p + |a|..p + |a| + |b|];
  }

  // The first code point written is no quote and no whitespace.
  lemma UrlStart(s: Text, p: nat, t: Text)
    requires At(s, p, UrlBody(t) + [0x29])
    ensures p < |s| && s[p] !in {0x22, 0x27, 0x09, 0x0A, 0x20}
  {
    var w := UrlBody(t) + [0x29];
    assert s[p] == s[p..p + |w|][0] == w[0];
  }

  // Whitespace around what is in the parentheses does not count; anything behind it
  // makes the url bad.
  lemma UrlSpaces(s: Text, p: nat, q: nat, acc: Text)
    requires p < q <= |s| && (forall i | p <= i < q :: IsSpace(s[i])) && (q < |s| ==> !IsSpace(s[q]))
    ensures q == |s| ==> UrlToken(s, p, acc) == Lexed(Url(acc), q)
    ensures q < |s| && s[q] == 0x29 ==> UrlToken(s, p, acc) == Lexed(Url(acc), q + 1)
    ensures q < |s| && s[q] != 0x29 ==> UrlToken(s, p, acc) == Lexed(BadUrl, BadUrlRemnants(s, q))
  {
    SpacesAreSkipped(s, p + 1, q);
  }

  // What "url(" and spaces lead to: before a quote a function token that leaves one
  // space, otherwise a url from what comes after them.
  lemma UrlOrFunction(s: Text, p: nat, u: Text, esc: seq<bool>, q: nat)
    requires SpellsUrl(u) && |esc| == |u| && At(s, p, Name(u, esc) + [0x28]) && p + |Name(u, esc)| + 1 <= q <= |s|
    requires (forall i | p + |Name(u, esc)| < i < q :: IsSpace(s[i])) && (q < |s| ==> !IsSpace(s[q]))
    ensures if q < |s| && s[q] in {0x22, 0x27} then
              Token(s, p) == Lexed(Function(u), if q > p + |Name(u, esc)| + 1 then q - 1 else q)
            else Token(s, p) == UrlToken(s, q, [])
  {
    hide IdentSequence, UrlToken, Token, At, Name;
    var b := p + |Name(u, esc)|;
    AtParts(s, p, Name(u, esc), [0x28]);
    One(s, b, 0x28);
    UrlBegins(s, p, u, esc);
    NameAlone(s, p, u, esc);
    SpacesAreSkipped(s, b + 1, q);
  }

  lemma UrlBegins(s: Text, p: nat, u: Text, esc: seq<bool>)
    requires SpellsUrl(u) && |esc| == |u| && At(s, p, Name(u, esc))
    ensures Begins(u, esc) && !At(s, p, [0x2D, 0x2D, 0x3E])
  {
    hide Escape;
    AtParts(s, p, InAName(u[0], esc[0]), Name(u[1..], esc[1..]));
    FirstOfName(s, p, u[0], esc[0]);
    if At(s, p, [0x2D, 0x2D, 0x3E]) { AtParts(s, p, [0x2D], [0x2D, 0x3E]); One(s, p, 0x2D); }
  }

  function InBadUrl(c: nat, escaped: bool): Text {
    if escaped || c == 0x29 || c == 0x5C then Escape(c) else [c]
  }

  function BadUrlBody(t: Text, esc: seq<bool>): Text
    requires |esc| == |t|
  {
    if t == [] then [] else InBadUrl(t[0], esc[0]) + BadUrlBody(t[1..], esc[1..])
  }

  // A bad url goes on to the first closing parenthesis that is not escaped, or to the
  // end.
  lemma {:induction false} BadUrlEnds(s: Text, p: nat, t: Text, esc: seq<bool>)
    requires |esc| == |t| && At(s, p, BadUrlBody(t, esc))
    requires var q := p + |BadUrlBody(t, esc)|; q < |s| ==> s[q] == 0x29
    ensures var q := p + |BadUrlBody(t, esc)|; BadUrlRemnants(s, p) == if q < |s| then q + 1 else q
    decreases |t|
  {
    hide At, Escaped, Escape;
    if t == [] {
      AtIsIn(s, p, []);
    } else {
      var w := InBadUrl(t[0], esc[0]);
      AtParts(s, p, w, BadUrlBody(t[1..], esc[1..]));
      if esc[0] || t[0] == 0x29 || t[0] == 0x5C { WrittenEscape(s, p, t[0]); } else { One(s, p, t[0]); }
      BadUrlEnds(s, p + |w|, t[1..], esc[1..]);
    }
  }

  // A backslash before a newline escapes nothing.
  lemma BadUrlNewline(s: Text, p: nat)
    requires p + 1 < |s| && s[p] == 0x5C && s[p + 1] == 0x0A
    ensures BadUrlRemnants(s, p) == BadUrlRemnants(s, p + 2)
  {
  }

  // Left as they are, such code points make the url bad, but for what ends it; so does
  // a backslash before a newline.
  lemma UrlIsBad(s: Text, p: nat, acc: Text)
    requires p < |s| && BadInUrl(s[p]) && s[p] !in {0x29, 0x09, 0x0A, 0x20}
    requires s[p] == 0x5C ==> p + 1 < |s| && s[p + 1] == 0x0A
    ensures UrlToken(s, p, acc) == Lexed(BadUrl, BadUrlRemnants(s, p + 1))
  {
  }

  // ---------------------------------------------------------------------- what is left

  predicate IsSpace(c: nat) { c in {0x09, 0x0A, 0x20} }

  // A run of whitespace is one token, however long.
  lemma {:induction false} SpacesAreSkipped(s: Text, p: nat, q: nat)
    requires p <= q <= |s| && (forall i | p <= i < q :: IsSpace(s[i])) && (q < |s| ==> !IsSpace(s[q]))
    ensures SkipWhite(s, p) == q
    decreases q - p
  {
    if p < q { SpacesAreSkipped(s, p + 1, q); }
  }

  lemma WhitespaceIsRead(s: Text, p: nat, q: nat)
    requires p < q <= |s| && (forall i | p <= i < q :: IsSpace(s[i])) && (q < |s| ==> !IsSpace(s[q]))
    ensures Token(s, p) == Lexed(Whitespace, q)
  {
    SpacesAreSkipped(s, p + 1, q);
  }

  // A code point that starts nothing else is a token by itself.
  lemma DelimIsRead(s: Text, p: nat)
    requires p < |s| && !IsSpace(s[p]) && !InName(s[p])
    requires s[p] !in {0x22, 0x27, 0x23, 0x2B, 0x2E, 0x3C, 0x40, 0x5C}
    ensures Token(s, p) == Lexed(Delim(s[p]), p + 1)
  {
  }

  // So are the others where they start nothing.
  lemma LoneMark(s: Text, p: nat)
    requires p < |s|
    ensures s[p] == 0x2E && !FigureAt(s, p + 1) ==> Token(s, p) == Lexed(Delim(0x2E), p + 1)
    ensures s[p] == 0x2B && !FigureAt(s, p + 1) && Peek(s, p + 1) != 0x2E ==> Token(s, p) == Lexed(Delim(0x2B), p + 1)
    ensures s[p] == 0x2D && !InName(Peek(s, p + 1)) && Peek(s, p + 1) !in {0x2E, 0x5C} ==>
              Token(s, p) == Lexed(Delim(0x2D), p + 1)
    ensures s[p] == 0x23 && !InName(Peek(s, p + 1)) && Peek(s, p + 1) != 0x5C ==>
              Token(s, p) == Lexed(Delim(0x23), p + 1)
    ensures s[p] == 0x40 && !InName(Peek(s, p + 1)) && Peek(s, p + 1) != 0x5C ==>
              Token(s, p) == Lexed(Delim(0x40), p + 1)
    ensures s[p] == 0x3C && Peek(s, p + 1) != 0x21 ==> Token(s, p) == Lexed(Delim(0x3C), p + 1)
    ensures s[p] == 0x5C && Peek(s, p + 1) == 0x0A ==> Token(s, p) == Lexed(Delim(0x5C), p + 1)
  {
  }

  // The two marks of comments in markup.
  lemma MarkupComments(s: Text, p: nat)
    ensures At(s, p, [0x3C, 0x21, 0x2D, 0x2D]) ==> Token(s, p) == Lexed(Cdo, p + 4)
    ensures At(s, p, [0x2D, 0x2D, 0x3E]) ==> Token(s, p) == Lexed(Cdc, p + 3)
  {
    if At(s, p, [0x3C, 0x21, 0x2D, 0x2D]) {
      var w := s[p..p + 4];
      assert s[p] == w[0] && s[p + 1] == w[1] && s[p + 2] == w[2] && s[p + 3] == w[3];
    }
    if At(s, p, [0x2D, 0x2D, 0x3E]) {
      var w := s[p..p + 3];
      assert s[p] == w[0] && s[p + 1] == w[1] && s[p + 2] == w[2];
    }
  }

  // ------------------------------------------------------------------------ numbers

  predicate IsFigure(c: nat) { 0x30 <= c <= 0x39 }

  predicate AllFigures(ds: Text) { forall i | 0 <= i < |ds| :: IsFigure(ds[i]) }

  predicate FigureAt(s: Text, p: nat) { p < |s| && IsFigure(s[p]) }

  lemma {:induction false} FiguresAreRead(s: Text, p: nat, ds: Text)
    requires At(s, p, ds) && AllFigures(ds) && !FigureAt(s, p + |ds|)
    ensures Digits(s, p) == p + |ds|
    decreases |ds|
  {
    if ds != [] {
      assert ds == [ds[0]] + ds[1..];
      AtParts(s, p, [ds[0]], ds[1..]);
      One(s, p, ds[0]);
      FiguresAreRead(s, p + 1, ds[1..]);
    }
  }

  predicate IsSign(w: Text) { w == [] || w == [0x2B] || w == [0x2D] }

  predicate IsPoint(w: Text) { w == [] || (|w| > 1 && w[0] == 0x2E && AllFigures(w[1..])) }

  predicate IsPower(w: Text) {
    w == [] || (|w| > 1 && w[0] in {0x45, 0x65} && (PowerFigures(w, 1) || (w[1] in {0x2B, 0x2D} && PowerFigures(w, 2))))
  }

  predicate PowerFigures(w: Text, k: nat) { k < |w| && AllFigures(w[k..]) }

  // What stands behind does not go on with the number.
  predicate NumberStops(s: Text, q: nat, point: Text, power: Text) {
    && q <= |s| && !FigureAt(s, q)
    && (power == [] ==>
          && (point == [] ==> !(Peek(s, q) == 0x2E && FigureAt(s, q + 1)))
          && !(Peek(s, q) in {0x45, 0x65} &&
               (FigureAt(s, q + 1) || (Peek(s, q + 1) in {0x2B, 0x2D} && FigureAt(s, q + 2)))))
  }

  lemma SignIsRead(s: Text, p: nat, sign: Text)
    requires IsSign(sign) && At(s, p, sign)
    requires sign == [] ==> p < |s| && s[p] !in {0x2B, 0x2D}
    ensures Sign(s, p) == p + |sign|
  {
    if sign != [] { One(s, p, sign[0]); }
  }

  lemma PointIsRead(s: Text, p: nat, point: Text)
    requires IsPoint(point) && At(s, p, point) && !FigureAt(s, p + |point|)
    requires point == [] ==> !(Peek(s, p) == 0x2E && FigureAt(s, p + 1))
    ensures Fraction(s, p) == p + |point|
  {
    if point != [] {
      assert point == [0x2E] + point[1..] && point[1..] == [point[1]] + point[2..];
      AtParts(s, p, [0x2E], point[1..]);
      One(s, p, 0x2E);
      AtParts(s, p + 1, [point[1]], point[2..]);
      One(s, p + 1, point[1]);
      FiguresAreRead(s, p + 2, point[2..]);
    }
  }

  lemma PowerIsRead(s: Text, p: nat, power: Text)
    requires IsPower(power) && At(s, p, power) && !FigureAt(s, p + |power|)
    requires power == [] ==> !(Peek(s, p) in {0x45, 0x65} &&
                               (FigureAt(s, p + 1) || (Peek(s, p + 1) in {0x2B, 0x2D} && FigureAt(s, p + 2))))
    ensures Exponent(s, p) == p + |power|
  {
    if power != [] {
      var k := if PowerFigures(power, 1) then 1 else 2;
      var ds := power[k..];
      assert power == power[..k] + ([ds[0]] + ds[1..]);
      AtParts(s, p, power[..k], [ds[0]] + ds[1..]);
      AtParts(s, p + k, [ds[0]], ds[1..]);
      One(s, p + k, ds[0]);
      assert s[p] == s[p..p + k][0] == power[0];
      if k == 2 { assert s[p + 1] == s[p..p + k][1] == power[1]; }
      FiguresAreRead(s, p + k + 1, ds[1..]);
    }
  }

  // A number's spelling, in parts.
  predicate IsNumber(sign: Text, whole: Text, point: Text, power: Text) {
    IsSign(sign) && AllFigures(whole) && IsPoint(point) && IsPower(power) && (whole != [] || point != [])
  }

  function Spelling(sign: Text, whole: Text, point: Text, power: Text): Text {
    sign + (whole + (point + power))
  }

  lemma NumberParts(s: Text, p: nat, sign: Text, whole: Text, point: Text, power: Text)
    requires At(s, p, Spelling(sign, whole, point, power))
    ensures At(s, p, sign) && At(s, p + |sign|, whole) && At(s, p + |sign| + |whole|, point)
    ensures At(s, p + |sign| + |whole| + |point|, power)
    ensures p + |Spelling(sign, whole, point, power)| == p + |sign| + |whole| + |point| + |power|
  {
    AtParts(s, p, sign, whole + (point + power));
    AtParts(s, p + |sign|, whole, point + power);
    AtParts(s, p + |sign| + |whole|, point, power);
  }

  // After the fraction and after the digits no digit follows.
  lemma NoMoreFigures(s: Text, b: nat, point: Text, power: Text)
    requires IsPoint(point) && IsPower(power) && At(s, b, point) && At(s, b + |point|, power)
    requires NumberStops(s, b + |point| + |power|, point, power)
    ensures !FigureAt(s, b) && !FigureAt(s, b + |point|)
    ensures point == [] ==> !(Peek(s, b) == 0x2E && FigureAt(s, b + 1))
  {
    PartStarts(s, b + |point|, power);
    PartStarts(s, b, point);
  }

  // A spelling with sign, digits, fraction and exponent is read to its end, and is an
  // integer exactly if it has neither of the last two.
  lemma NumberIsRead(s: Text, p: nat, sign: Text, whole: Text, point: Text, power: Text)
    requires IsNumber(sign, whole, point, power) && At(s, p, Spelling(sign, whole, point, power))
    requires NumberStops(s, p + |Spelling(sign, whole, point, power)|, point, power)
    ensures NumberEnd(s, p) == (p + |Spelling(sign, whole, point, power)|, point == [] && power == [])
  {
    hide At, Digits, Fraction, Exponent, Sign, IsPoint, IsPower, AllFigures, NumberStops, FigureAt;
    var a, b := p + |sign|, p + |sign| + |whole|;
    NumberParts(s, p, sign, whole, point, power);
    NoMoreFigures(s, b, point, power);
    NumberFirst(s, p, sign, whole, point, power);
    StopsAfterPoint(s, b + |point|, point, power);
    SignIsRead(s, p, sign);
    FiguresAreRead(s, a, whole);
    PointIsRead(s, b, point);
    PowerIsRead(s, b + |point|, power);
  }

  lemma StopsAfterPoint(s: Text, c: nat, point: Text, power: Text)
    requires NumberStops(s, c + |power|, point, power)
    ensures !FigureAt(s, c + |power|)
    ensures power == [] ==> !(Peek(s, c) in {0x45, 0x65} &&
                              (FigureAt(s, c + 1) || (Peek(s, c + 1) in {0x2B, 0x2D} && FigureAt(s, c + 2))))
  {
  }

  // The first two code points of a part.
  lemma PartStarts(s: Text, p: nat, w: Text)
    requires At(s, p, w)
    ensures w != [] ==> p < |s| && s[p] == w[0]
    ensures |w| > 1 ==> p + 1 < |s| && s[p + 1] == w[1]
  {
    if w != [] { assert s[p] == s[p..p + |w|][0]; }
    if |w| > 1 { assert s[p + 1] == s[p..p + |w|][1]; }
  }

  // How it starts.
  lemma NumberFirst(s: Text, p: nat, sign: Text, whole: Text, point: Text, power: Text)
    requires IsNumber(sign, whole, point, power) && At(s, p, Spelling(sign, whole, point, power))
    ensures p < |s| && (s[p] in {0x2B, 0x2D, 0x2E} || IsFigure(s[p]))
    ensures sign == [] ==> s[p] !in {0x2B, 0x2D}
    ensures StartsNumber(Peek(s, p), Peek(s, p + 1), Peek(s, p + 2))
  {
    NumberParts(s, p, sign, whole, point, power);
    PartStarts(s, p, sign);
    PartStarts(s, p + |sign|, whole);
    PartStarts(s, p + |sign| + |whole|, point);
    if whole == [] { assert point[1] == point[1..][0]; }
  }

  // What follows makes it a percentage or a plain number ...
  lemma NumericIsRead(s: Text, p: nat, sign: Text, whole: Text, point: Text, power: Text)
    requires IsNumber(sign, whole, point, power) && At(s, p, Spelling(sign, whole, point, power))
    requires NumberStops(s, p + |Spelling(sign, whole, point, power)|, point, power)
    ensures var w := Spelling(sign, whole, point, power);
            var q, integer := p + |w|, point == [] && power == [];
            && (Peek(s, q) == 0x25 ==> Token(s, p) == Lexed(Percentage(w), q + 1))
            && (q == |s| || (!InName(s[q]) && s[q] !in {0x25, 0x5C}) ==> Token(s, p) == Lexed(Number(w, integer), q))
  {
    hide Digits, Fraction, Exponent, Sign, IsNumber, NumberStops, NumberEnd;
    NumberIsRead(s, p, sign, whole, point, power);
    NumberFirst(s, p, sign, whole, point, power);
  }

  // ... or a dimension, if what follows starts an identifier.
  lemma DimensionIsRead(s: Text, p: nat, sign: Text, whole: Text, point: Text, power: Text, unit: Text, esc: seq<bool>)
    requires IsNumber(sign, whole, point, power) && At(s, p, Spelling(sign, whole, point, power))
    requires NumberStops(s, p + |Spelling(sign, whole, point, power)|, point, power)
    requires unit != [] && |esc| == |unit|
    requires var q := p + |Spelling(sign, whole, point, power)|;
             At(s, q, Name(unit, esc)) && NameEnds(s, q + |Name(unit, esc)|)
    ensures var w := Spelling(sign, whole, point, power);
            var integer := point == [] && power == [];
            Token(s, p) == if Begins(unit, esc) then Lexed(Dimension(w, integer, unit), p + |w| + |Name(unit, esc)|)
                           else Lexed(Number(w, integer), p + |w|)
  {
    hide Digits, Fraction, Exponent, Sign, IsNumber, NumberStops, NumberEnd, NameEnds, IdentSequence, Name, Begins;
    var q := p + |Spelling(sign, whole, point, power)|;
    NumberIsRead(s, p, sign, whole, point, power);
    NumberFirst(s, p, sign, whole, point, power);
    NameBegins(s, q, unit, esc);
    RestIsRead(s, q, unit, esc, []);
    assert [] + unit == unit;
  }
}
