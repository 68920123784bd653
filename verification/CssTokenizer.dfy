// The tokenizer: a cursor over UTF-8 bytes, which looks ahead byte by byte where
// only ASCII matters.  It delivers what tokenizing the code points delivers.
module CssTokenizer {
  import opened Utf8
  import opened CssSyntax
  import CssNumber

  // The byte at which a code point starts.
  ghost function Offset(text: Text, k: nat): nat
    requires k <= |text|
  {
    |Encode(text[..k])|
  }

  // str[i], with the zero that ends a string.
  function ByteAt(str: seq<Byte>, i: nat): Byte {
    if i < |str| then str[i] else 0
  }

  ghost predicate IsText(text: Text, str: seq<Byte>) {
    Scalars(text) && str == Encode(text)
  }

  // ---------------------------------------------------------- bytes and code points

  // ASCII is its own encoding.
  lemma {:induction false} EncodeAscii(s: Text)
    requires forall k | 0 <= k < |s| :: s[k] < 128
    ensures Encode(s) == s
  {
    if s == [] {
    } else {
      var n := |s| - 1;
      EncodeAscii(s[..n]);
      assert Appended(s[n]) == [s[n]];
      assert s == s[..n] + [s[n]];
    }
  }

  lemma NumberInAscii(text: Text, p: nat)
    requires p <= |text|
    ensures p <= NumberEnd(text, p).0 <= |text|
    ensures forall k | 0 <= k < NumberEnd(text, p).0 - p :: text[p..NumberEnd(text, p).0][k] < 128
  {
    CssNumber.NumberIsAscii(text, p);
  }

  lemma OffsetStep(text: Text, k: nat)
    requires k < |text| && Scalars(text)
    ensures Offset(text, k + 1) == Offset(text, k) + |Appended(text[k])|
    ensures Encode(text) == Encode(text[..k]) + Appended(text[k]) + Encode(text[k + 1..])
  {
    hide Appended;
    assert text[..k + 1][..k] == text[..k];
    EncodeConcat(text[..k + 1], text[k + 1..]);
    assert text == text[..k + 1] + text[k + 1..];
  }

  lemma OffsetEnd(text: Text)
    ensures Offset(text, |text|) == |Encode(text)|
  {
    assert text[..|text|] == text;
  }

  // Reading at a code point gives it and the next offset; at the end, zero.
  lemma ReadHere(text: Text, str: seq<Byte>, k: nat)
    requires IsText(text, str) && k <= |text|
    ensures Offset(text, k) <= |str|
    ensures Read(str, Offset(text, k)) == (Peek(text, k), if k < |text| then Offset(text, k + 1) else |str|)
    ensures k == |text| ==> Offset(text, k) == |str|
  {
    hide Appended, Read;
    OffsetEnd(text);
    if k == |text| {
      ReadAtEnd(str);
    } else {
      OffsetStep(text, k);
      var i, n := Offset(text, k), |Appended(text[k])|;
      assert str[i..i + n] == Appended(text[k]);
      ReadAppended(str, i, text[k]);
    }
  }

  // The byte there is the code point itself if either is ASCII, and then the next
  // code point starts at the next byte.
  lemma ByteHere(text: Text, str: seq<Byte>, k: nat)
    requires IsText(text, str) && k <= |text|
    ensures Offset(text, k) <= |str| && (Offset(text, k) < |str| <==> k < |text|)
    ensures var b, c := ByteAt(str, Offset(text, k)), Peek(text, k);
            && (b < 128 || c < 128 ==> b == c)
            && (b == 0 <==> k == |text|)
            && (k < |text| && c < 128 ==> Offset(text, k + 1) == Offset(text, k) + 1)
  {
    hide Appended, Read;
    OffsetEnd(text);
    if k < |text| {
      OffsetStep(text, k);
      AppendedShape(text[k]);
      var i, n := Offset(text, k), |Appended(text[k])|;
      assert str[i..i + n] == Appended(text[k]);
      assert str[i] == str[i..i + n][0];
    }
  }

  lemma SubstrHere(text: Text, str: seq<Byte>, p: nat, q: nat)
    requires IsText(text, str) && p <= q <= |text|
    ensures Offset(text, p) <= Offset(text, q) <= |str|
    ensures str[Offset(text, p)..Offset(text, q)] == Encode(text[p..q])
  {
    hide Appended;
    EncodeConcat(text[..p], text[p..q]);
    EncodeConcat(text[..q], text[q..]);
    assert text[..q] == text[..p] + text[p..q] && text == text[..q] + text[q..];
  }

  // ------------------------------------------------------- finding the end of a comment

  predicate ClosesAt(str: seq<Byte>, i: nat) {
    i + 1 < |str| && str[i] == STAR && str[i + 1] == SLASH
  }

  // Where str.find("*/", from) ends.
  method Find(str: seq<Byte>, from: nat) returns (found: bool, i: nat)
    ensures found ==> from <= i && ClosesAt(str, i)
    ensures forall j | from <= j && (found ==> j < i) :: !ClosesAt(str, j)
  {
    i := from;
    while i + 1 < |str|
      invariant from <= i && forall j | from <= j < i :: !ClosesAt(str, j)
      decreases |str| - i
    {
      if str[i] == STAR && str[i + 1] == SLASH { return true, i; }
      i := i + 1;
    }
    found := false;
  }

  // No byte of a longer code point is taken for a star.
  lemma NotInside(text: Text, str: seq<Byte>, k: nat, j: nat)
    requires IsText(text, str) && k < |text| && text[k] >= 128 && Offset(text, k) <= j < Offset(text, k + 1)
    ensures !ClosesAt(str, j)
  {
    hide Appended;
    OffsetStep(text, k);
    AppendedShape(text[k]);
    var i, n := Offset(text, k), |Appended(text[k])|;
    assert str[i..i + n] == Appended(text[k]);
    assert str[j] == str[i..i + n][j - i];
  }

  lemma {:induction false} FindMatches(text: Text, str: seq<Byte>, p: nat, found: bool, i: nat)
    requires IsText(text, str) && p <= |text|
    requires found ==> Offset(text, p) <= i && ClosesAt(str, i)
    requires forall j | Offset(text, p) <= j && (found ==> j < i) :: !ClosesAt(str, j)
    ensures if found then Offset(text, CloseComment(text, p)) == i + 2 else CloseComment(text, p) == |text|
    decreases |text| - p
  {
    hide Encode, Appended;
    ByteHere(text, str, p);
    if p < |text| {
      ByteHere(text, str, p + 1);
      if text[p] >= 128 {
        forall j | Offset(text, p) <= j < Offset(text, p + 1) ensures !ClosesAt(str, j) { NotInside(text, str, p, j); }
        SubstrHere(text, str, p, p + 1);
        FindMatches(text, str, p + 1, found, i);
      } else if text[p] == STAR && Peek(text, p + 1) == SLASH {
        assert ClosesAt(str, Offset(text, p));
        ByteHere(text, str, p + 2);
      } else {
        assert !ClosesAt(str, Offset(text, p));
        FindMatches(text, str, p + 1, found, i);
      }
    }
  }

  // A token with its texts in UTF-8.
  function InUtf8(t: CssToken): CssToken {
    match t
    case Str(v) => Str(Encode(v))
    case Hash(isId, n) => Hash(isId, Encode(n))
    case AtKeyword(n) => AtKeyword(Encode(n))
    case Ident(n) => Ident(Encode(n))
    case Function(n) => Function(Encode(n))
    case Number(r, i) => Number(Encode(r), i)
    case Percentage(r) => Percentage(Encode(r))
    case Dimension(r, i, u) => Dimension(Encode(r), i, Encode(u))
    case Url(v) => Url(Encode(v))
    case _ => t
  }

  lemma EncodeMore(acc: Text, c: nat)
    ensures Encode(acc + [c]) == Encode(acc) + Appended(c)
  {
    assert (acc + [c])[..|acc|] == acc;
  }

  // --------------------------------------------------------------------- the cursor

  class Tokenizer {
    const str: seq<Byte>
    var index: nat
    var currentChar: nat
    ghost const text: Text
    ghost var at: nat       // the code point at index

    ghost predicate Valid()
      reads this
    {
      IsText(text, str) && at <= |text| && index == Offset(text, at)
    }

    constructor (str: seq<Byte>, ghost text: Text)
      requires IsText(text, str)
      ensures Valid() && this.text == text && this.str == str && at == 0
    {
      this.str, this.text := str, text;
      index, currentChar, at := 0, 0, 0;
    }

    method ConsumeChar() returns (ch: nat)
      requires Valid()
      modifies this
      ensures Valid() && ch == currentChar == Peek(text, old(at)) && (ch == 0 <==> old(at) == |text|)
      ensures at == if old(at) < |text| then old(at) + 1 else old(at)
    {
      hide Encode, Appended, Read;
      ReadHere(text, str, at);
      var (c, i) := Read(str, index);
      ch, index, currentChar := c, i, c;
      if at < |text| { at := at + 1; } else { OffsetEnd(text); }
    }

    // Undoes the consumption just before it.
    method UnconsumeChar()
      requires Valid() && (currentChar != 0 ==> at > 0)
      modifies `index, `at
      ensures Valid() && at == if currentChar == 0 then old(at) else old(at) - 1
    {
      if currentChar == 0 {
        return;
      }
      StepBack(text, str, at);
      index := PrevUtf8Char(str, index, text[..at - 1], text[at - 1]);
      at := at - 1;
    }

    // The byte `ahead` code points further, which are all ASCII.
    method LookByte(ahead: nat) returns (b: nat)
      requires Valid() && forall k | at <= k < at + ahead :: k < |text| && text[k] < 128
      ensures b < 128 || Peek(text, at + ahead) < 128 ==> b == Peek(text, at + ahead)
      ensures b == 0 <==> at + ahead == |text|
    {
      hide Encode, Appended;
      for k := 0 to ahead
        invariant at + k <= |text| && Offset(text, at + k) == index + k
      {
        ByteHere(text, str, at + k);
        assert text[at + k] < 128;
      }
      ByteHere(text, str, at + ahead);
      b := ByteAt(str, index + ahead);
    }

    // index++, past an ASCII character.
    method Step()
      requires Valid() && at < |text| && text[at] < 128
      modifies `index, `at
      ensures Valid() && at == old(at) + 1
    {
      hide Encode, Appended;
      ByteHere(text, str, at);
      index := index + 1;
      at := at + 1;
    }

    method PeekChars() returns (c1: nat, c2: nat, c3: nat)
      requires Valid()
      ensures c1 == Peek(text, at) && c2 == Peek(text, at + 1) && c3 == Peek(text, at + 2)
    {
      hide Encode, Appended, Read;
      ReadHere(text, str, at);
      var (ch1, i1) := Read(str, index);
      var p := if at < |text| then at + 1 else at;
      OffsetEnd(text);
      ReadHere(text, str, p);
      var (ch2, i2) := Read(str, i1);
      var q := if p < |text| then p + 1 else p;
      ReadHere(text, str, q);
      var (ch3, i3) := Read(str, i2);
      c1, c2, c3 := ch1, ch2, ch3;
    }

    // ------------------------------------------------------------------ what it reads

    method ConsumeComments()
      requires Valid()
      modifies this
      ensures Valid() && at == Comments(text, old(at))
    {
      hide Encode, Appended, Read;
      while true
        invariant Valid() && Comments(text, old(at)) == Comments(text, at)
        decreases |text| - at
      {
        var b := LookByte(0);
        if b != SLASH { break; }
        b := LookByte(1);
        if b != STAR { break; }
        ByteHere(text, str, at);
        ByteHere(text, str, at + 1);
        var found, i := Find(str, index + 2);
        FindMatches(text, str, at + 2, found, i);
        OffsetEnd(text);
        index := if found then i + 2 else |str|;
        at := CloseComment(text, at + 2);
        if !found { break; }
      }
    }

    method SkipWhitespace()
      requires Valid()
      modifies this
      ensures Valid() && at == SkipWhite(text, old(at)) && currentChar == old(currentChar)
    {
      hide Encode, Appended, Read, Offset, IsText;
      var b := LookByte(0);
      while IsWhitespace(b)
        invariant Valid() && SkipWhite(text, old(at)) == SkipWhite(text, at) && currentChar == old(currentChar)
        invariant b < 128 || Peek(text, at) < 128 ==> b == Peek(text, at)
        invariant b == 0 <==> at == |text|
        decreases |text| - at
      {
        Step();
        b := LookByte(0);
      }
    }

    method ConsumeEscapedCodePoint() returns (code: nat)
      requires Valid()
      modifies this
      ensures Valid() && (code, at) == Escaped(text, old(at))
    {
      hide Encode, Appended, Read, Offset, IsText, DigitValue, CodePoint;
      var ch := ConsumeChar();
      if IsHexDigit(ch) {
        var number: nat := DigitValue(ch);
        var max: nat := 5;
        ghost var start := at;
        var b := LookByte(0);
        while max > 0 && IsHexDigit(b)
          invariant Valid()
          invariant HexDigits(text, start, DigitValue(ch), 5) == HexDigits(text, at, number, max)
          invariant b < 128 || Peek(text, at) < 128 ==> b == Peek(text, at)
          invariant b == 0 <==> at == |text|
          decreases max
        {
          var digit := ConsumeChar();
          number := number * 16 + DigitValue(digit);
          max := max - 1;
          b := LookByte(0);
        }
        if IsWhitespace(b) {
          var _ := ConsumeChar();
        }
        code := CodePoint(number);
      } else if ch == 0 {
        code := REPLACEMENT;
      } else {
        code := ch;
      }
    }

    method ConsumeStringToken(ending: nat) returns (t: CssToken)
      requires Valid() && ending != 0 && ending != NEWLINE && ending != BACKSLASH
      modifies this
      ensures Valid() && StringToken(text, old(at), ending, []).next == at
      ensures t == InUtf8(StringToken(text, old(at), ending, []).t)
    {
      hide Encode, Appended, Read, Offset, IsText, Escaped;
      EncodeNothing();
      var value: seq<Byte> := [];
      ghost var acc: Text := [];
      while true
        invariant Valid() && value == Encode(acc)
        invariant StringToken(text, old(at), ending, []) == StringToken(text, at, ending, acc)
        decreases |text| - at
      {
        var ch := ConsumeChar();
        if ch == 0 {
          return Str(value);
        } else if ch == NEWLINE {
          UnconsumeChar();
          return BadStr;
        } else if ch == BACKSLASH {
          var b := LookByte(0);
          if b == 0 {
          } else if b == NEWLINE {
            Step();
          } else {
            var c := ConsumeEscapedCodePoint();
            EncodeMore(acc, c);
            value, acc := value + Appended(c), acc + [c];
          }
        } else if ch == ending {
          return Str(value);
        } else {
          EncodeMore(acc, ch);
          value, acc := value + Appended(ch), acc + [ch];
        }
      }
    }

    method ConsumeIdentSequence() returns (name: seq<Byte>)
      requires Valid()
      modifies this
      ensures Valid() && IdentSequence(text, old(at), []).next == at
      ensures name == Encode(IdentSequence(text, old(at), []).text)
    {
      hide Encode, Appended, Read, Offset, IsText, Escaped;
      EncodeNothing();
      name := [];
      ghost var acc: Text := [];
      while true
        invariant Valid() && name == Encode(acc)
        invariant IdentSequence(text, old(at), []) == IdentSequence(text, at, acc)
        decreases |text| - at
      {
        var ch := ConsumeChar();
        var b := LookByte(0);
        if IsIdentPoint(ch) {
          EncodeMore(acc, ch);
          name, acc := name + Appended(ch), acc + [ch];
        } else if ch == BACKSLASH && b != NEWLINE {
          var c := ConsumeEscapedCodePoint();
          EncodeMore(acc, c);
          name, acc := name + Appended(c), acc + [c];
        } else {
          UnconsumeChar();
          return;
        }
      }
    }

    // An ASCII character of a number.
    method Take(repr: seq<Byte>, ghost from: nat) returns (r: seq<Byte>)
      requires Valid() && from <= at < |text| && text[at] < 128 && repr == Encode(text[from..at])
      modifies `index, `at
      ensures Valid() && at == old(at) + 1 && r == Encode(text[from..at])
    {
      hide Encode, Appended, Read, Offset, IsText;
      var b := LookByte(0);
      Step();
      assert text[from..at] == text[from..at - 1] + [text[at - 1]];
      EncodeMore(text[from..at - 1], text[at - 1]);
      r := repr + Appended(b);
    }

    method TakeDigits(repr: seq<Byte>, ghost from: nat) returns (r: seq<Byte>)
      requires Valid() && from <= at && repr == Encode(text[from..at])
      modifies `index, `at
      ensures Valid() && at == Digits(text, old(at)) && r == Encode(text[from..at])
    {
      hide Encode, Appended, Read, Offset, IsText;
      r := repr;
      var b := LookByte(0);
      while IsDigit(b)
        invariant Valid() && from <= at && r == Encode(text[from..at]) && Digits(text, old(at)) == Digits(text, at)
        invariant b < 128 || Peek(text, at) < 128 ==> b == Peek(text, at)
        invariant b == 0 <==> at == |text|
        decreases |text| - at
      {
        r := Take(r, from);
        b := LookByte(0);
      }
    }

    // The longest number; tokens keep its spelling, which has the value.
    method ConsumeNumber() returns (repr: seq<Byte>, integer: bool, value: real)
      requires Valid()
      modifies `index, `at
      ensures Valid() && (at, integer) == NumberEnd(text, old(at))
      ensures repr == Encode(text[old(at)..at]) && value == CssNumber.Value(text[old(at)..at])
    {
      repr, integer := ConsumeSpelling();
      ghost var spelling := text[old(at)..at];
      hide *;
      NumberInAscii(text, old(at));
      EncodeAscii(spelling);
      value := CssNumber.ConvertStringToNumber(repr);
    }

    method ConsumeSpelling() returns (repr: seq<Byte>, integer: bool)
      requires Valid()
      modifies `index, `at
      ensures Valid() && (at, integer) == NumberEnd(text, old(at))
      ensures repr == Encode(text[old(at)..at])
    {
      hide Encode, Appended, Read, Offset, IsText, Digits, Fraction, Exponent;
      ghost var start := at;
      EncodeNothing();
      repr := [];
      var b := LookByte(0);
      if b == PLUS || b == MINUS {
        assert text[start..at] == [];
        repr := Take(repr, start);
      }
      assert at == start ==> text[start..at] == [];
      repr := TakeDigits(repr, start);
      ghost var whole := at;
      var fraction, exponent;
      repr, fraction := TakeFraction(repr, start);
      repr, exponent := TakeExponent(repr, start);
      integer := !fraction && !exponent;
    }

    method TakeFraction(repr: seq<Byte>, ghost from: nat) returns (r: seq<Byte>, taken: bool)
      requires Valid() && from <= at && repr == Encode(text[from..at])
      modifies `index, `at
      ensures Valid() && at == Fraction(text, old(at)) && r == Encode(text[from..at]) && taken == (at > old(at))
    {
      hide Encode, Appended, Read, Offset, IsText;
      r, taken := repr, false;
      var b := LookByte(0);
      if b == DOT {
        b := LookByte(1);
        if IsDigit(b) {
          r := Take(r, from);
          r := Take(r, from);
          r := TakeDigits(r, from);
          taken := true;
        }
      }
    }

    method TakeExponent(repr: seq<Byte>, ghost from: nat) returns (r: seq<Byte>, taken: bool)
      requires Valid() && from <= at && repr == Encode(text[from..at])
      modifies `index, `at
      ensures Valid() && at == Exponent(text, old(at)) && r == Encode(text[from..at]) && taken == (at > old(at))
    {
      hide Encode, Appended, Read, Offset, IsText;
      r, taken := repr, false;
      var e := LookByte(0);
      if Lower(e) == 0x65 {
        var b := LookByte(1);
        var signed := false;
        if b == PLUS || b == MINUS {
          var d := LookByte(2);
          signed := IsDigit(d);
        }
        if signed || IsDigit(b) {
          r := Take(r, from);
          r := Take(r, from);
          if signed { r := Take(r, from); }
          r := TakeDigits(r, from);
          taken := true;
        }
      }
    }

    method ConsumeNumericToken() returns (t: CssToken)
      requires Valid()
      modifies this
      ensures Valid() && NumericToken(text, old(at)).next == at
      ensures t == InUtf8(NumericToken(text, old(at)).t)
    {
      hide Encode, Appended, Read, Offset, IsText, NumberEnd, IdentSequence, CssNumber.Value;
      var repr, integer, _ := ConsumeNumber();
      t := ConsumeUnit(repr, integer, old(at));
    }

    // What follows the number decides what the token is.
    method ConsumeUnit(repr: seq<Byte>, integer: bool, ghost start: nat) returns (t: CssToken)
      requires Valid() && start <= |text| && NumberEnd(text, start) == (at, integer) && repr == Encode(text[start..at])
      modifies this
      ensures Valid() && NumericToken(text, start).next == at
      ensures t == InUtf8(NumericToken(text, start).t)
    {
      hide Encode, Appended, Read, Offset, IsText, NumberEnd, IdentSequence;
      var c1, c2, c3 := PeekChars();
      if StartsIdent(c1, c2, c3) {
        var unit := ConsumeIdentSequence();
        return Dimension(repr, integer, unit);
      }
      var b := LookByte(0);
      if b == PERCENT {
        Step();
        return Percentage(repr);
      }
      t := Number(repr, integer);
    }

    method ConsumeRemnantsOfBadUrl()
      requires Valid()
      modifies this
      ensures Valid() && at == BadUrlRemnants(text, old(at))
    {
      hide Encode, Appended, Read, Offset, IsText, Escaped;
      while true
        invariant Valid() && BadUrlRemnants(text, old(at)) == BadUrlRemnants(text, at)
        decreases |text| - at
      {
        var ch := ConsumeChar();
        var b := LookByte(0);
        if ch == RPAREN || ch == 0 {
          return;
        } else if ch == BACKSLASH && b != NEWLINE {
          var _ := ConsumeEscapedCodePoint();
        }
      }
    }

    method ConsumeUrlToken() returns (t: CssToken)
      requires Valid() && at == SkipWhite(text, at)
      modifies this
      ensures Valid() && UrlToken(text, old(at), []).next == at
      ensures t == InUtf8(UrlToken(text, old(at), []).t)
    {
      hide Encode, Appended, Read, Offset, IsText, Escaped, BadUrlRemnants;
      EncodeNothing();
      var value: seq<Byte> := [];
      ghost var acc: Text := [];
      while true
        invariant Valid() && value == Encode(acc)
        invariant UrlToken(text, old(at), []) == UrlToken(text, at, acc)
        decreases |text| - at
      {
        var ch := ConsumeChar();
        if ch == RPAREN || ch == 0 {
          return Url(value);
        } else if IsWhitespace(ch) {
          t := ConsumeUrlEnd(value, acc);
          return;
        } else if ch == QUOTE || ch == APOSTROPHE || ch == LPAREN || IsNonPrintable(ch) {
          ConsumeRemnantsOfBadUrl();
          return BadUrl;
        } else if ch == BACKSLASH {
          var b := LookByte(0);
          if b == NEWLINE {
            ConsumeRemnantsOfBadUrl();
            return BadUrl;
          }
          var c := ConsumeEscapedCodePoint();
          EncodeMore(acc, c);
          value, acc := value + Appended(c), acc + [c];
        } else {
          EncodeMore(acc, ch);
          value, acc := value + Appended(ch), acc + [ch];
        }
      }
    }

    // After whitespace inside a url only its end may follow.
    method ConsumeUrlEnd(value: seq<Byte>, ghost acc: Text) returns (t: CssToken)
      requires Valid() && at > 0 && IsWhitespace(text[at - 1]) && value == Encode(acc)
      modifies this
      ensures Valid() && UrlToken(text, old(at) - 1, acc).next == at
      ensures t == InUtf8(UrlToken(text, old(at) - 1, acc).t)
    {
      hide Encode, Appended, Read, Offset, IsText, BadUrlRemnants;
      SkipWhitespace();
      var b := LookByte(0);
      if b == RPAREN || b == 0 {
        if b != 0 { Step(); }
        return Url(value);
      }
      ConsumeRemnantsOfBadUrl();
      t := BadUrl;
    }

    method ConsumeIdentLikeToken() returns (t: CssToken)
      requires Valid()
      modifies this
      ensures Valid() && IdentLikeToken(text, old(at)).next == at
      ensures t == InUtf8(IdentLikeToken(text, old(at)).t)
    {
      hide Encode, Appended, Read, Offset, IdentSequence, UrlToken, IsUrl, SkipWhite;
      ghost var spelled := IdentSequence(text, at, []).text;
      var name := ConsumeIdentSequence();
      IdentScalars(text, old(at), []);
      UrlInUtf8(spelled);
      var b := LookByte(0);
      if IsUrl(name) && b == LPAREN {
        Step();
        ghost var open := at;
        SkipWhitespace();
        b := LookByte(0);
        SkipWhiteEnd(text, open);
        if b == QUOTE || b == APOSTROPHE {
          ByteHere(text, str, at - 1);
          if IsWhitespace(str[index - 1]) {
            index := index - 1;
            at := at - 1;
          }
          return Function(name);
        }
        t := ConsumeUrlToken();
      } else if b == LPAREN {
        Step();
        t := Function(name);
      } else {
        t := Ident(name);
      }
    }

    // The token where no comment starts.
    method ConsumeOne() returns (t: CssToken)
      requires Valid()
      modifies this
      ensures Valid() && Token(text, old(at)).next == at && t == InUtf8(Token(text, old(at)).t)
    {
      hide Encode, Appended, Read, Offset, IsText, IdentSequence, IdentLikeToken, NumericToken, StringToken;
      var ch := ConsumeChar();
      var next1, next2, next3 := PeekChars();
      if ch == 0 {
        t := EndOfFile;
      } else if IsWhitespace(ch) {
        SkipWhitespace();
        t := Whitespace;
      } else if ch == QUOTE || ch == APOSTROPHE {
        t := ConsumeStringToken(ch);
      } else if ch == HASH {
        t := ConsumeHash();
      } else if (ch == PLUS || ch == DOT || ch == MINUS || IsDigit(ch)) && StartsNumber(ch, next1, next2) {
        UnconsumeChar();
        t := ConsumeNumericToken();
      } else if ch == MINUS && next1 == MINUS && next2 == GREATER {
        Step();
        Step();
        t := Cdc;
      } else if ch == LESS {
        t := ConsumeAfterLess();
      } else if ch == AT && StartsIdent(next1, next2, next3) {
        var name := ConsumeIdentSequence();
        t := AtKeyword(name);
      } else if StartsIdent(ch, next1, next2) {
        UnconsumeChar();
        t := ConsumeIdentLikeToken();
      } else {
        t := Delim(ch);
      }
    }

    // After "#".
    method ConsumeHash() returns (t: CssToken)
      requires Valid() && at > 0 && text[at - 1] == HASH
      modifies this
      ensures Valid() && Token(text, old(at) - 1).next == at && t == InUtf8(Token(text, old(at) - 1).t)
    {
      hide Encode, Appended, Read, Offset, IsText, IdentSequence, IdentLikeToken, NumericToken, StringToken;
      var next1, next2, next3 := PeekChars();
      var b := LookByte(0);
      var escape := false;
      if b == BACKSLASH {
        b := LookByte(1);
        escape := b != NEWLINE;
      }
      if IsIdentPoint(next1) || escape {
        var name := ConsumeIdentSequence();
        t := Hash(StartsIdent(next1, next2, next3), name);
      } else {
        t := Delim(HASH);
      }
    }

    // After "<".
    method ConsumeAfterLess() returns (t: CssToken)
      requires Valid() && at > 0 && text[at - 1] == LESS
      modifies this
      ensures Valid() && Token(text, old(at) - 1).next == at && t == InUtf8(Token(text, old(at) - 1).t)
    {
      hide Encode, Appended, Read, Offset, IsText, IdentSequence, IdentLikeToken, NumericToken, StringToken;
      t := Delim(LESS);
      var b := LookByte(0);
      if b == BANG {
        b := LookByte(1);
        if b == MINUS {
          b := LookByte(2);
          if b == MINUS {
            Step();
            Step();
            Step();
            t := Cdo;
          }
        }
      }
    }

    method ConsumeToken() returns (token: RawToken)
      requires Valid()
      modifies this
      ensures Valid()
      ensures var q := Comments(text, old(at));
              && q <= at == Token(text, q).next
              && token == RawToken(InUtf8(Token(text, q).t), Encode(text[q..at]))
    {
      hide Encode, Appended, Read, Token, Comments;
      ConsumeComments();
      var start := index;
      ghost var q := at;
      var t := ConsumeOne();
      SubstrHere(text, str, q, at);
      token := RawToken(t, str[start..index]);
    }

    // The tokens of the text, with their representations, which are the string but
    // for the comments.
    method Tokenize() returns (tokens: seq<RawToken>)
      requires Valid() && at == 0
      modifies this
      ensures tokens == InUtf8All(CssSyntax.Tokenize(text, 0).pieces)
      ensures exists gaps, end :: Partition(gaps, tokens, end, str)
    {
      hide Encode, Appended, Read, Token, Comments, Offset;
      hide CssSyntax.Tokenize, InUtf8All, InUtf8, IsText;
      tokens := [];
      ghost var all := InUtf8All(CssSyntax.Tokenize(text, 0).pieces);
      while true
        invariant Valid()
        invariant all == tokens + InUtf8All(CssSyntax.Tokenize(text, at).pieces)
        decreases |text| - at
      {
        NextPiece(text, at, tokens);
        var token := ConsumeToken();
        if token.t == EndOfFile { break; }
        tokens := tokens + [token];
      }
      WholeString(text, str, tokens);
    }
  }

  datatype RawToken = RawToken(t: CssToken, repr: seq<Byte>)

  lemma EndIsEnd(s: Text, p: nat)
    requires p <= |s|
    ensures Token(s, p).t == EndOfFile <==> p == |s|
    ensures p == |s| ==> Token(s, p).next == p
  {
    if p < |s| { TokenMovesOn(s, p); }
  }

  // One token more, or none.
  lemma NextPiece(s: Text, p: nat, done: seq<RawToken>)
    requires p <= |s|
    ensures var q := Comments(s, p); var r := Token(s, q);
            var all := InUtf8All(CssSyntax.Tokenize(s, p).pieces);
            && q <= r.next
            && if InUtf8(r.t) == EndOfFile then all == [] && done + all == done
               else
                 && p < r.next
                 && done + all == done + [RawToken(InUtf8(r.t), Encode(s[q..r.next]))] +
                                  InUtf8All(CssSyntax.Tokenize(s, r.next).pieces)
  {
    hide Encode, Token, Comments;
    var q := Comments(s, p);
    EndIsEnd(s, q);
    if q < |s| {
      TokenMovesOn(s, q);
      var r := Token(s, q);
      var rest := CssSyntax.Tokenize(s, r.next).pieces;
      assert CssSyntax.Tokenize(s, p).pieces[1..] == rest;
    }
  }

  ghost predicate CommentBytes(g: seq<Byte>) {
    exists c :: IsComments(c) && g == Encode(c)
  }

  ghost function Bytes(gaps: seq<seq<Byte>>, tokens: seq<RawToken>): seq<Byte>
    requires |gaps| == |tokens|
  {
    if tokens == [] then [] else gaps[0] + tokens[0].repr + Bytes(gaps[1..], tokens[1..])
  }

  // Comments, representations and the comments at the end are the string.
  ghost predicate Partition(gaps: seq<seq<Byte>>, tokens: seq<RawToken>, end: seq<Byte>, str: seq<Byte>) {
    && |gaps| == |tokens| && (forall i | 0 <= i < |gaps| :: CommentBytes(gaps[i])) && CommentBytes(end)
    && Bytes(gaps, tokens) + end == str
    && forall i | 0 <= i < |tokens| :: tokens[i].repr != []
  }

  ghost function Gaps(pieces: seq<Piece>): (r: seq<seq<Byte>>)
    ensures |r| == |pieces|
  {
    if pieces == [] then [] else [Encode(pieces[0].gap)] + Gaps(pieces[1..])
  }

  ghost predicate GoodPiece(p: Piece) {
    p.text != [] && IsComments(p.gap) && Scalars(p.text)
  }

  lemma PieceBytes(p: Piece)
    requires GoodPiece(p)
    ensures CommentBytes(Encode(p.gap)) && Encode(p.text) != []
    ensures forall more :: Encode(p.gap + p.text + more) == Encode(p.gap) + Encode(p.text) + Encode(more)
  {
    hide Appended, IsComments;
    EncodeStep(p.text);
    AppendedShape(p.text[0]);
    EncodeConcat(p.gap, p.text);
    forall more ensures Encode(p.gap + p.text + more) == Encode(p.gap) + Encode(p.text) + Encode(more) {
      EncodeConcat(p.gap + p.text, more);
    }
  }

  lemma {:induction false} JoinedBytes(pieces: seq<Piece>)
    requires forall i | 0 <= i < |pieces| :: GoodPiece(pieces[i])
    ensures |InUtf8All(pieces)| == |pieces|
    ensures Bytes(Gaps(pieces), InUtf8All(pieces)) == Encode(Joined(pieces))
    ensures forall i | 0 <= i < |pieces| :: CommentBytes(Gaps(pieces)[i]) && InUtf8All(pieces)[i].repr != []
  {
    if pieces == [] {
      EncodeNothing();
    } else {
      hide Encode, Appended, GoodPiece, CommentBytes, InUtf8;
      JoinedBytes(pieces[1..]);
      PieceBytes(pieces[0]);
      var gaps, tokens := Gaps(pieces), InUtf8All(pieces);
      assert gaps[1..] == Gaps(pieces[1..]) && tokens[1..] == InUtf8All(pieces[1..]);
    }
  }

  lemma {:induction false} PiecesScalar(s: Text, p: nat)
    requires p <= |s| && Scalars(s)
    ensures forall i | 0 <= i < |CssSyntax.Tokenize(s, p).pieces| :: Scalars(CssSyntax.Tokenize(s, p).pieces[i].text)
    decreases |s| - p
  {
    hide Token, Comments;
    var q := Comments(s, p);
    if q < |s| {
      TokenMovesOn(s, q);
      PiecesScalar(s, Token(s, q).next);
    }
  }

  lemma WholeString(text: Text, str: seq<Byte>, tokens: seq<RawToken>)
    requires IsText(text, str) && tokens == InUtf8All(CssSyntax.Tokenize(text, 0).pieces)
    ensures exists gaps, end :: Partition(gaps, tokens, end, str)
  {
    hide Appended, Encode, IsComments, Token, Comments, CssSyntax.Tokenize;
    var r := CssSyntax.Tokenize(text, 0);
    Lossless(text, 0);
    PiecesScalar(text, 0);
    JoinedBytes(r.pieces);
    EncodeConcat(Joined(r.pieces), r.end);
    assert text[0..] == text;
    assert Partition(Gaps(r.pieces), tokens, Encode(r.end), str);
  }

  ghost function InUtf8All(pieces: seq<Piece>): seq<RawToken> {
    if pieces == [] then [] else [RawToken(InUtf8(pieces[0].t), Encode(pieces[0].text))] + InUtf8All(pieces[1..])
  }

  lemma {:induction false} SkipWhiteEnd(s: Text, p: nat)
    requires p <= |s|
    ensures var q := SkipWhite(s, p); SkipWhite(s, q) == q && forall i | p <= i < q :: IsWhitespace(s[i])
    decreases |s| - p
  {
    if p < |s| && IsWhitespace(s[p]) { SkipWhiteEnd(s, p + 1); }
  }

  lemma {:induction false} IdentScalars(s: Text, p: nat, acc: Text)
    requires p <= |s| && Scalars(s) && Scalars(acc)
    ensures Scalars(IdentSequence(s, p, acc).text)
    decreases |s| - p
  {
    if p < |s| {
      if IsIdentPoint(s[p]) {
        IdentScalars(s, p + 1, acc + [s[p]]);
      } else if s[p] == BACKSLASH && Peek(s, p + 1) != NEWLINE {
        var (c, q) := Escaped(s, p + 1);
        IdentScalars(s, q, acc + [c]);
      }
    }
  }

  // Only a name spelled u, r, l has those three bytes.
  lemma UrlInUtf8(name: Text)
    requires Scalars(name)
    ensures IsUrl(Encode(name)) <==> IsUrl(name)
  {
    if IsUrl(name) { AsciiInUtf8(name); }
    if IsUrl(Encode(name)) {
      AsciiInUtf8(Encode(name));
      EncodeInjective(name, Encode(name));
    }
  }

  lemma {:induction false} AsciiInUtf8(s: Text)
    requires forall i | 0 <= i < |s| :: 0 < s[i] < 128
    ensures Encode(s) == s
  {
    if s != [] {
      AsciiInUtf8(s[..|s| - 1]);
      assert s == s[..|s| - 1] + [s[|s| - 1]];
    }
  }

  lemma StepBack(text: Text, str: seq<Byte>, k: nat)
    requires IsText(text, str) && 0 < k <= |text|
    ensures Offset(text, k) <= |str|
    ensures str[..Offset(text, k)] == Encode(text[..k - 1]) + Appended(text[k - 1])
    ensures Scalars(text[..k - 1]) && Scalar(text[k - 1])
  {
    hide Appended;
    OffsetStep(text, k - 1);
  }
}
