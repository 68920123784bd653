// Reading a url from text step by step, and percent-encoding.
module UrlText {
  import opened Url
  import Utf8

  // std::string::find for one of some characters, or the length.
  method Find(s: string, stops: set<char>) returns (i: nat)
    ensures i == IndexOf(s, stops)
  {
    i := 0;
    while i < |s| && s[i] !in stops
      invariant i <= |s| && IndexOf(s, stops) == i + IndexOf(s[i..], stops)
    {
      assert s[i..][1..] == s[i + 1..];
      i := i + 1;
    }
    assert i == |s| ==> s[i..] == "";
  }

  method ValidScheme(s: string) returns (valid: bool)
    ensures valid <==> AllScheme(s)
  {
    for i := 0 to |s|
      invariant AllScheme(s[..i])
    {
      if !IsSchemeChar(s[i]) { return false; }
      assert s[..i + 1] == s[..i] + [s[i]];
    }
    assert s[..|s|] == s;
    valid := true;
  }

  // The parsing constructor: the text shrinks as components are taken off it.
  method ParseUrl(str: string) returns (u: Url)
    ensures u == Parse(str)
  {
    hide IndexOf, AllScheme, ParseRest;
    var tmp := str;
    u := Url("", "", "", "", "");
    var offset := Find(tmp, {':'});
    if offset < |tmp| {
      var valid := ValidScheme(tmp[..offset]);
      if valid {
        u := u.(scheme := tmp[..offset]);
        tmp := tmp[offset + 1..];
      }
    }
    assert Parse(str) == ParseRest(u.scheme, tmp);
    u := ParseAfterScheme(u.scheme, tmp);
  }

  method ParseAfterScheme(scheme: string, rest: string) returns (u: Url)
    ensures u == ParseRest(scheme, rest)
  {
    hide IndexOf, ParsePath;
    var tmp := rest;
    u := Url(scheme, "", "", "", "");
    if |tmp| >= 2 && tmp[0] == '/' && tmp[1] == '/' {
      tmp := tmp[2..];
      var offset := Find(tmp, {'/', '?', '#'});
      u := u.(authority := tmp[..offset]);
      tmp := tmp[offset..];
    }
    u := ParseAfterAuthority(scheme, u.authority, tmp);
  }

  method ParseAfterAuthority(scheme: string, authority: string, rest: string) returns (u: Url)
    ensures u == ParsePath(scheme, authority, rest)
  {
    hide IndexOf;
    var tmp := rest;
    u := Url(scheme, authority, "", "", "");
    var offset := Find(tmp, {'#'});
    if offset < |tmp| {
      u := u.(fragment := tmp[offset + 1..]);
      tmp := tmp[..offset];
    }
    offset := Find(tmp, {'?'});
    if offset < |tmp| {
      u := u.(query := tmp[offset + 1..]);
      tmp := tmp[..offset];
    }
    u := u.(path := tmp);
  }

  // ---------------------------------------------------------------- percent-encoding

  type Byte = Utf8.Byte

  predicate Unreserved(c: Byte) {
    || 0x30 <= c <= 0x39 || 0x41 <= c <= 0x5A || 0x61 <= c <= 0x7A
    || c == 0x2D || c == 0x5F || c == 0x2E || c == 0x7E
  }

  const PERCENT: Byte := 0x25
  const PLUS: Byte := 0x2B
  const MINUS: Byte := 0x2D
  const SPACE: Byte := 0x20

  function HexDigit(n: nat): Byte
    requires n < 16
  {
    if n < 10 then 0x30 + n else 0x41 + n - 10
  }

  // A code in hexadecimal, padded with a space to two places.
  function Coded(c: Byte): seq<Byte> {
    if Unreserved(c) then [c]
    else [PERCENT, if c < 16 then SPACE else HexDigit(c / 16), HexDigit(c % 16)]
  }

  function Encoded(s: seq<Byte>): seq<Byte> {
    if s == [] then [] else Coded(s[0]) + Encoded(s[1..])
  }

  predicate IsHex(c: Byte) {
    0x30 <= c <= 0x39 || 0x41 <= c <= 0x46 || 0x61 <= c <= 0x66
  }

  function HexValue(c: Byte): nat
    requires IsHex(c)
  {
    if c <= 0x39 then c - 0x30 else if c <= 0x46 then c - 0x41 + 10 else c - 0x61 + 10
  }

  predicate IsSpace(c: Byte) { c == SPACE || 0x09 <= c <= 0x0D }

  // strtol of two characters, base 16: space, a sign, then digits as far as they go.
  // A second character that ends the string early, or a lone "0x", adds nothing.
  function Strtol(a: Byte, b: Byte): int {
    if IsHex(a) then if IsHex(b) then 16 * HexValue(a) + HexValue(b) else HexValue(a)
    else if !IsHex(b) then 0
    else if IsSpace(a) || a == PLUS then HexValue(b)
    else if a == MINUS then var v: int := HexValue(b); -v
    else 0
  }

  // Decoding from a position; a percent sign too near the end stops it.
  function Decoded(s: seq<Byte>, i: nat): seq<Byte>
    requires i <= |s|
    decreases |s| - i
  {
    if i == |s| then []
    else if s[i] == PERCENT then
      if i + 2 >= |s| then [] else [Strtol(s[i + 1], s[i + 2]) % 256] + Decoded(s, i + 3)
    else [if s[i] == PLUS then SPACE else s[i]] + Decoded(s, i + 1)
  }

  lemma CodedIsDecoded(s: seq<Byte>, i: nat, c: Byte)
    requires i + |Coded(c)| <= |s| && s[i..i + |Coded(c)|] == Coded(c)
    ensures Decoded(s, i) == [c] + Decoded(s, i + |Coded(c)|)
  {
    var n := |Coded(c)|;
    assert s[i] == s[i..i + n][0];
    if !Unreserved(c) {
      assert s[i + 1] == s[i..i + n][1] && s[i + 2] == s[i..i + n][2];
      CodeIsRead(c);
    }
  }

  // The two places of a code are read back, also when the first is a space.
  lemma CodeIsRead(c: Byte)
    ensures Strtol(if c < 16 then SPACE else HexDigit(c / 16), HexDigit(c % 16)) == c
  {
  }

  lemma {:induction false} EncodedIsDecoded(done: seq<Byte>, s: seq<Byte>)
    ensures Decoded(done + Encoded(s), |done|) == s
    decreases |s|
  {
    hide Coded, Decoded;
    assert |done + Encoded(s)| == |done| + |Encoded(s)|;
    if s == [] {
      NothingLeft(done + Encoded(s));
    } else {
      var code := Coded(s[0]);
      ThreeParts(done, code, Encoded(s[1..]));
      CodedIsDecoded(done + Encoded(s), |done|, s[0]);
      EncodedIsDecoded(done + code, s[1..]);
      assert s == [s[0]] + s[1..];
    }
  }

  lemma NothingLeft(s: seq<Byte>)
    ensures Decoded(s, |s|) == []
  {
  }

  lemma ThreeParts(a: seq<Byte>, b: seq<Byte>, c: seq<Byte>)
    ensures a + (b + c) == (a + b) + c && (a + (b + c))[|a|..|a| + |b|] == b
  {
  }

  // Decoding undoes encoding, for every string of bytes.
  lemma DecodeUndoesEncode(s: seq<Byte>)
    ensures Decoded(Encoded(s), 0) == s
  {
    EncodedIsDecoded([], s);
    assert [] + Encoded(s) == Encoded(s);
  }

  method Encode(str: seq<Byte>) returns (encoded: seq<Byte>)
    ensures encoded == Encoded(str)
  {
    hide Unreserved, HexDigit;
    encoded := [];
    for i := 0 to |str|
      invariant encoded + Encoded(str[i..]) == Encoded(str)
    {
      var c := str[i];
      EncodedStep(encoded, str, i);
      if Unreserved(c) {
        encoded := encoded + [c];
      } else {
        encoded := encoded + [PERCENT, if c < 16 then SPACE else HexDigit(c / 16), HexDigit(c % 16)];
      }
    }
    assert str[|str|..] == [];
  }

  lemma EncodedStep(encoded: seq<Byte>, str: seq<Byte>, i: nat)
    requires i < |str|
    ensures encoded + Encoded(str[i..]) == (encoded + Coded(str[i])) + Encoded(str[i + 1..])
  {
    hide Coded;
    assert str[i..] == [str[i]] + str[i + 1..];
    assert encoded + (Coded(str[i]) + Encoded(str[i + 1..])) == (encoded + Coded(str[i])) + Encoded(str[i + 1..]);
  }

  method Decode(str: seq<Byte>) returns (decoded: seq<Byte>)
    ensures decoded == Decoded(str, 0)
  {
    hide Strtol;
    decoded := [];
    var i := 0;
    while i < |str|
      invariant 0 <= i <= |str| && decoded + Decoded(str, i) == Decoded(str, 0)
      decreases |str| - i
    {
      var c := str[i];
      ghost var next := if c == PERCENT then i + 3 else i + 1;
      if c == PERCENT {
        if i + 2 >= |str| { break; }
        c := Strtol(str[i + 1], str[i + 2]) % 256;
        i := i + 2;
      } else if c == PLUS {
        c := SPACE;
      }
      OneByte(decoded, c, Decoded(str, next));
      decoded := decoded + [c];
      i := i + 1;
    }
  }

  lemma OneByte(done: seq<Byte>, c: Byte, rest: seq<Byte>)
    ensures done + ([c] + rest) == (done + [c]) + rest
  {
  }

  // ------------------------------------------------------------ what the codes mean

  const UPPER: seq<Byte> :=
    [0x30, 0x31, 0x32, 0x33, 0x34, 0x35, 0x36, 0x37, 0x38, 0x39, 0x41, 0x42, 0x43, 0x44, 0x45, 0x46]
  const LOWER: seq<Byte> :=
    [0x30, 0x31, 0x32, 0x33, 0x34, 0x35, 0x36, 0x37, 0x38, 0x39, 0x61, 0x62, 0x63, 0x64, 0x65, 0x66]

  // Letters, digits, and "-", "_", ".", "~".
  predicate Plain(c: Byte) {
    0x30 <= c <= 0x39 || 0x41 <= c <= 0x5A || 0x61 <= c <= 0x7A || c in {0x2D, 0x5F, 0x2E, 0x7E}
  }

  // A plain byte stands for itself, any other becomes "%" and its code in upper case,
  // with a space for a zero in front.
  lemma CodedIs(c: Byte)
    ensures Coded(c) == if Plain(c) then [c] else [0x25, if c < 16 then 0x20 else UPPER[c / 16], UPPER[c % 16]]
  {
  }

  // One way to write a byte: as it is, a plus for a space, or its code in either case.
  predicate Writes(w: seq<Byte>, c: Byte) {
    || (w == [c] && c != 0x25 && c != 0x2B)
    || (w == [0x2B] && c == 0x20)
    || (|w| == 3 && w[0] == 0x25 && DigitOf(w[1], c / 16) && DigitOf(w[2], c % 16))
  }

  predicate DigitOf(c: Byte, v: nat) {
    v < 16 && (c == UPPER[v] || c == LOWER[v])
  }

  function Joined(ws: seq<seq<Byte>>): seq<Byte> {
    if ws == [] then [] else ws[0] + Joined(ws[1..])
  }

  lemma OneIsDecoded(s: seq<Byte>, i: nat, w: seq<Byte>, c: Byte)
    requires i + |w| <= |s| && s[i..i + |w|] == w && Writes(w, c)
    ensures w != [] && Decoded(s, i) == [c] + Decoded(s, i + |w|)
  {
    hide Strtol, DigitOf, HexValue;
    assert s[i] == s[i..i + |w|][0];
    if |w| == 3 {
      assert s[i + 1] == s[i..i + 3][1] && s[i + 2] == s[i..i + 3][2];
      TwoDigits(w[1], w[2], c);
    }
  }

  lemma TwoDigits(a: Byte, b: Byte, c: Byte)
    requires DigitOf(a, c / 16) && DigitOf(b, c % 16)
    ensures Strtol(a, b) == c
  {
    hide DigitOf;
    DigitIs(a, c / 16);
    DigitIs(b, c % 16);
  }

  lemma DigitIs(c: Byte, v: nat)
    requires DigitOf(c, v)
    ensures IsHex(c) && HexValue(c) == v
  {
  }

  lemma {:induction false} DecodedFrom(done: seq<Byte>, ws: seq<seq<Byte>>, s: seq<Byte>)
    requires |ws| == |s| && forall i | 0 <= i < |s| :: Writes(ws[i], s[i])
    ensures Decoded(done + Joined(ws), |done|) == s
    decreases |s|
  {
    hide Decoded, Writes;
    var all := done + Joined(ws);
    if s == [] {
      NothingLeft(all);
    } else {
      ThreeParts(done, ws[0], Joined(ws[1..]));
      OneIsDecoded(all, |done|, ws[0], s[0]);
      DecodedFrom(done + ws[0], ws[1..], s[1..]);
      assert s == [s[0]] + s[1..];
    }
  }

  // However the bytes were written, decoding gives them back.
  lemma AnyWritingIsDecoded(ws: seq<seq<Byte>>, s: seq<Byte>)
    requires |ws| == |s| && forall i | 0 <= i < |s| :: Writes(ws[i], s[i])
    ensures Decoded(Joined(ws), 0) == s
  {
    hide Writes, Joined, Decoded;
    DecodedFrom([], ws, s);
    assert [] + Joined(ws) == Joined(ws);
  }

  const BLANKS: set<Byte> := {0x20, 0x09, 0x0A, 0x0B, 0x0C, 0x0D}

  // What a code is that is none: a digit counts by itself before anything else, or
  // behind a blank or a sign; the rest is zero.
  lemma OddCodes(a: Byte, b: Byte, v: nat)
    ensures DigitOf(a, v) && (forall u | 0 <= u < 16 :: !DigitOf(b, u)) ==> Strtol(a, b) == v
    ensures DigitOf(b, v) && (a in BLANKS || a == 0x2B) ==> Strtol(a, b) == v
    ensures DigitOf(b, v) && a == 0x2D ==> Strtol(a, b) + v == 0
    ensures (forall u | 0 <= u < 16 :: !DigitOf(a, u)) && a !in BLANKS && a != 0x2B && a != 0x2D ==> Strtol(a, b) == 0
    ensures (forall u | 0 <= u < 16 :: !DigitOf(a, u) && !DigitOf(b, u)) ==> Strtol(a, b) == 0
  {
    if DigitOf(a, v) { DigitIs(a, v); }
    if DigitOf(b, v) { DigitIs(b, v); }
    if IsHex(a) { SomeDigit(a); }
    if IsHex(b) { SomeDigit(b); }
  }

  lemma SomeDigit(c: Byte)
    requires IsHex(c)
    ensures exists u | 0 <= u < 16 :: DigitOf(c, u)
  {
    assert DigitOf(c, if c <= 0x39 then c - 0x30 else if c <= 0x46 then c - 0x37 else c - 0x57);
  }

  // A code cut off by the end is dropped with what is before it kept.
  lemma CutOffCode(s: seq<Byte>, i: nat)
    requires i < |s| <= i + 2 && s[i] == 0x25
    ensures Decoded(s, i) == []
  {
  }
}
