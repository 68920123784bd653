// UTF-8 (RFC 3629, section 3) as the engine reads and writes it: code points are
// appended to byte strings, read back at an index, and stepped over backwards.
module Utf8 {
  type Byte = b: nat | b < 256

  // A nonzero Unicode scalar value.
  predicate Scalar(c: nat) {
    0 < c <= 0x10FFFF && !(0xD800 <= c <= 0xDFFF)
  }

  predicate Scalars(s: seq<nat>) {
    forall i | 0 <= i < |s| :: Scalar(s[i])
  }

  // What append_char adds; surrogates and anything beyond Unicode add nothing.
  function Appended(code: nat): seq<Byte> {
    if code <= 0x7F then [code]
    else if code <= 0x7FF then [code / 64 + 192, code % 64 + 128]
    else if 0xD800 <= code <= 0xDFFF then []
    else if code <= 0xFFFF then [code / 4096 + 224, code / 64 % 64 + 128, code % 64 + 128]
    else if code <= 0x10FFFF then [code / 262144 + 240, code / 4096 % 64 + 128, code / 64 % 64 + 128, code % 64 + 128]
    else []
  }

  function Encode(s: seq<nat>): seq<Byte> {
    if s == [] then [] else Encode(s[..|s| - 1]) + Appended(s[|s| - 1])
  }

  // One byte, or zero at the end of the string and at a zero byte.
  function GetB(str: seq<Byte>, i: nat): (r: (Byte, nat))
    requires i <= |str|
    ensures i <= r.1 <= |str|
  {
    if i == |str| || str[i] == 0 then (0, i) else (str[i], i + 1)
  }

  // The code point at an index and the index after it.  The masks of the source,
  // 0x80, 0xe0, 0xf0, 0xf8 and 0x3f, are written as quotients and remainders.
  function Read(str: seq<Byte>, i: nat): (r: (nat, nat))
    requires i <= |str|
    ensures i <= r.1 <= |str|
  {
    var (b1, i1) := GetB(str, i);
    if b1 / 128 == 0 then (b1, i1)
    else if b1 / 32 == 6 then
      var (b2, i2) := GetB(str, i1);
      (b1 % 32 * 64 + b2 % 64, i2)
    else if b1 / 16 == 14 then
      var (b2, i2) := GetB(str, i1);
      var (b3, i3) := GetB(str, i2);
      (b1 % 16 * 4096 + b2 % 64 * 64 + b3 % 64, i3)
    else if b1 / 8 == 30 then
      var (b2, i2) := GetB(str, i1);
      var (b3, i3) := GetB(str, i2);
      var (b4, i4) := GetB(str, i3);
      (b1 % 8 * 262144 + b2 % 64 * 4096 + b3 % 64 * 64 + b4 % 64, i4)
    else (0xFFFD, i1)
  }

  predicate Continues(b: Byte) { b / 64 == 2 }

  // ------------------------------------------------------------------- round trips

  lemma AppendedShape(c: nat)
    requires Scalar(c)
    ensures var bs := Appended(c);
            && 1 <= |bs| <= 4 && !Continues(bs[0]) && bs[0] != 0
            && (forall i | 1 <= i < |bs| :: Continues(bs[i]))
            && (c < 128 <==> bs == [c])
            && (c >= 128 ==> forall i | 0 <= i < |bs| :: bs[i] >= 128)
  {
  }

  predicate Tail(b: Byte) { 0x80 <= b <= 0xBF }

  // The well-formed sequences of section 4 of RFC 3629.
  predicate WellFormed(bs: seq<Byte>) {
    || (|bs| == 1 && bs[0] <= 0x7F)
    || (|bs| == 2 && 0xC2 <= bs[0] <= 0xDF && Tail(bs[1]))
    || (|bs| == 3 && Tail(bs[1]) && Tail(bs[2]) &&
        ((bs[0] == 0xE0 && bs[1] >= 0xA0) || 0xE1 <= bs[0] <= 0xEC || (bs[0] == 0xED && bs[1] <= 0x9F) ||
         0xEE <= bs[0] <= 0xEF))
    || (|bs| == 4 && Tail(bs[1]) && Tail(bs[2]) && Tail(bs[3]) &&
        ((bs[0] == 0xF0 && bs[1] >= 0x90) || 0xF1 <= bs[0] <= 0xF3 || (bs[0] == 0xF4 && bs[1] <= 0x8F)))
  }

  function Above(b: Byte, base: int): int { b as int - base }

  // The bits a sequence carries.
  function Carried(bs: seq<Byte>): int
    requires 1 <= |bs| <= 4
  {
    if |bs| == 1 then bs[0] as int
    else if |bs| == 2 then Above(bs[0], 0xC0) * 0x40 + Above(bs[1], 0x80)
    else if |bs| == 3 then Above(bs[0], 0xE0) * 0x1000 + Above(bs[1], 0x80) * 0x40 + Above(bs[2], 0x80)
    else Above(bs[0], 0xF0) * 0x40000 + Above(bs[1], 0x80) * 0x1000 + Above(bs[2], 0x80) * 0x40 + Above(bs[3], 0x80)
  }

  // A scalar becomes the well-formed sequence that carries it; what is none, nothing.
  lemma AppendedIsUtf8(c: nat)
    ensures if c <= 0x10FFFF && !(0xD800 <= c <= 0xDFFF) then WellFormed(Appended(c)) && Carried(Appended(c)) == c
            else Appended(c) == []
  {
    FourParts(c);
    if 0x800 <= c <= 0xFFFF {
      assert c / 64 / 64 == c / 4096 && c / 64 % 64 == c / 64 - c / 4096 * 64;
    }
  }

  // Reading where a code point was appended gives it back, and stops right after it.
  lemma ReadAppended(str: seq<Byte>, i: nat, c: nat)
    requires Scalar(c) && i + |Appended(c)| <= |str| && str[i..i + |Appended(c)|] == Appended(c)
    ensures Read(str, i) == (c, i + |Appended(c)|)
  {
    var bs := Appended(c);
    assert str[i] == bs[0];
    if |bs| == 2 {
      assert str[i + 1] == bs[1];
      Read2(str, i, c);
    } else if |bs| == 3 {
      assert str[i + 1] == bs[1] && str[i + 2] == bs[2];
      Read3(str, i, c);
    } else if |bs| == 4 {
      assert str[i + 1] == bs[1] && str[i + 2] == bs[2] && str[i + 3] == bs[3];
      Read4(str, i, c);
    }
  }

  lemma Read2(str: seq<Byte>, i: nat, c: nat)
    requires 0x80 <= c <= 0x7FF && i + 2 <= |str| && str[i] == c / 64 + 192 && str[i + 1] == c % 64 + 128
    ensures Read(str, i) == (c, i + 2)
  {
  }

  lemma Read3(str: seq<Byte>, i: nat, c: nat)
    requires 0x800 <= c <= 0xFFFF && i + 3 <= |str|
    requires str[i] == c / 4096 + 224 && str[i + 1] == c / 64 % 64 + 128 && str[i + 2] == c % 64 + 128
    ensures Read(str, i) == (c, i + 3)
  {
    var x := c / 4096;
    assert (x + 224) / 16 == 14 && (x + 224) % 16 == x;
    assert c / 64 == x * 64 + c / 64 % 64;
  }

  lemma FourParts(c: nat)
    ensures c == c / 262144 * 262144 + c / 4096 % 64 * 4096 + c / 64 % 64 * 64 + c % 64
  {
    DivideTwice(c);
    DivideTwice(c / 64);
    assert c / 64 / 64 == c / 64 / 64 / 64 * 64 + c / 64 / 64 % 64;
  }

  lemma DivideTwice(c: nat)
    ensures c / 4096 == c / 64 / 64
    ensures c / 64 == c / 4096 * 64 + c / 64 % 64
    ensures c / 262144 == c / 4096 / 64
  {
  }

  lemma Read4(str: seq<Byte>, i: nat, c: nat)
    requires 0x10000 <= c <= 0x10FFFF && i + 4 <= |str|
    requires str[i] == c / 262144 + 240 && str[i + 1] == c / 4096 % 64 + 128
    requires str[i + 2] == c / 64 % 64 + 128 && str[i + 3] == c % 64 + 128
    ensures Read(str, i) == (c, i + 4)
  {
    FourParts(c);
    FirstOfFour(c / 262144);
    Following(c / 4096 % 64);
    Following(c / 64 % 64);
    Following(c % 64);
    ReadFour(str, i);
  }

  lemma FirstOfFour(x: nat)
    requires x < 8
    ensures (x + 240) / 8 == 30 && (x + 240) % 8 == x
  {
  }

  lemma Following(x: nat)
    requires x < 64
    ensures (x + 128) % 64 == x
  {
  }

  lemma ReadFour(str: seq<Byte>, i: nat)
    requires i + 4 <= |str| && str[i] / 8 == 30 && str[i + 1] > 0 && str[i + 2] > 0 && str[i + 3] > 0
    ensures var b1: nat, b2: nat, b3: nat, b4: nat := str[i], str[i + 1], str[i + 2], str[i + 3];
            Read(str, i) == (b1 % 8 * 262144 + b2 % 64 * 4096 + b3 % 64 * 64 + b4 % 64, i + 4)
  {
  }

  lemma ReadAtEnd(str: seq<Byte>)
    ensures Read(str, |str|) == (0, |str|)
  {
  }

  lemma {:induction false} EncodeConcat(a: seq<nat>, b: seq<nat>)
    ensures Encode(a + b) == Encode(a) + Encode(b)
  {
    hide Appended;
    if b == [] {
      assert a + b == a;
    } else {
      var n := |b| - 1;
      EncodeConcat(a, b[..n]);
      assert (a + b)[..|a| + n] == a + b[..n];
      assert Encode(a + b) == Encode(a + b[..n]) + Appended(b[n]);
    }
  }

  lemma EncodeNothing()
    ensures Encode([]) == []
  {
  }

  lemma EncodeOne(c: nat)
    ensures Encode([c]) == Appended(c)
  {
    assert [c][..0] == [];
  }

  // The first code point of an encoding, and the rest.
  lemma EncodeStep(s: seq<nat>)
    requires s != []
    ensures Encode(s) == Appended(s[0]) + Encode(s[1..])
  {
    EncodeConcat([s[0]], s[1..]);
    EncodeOne(s[0]);
    assert s == [s[0]] + s[1..];
  }

  // Two lists of scalars with the same bytes are the same list.
  lemma {:induction false} EncodeInjective(a: seq<nat>, b: seq<nat>)
    requires Scalars(a) && Scalars(b) && Encode(a) == Encode(b)
    ensures a == b
  {
    hide Appended, Read;
    if a == [] || b == [] {
      if a != [] { EncodeStep(a); AppendedShape(a[0]); }
      if b != [] { EncodeStep(b); AppendedShape(b[0]); }
    } else {
      EncodeStep(a);
      EncodeStep(b);
      var str := Encode(a);
      assert str[0..|Appended(a[0])|] == Appended(a[0]) && str[0..|Appended(b[0])|] == Appended(b[0]);
      ReadAppended(str, 0, a[0]);
      ReadAppended(str, 0, b[0]);
      assert Encode(a[1..]) == str[|Appended(a[0])|..] == Encode(b[1..]);
      EncodeInjective(a[1..], b[1..]);
      assert a == [a[0]] + a[1..] && b == [b[0]] + b[1..];
    }
  }

  // --------------------------------------------------------------------- the loops

  // Steps back over continuation bytes to the start of the code point before.
  method PrevUtf8Char(str: seq<Byte>, index: nat, ghost before: seq<nat>, ghost c: nat) returns (r: nat)
    requires Scalars(before) && Scalar(c) && index <= |str| && str[..index] == Encode(before) + Appended(c)
    ensures r == |Encode(before)|
  {
    AppendedShape(c);
    ghost var start := |Encode(before)|;
    r := index;
    assert index == start + |Appended(c)|;
    while true
      invariant start < r <= index
      decreases r
    {
      r := r - 1;
      assert str[r] == str[..index][r] == Appended(c)[r - start];
      if r == 0 || str[r] / 64 != 2 { break; }
    }
  }

  method Utf8ToUtf32(val: seq<Byte>, ghost s: seq<nat>) returns (r: seq<nat>)
    requires Scalars(s) && val == Encode(s)
    ensures r == s
  {
    hide Encode, Appended, Read;
    EncodeNothing();
    r := [];
    var index := 0;
    ghost var k := 0;
    while true
      invariant k <= |s| && r == s[..k] && index <= |val| && val[index..] == Encode(s[k..])
      decreases |s| - k
    {
      if k < |s| {
        ReadNext(val, index, s[k..]);
        assert s[k..][0] == s[k] && s[k..][1..] == s[k + 1..];
      } else {
        assert s[k..] == [] && index == |val|;
        ReadAtEnd(val);
      }
      var (ch, next) := Read(val, index);
      index := next;
      assert k < |s| ==> Scalar(s[k]);
      if ch == 0 { break; }
      r := r + [ch];
      k := k + 1;
    }
    assert k == |s|;
  }

  lemma ReadNext(str: seq<Byte>, i: nat, rest: seq<nat>)
    requires i <= |str| && rest != [] && Scalars(rest) && str[i..] == Encode(rest)
    ensures Read(str, i) == (rest[0], i + |Appended(rest[0])|)
    ensures str[i + |Appended(rest[0])|..] == Encode(rest[1..])
  {
    hide Appended, Read;
    EncodeStep(rest);
    var n := |Appended(rest[0])|;
    assert |str[i..]| >= n;
    assert str[i..i + n] == str[i..][..n] == Appended(rest[0]);
    ReadAppended(str, i, rest[0]);
    assert str[i + n..] == str[i..][n..];
  }

  method Utf32ToUtf8(val: seq<nat>) returns (r: seq<Byte>)
    ensures r == Encode(val)
  {
    r := [];
    for i := 0 to |val|
      invariant r == Encode(val[..i])
    {
      assert val[..i + 1][..i] == val[..i];
      r := r + Appended(val[i]);
    }
    assert val[..|val|] == val;
  }
}
