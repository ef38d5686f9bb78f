/** UTF-8 checking, as the parser does it for string fields, against the encoding it stands for. */
module Utf8 {
  import opened Wire

  predicate Tail(b: byte) { 0x80 <= b <= 0xBF }

  /** Length of the well-formed character at the front of s, or 0: Table 3-7 of The Unicode Standard. */
  function CharSize(s: bytes): (n: nat)
    requires s != []
    ensures n <= |s|
  {
    if s[0] <= 0x7F then 1
    else if 0xC2 <= s[0] <= 0xDF && |s| >= 2 && Tail(s[1]) then 2
    else if 0xE0 <= s[0] <= 0xEF && |s| >= 3 && Tail(s[1]) && Tail(s[2])
      && (s[0] == 0xE0 ==> s[1] >= 0xA0) && (s[0] == 0xED ==> s[1] <= 0x9F) then 3
    else if 0xF0 <= s[0] <= 0xF4 && |s| >= 4 && Tail(s[1]) && Tail(s[2]) && Tail(s[3])
      && (s[0] == 0xF0 ==> s[1] >= 0x90) && (s[0] == 0xF4 ==> s[1] <= 0x8F) then 4
    else 0
  }

  predicate ValidUtf8(s: bytes)
  {
    s == [] || (CharSize(s) > 0 && ValidUtf8(s[CharSize(s)..]))
  }

  /** A code point that is not a surrogate. */
  predicate IsScalar(c: nat) { c < 0xD800 || 0xE000 <= c < 0x11_0000 }

  /** The UTF-8 encoding of a scalar value. */
  function EncodeScalar(c: nat): (s: bytes)
    requires IsScalar(c)
    ensures 1 <= |s| <= 4
  {
    if c < 0x80 then [c]
    else if c < 0x800 then [0xC0 + c / 0x40, 0x80 + c % 0x40]
    else if c < 0x1_0000 then [0xE0 + c / 0x1000, 0x80 + c / 0x40 % 0x40, 0x80 + c % 0x40]
    else [0xF0 + c / 0x4_0000, 0x80 + c / 0x1000 % 0x40, 0x80 + c / 0x40 % 0x40, 0x80 + c % 0x40]
  }

  predicate AllScalars(cs: seq<nat>) { forall c | c in cs :: IsScalar(c) }

  function EncodeText(cs: seq<nat>): bytes
    requires AllScalars(cs)
  {
    if cs == [] then [] else EncodeScalar(cs[0]) + EncodeText(cs[1..])
  }

  /** The scalar value encoded at the front of s. */
  function FirstScalar(s: bytes): nat
    requires s != [] && CharSize(s) > 0
  {
    var a: int := s[0];
    if CharSize(s) == 1 then a
    else var b: int := s[1] - 0x80;
      if CharSize(s) == 2 then (a - 0xC0) * 0x40 + b
      else var c: int := s[2] - 0x80;
        if CharSize(s) == 3 then (a - 0xE0) * 0x1000 + b * 0x40 + c
        else var d: int := s[3] - 0x80; (a - 0xF0) * 0x4_0000 + b * 0x1000 + c * 0x40 + d
  }

  lemma {:induction false} CharSizeOfTwo(c: nat, rest: bytes)
    requires 0x80 <= c < 0x800
    ensures CharSize([0xC0 + c / 0x40, 0x80 + c % 0x40] + rest) == 2
  {
    assert 2 <= c / 0x40 < 0x20;
  }

  lemma {:induction false} CharSizeOfThree(c: nat, rest: bytes)
    requires 0x800 <= c < 0x1_0000 && IsScalar(c)
    ensures CharSize([0xE0 + c / 0x1000, 0x80 + c / 0x40 % 0x40, 0x80 + c % 0x40] + rest) == 3
  {
    var high, middle := c / 0x1000, c / 0x40 % 0x40;
    assert c / 0x40 == 0x40 * high + middle by { assert c / 0x40 / 0x40 == high; }
    assert high == 0 ==> middle >= 0x20;
    assert high == 0xD ==> middle < 0x20;
  }

  lemma {:induction false} CharSizeOfFour(c: nat, rest: bytes)
    requires 0x1_0000 <= c < 0x11_0000
    ensures CharSize([0xF0 + c / 0x4_0000, 0x80 + c / 0x1000 % 0x40, 0x80 + c / 0x40 % 0x40, 0x80 + c % 0x40]
                     + rest) == 4
  {
    var high, middle := c / 0x4_0000, c / 0x1000 % 0x40;
    assert c / 0x1000 == 0x40 * high + middle by { assert c / 0x1000 / 0x40 == high; }
    assert high == 0 ==> middle >= 0x10;
    assert high == 4 ==> middle < 0x10;
  }

  lemma {:induction false} CharSizeOfScalar(c: nat, rest: bytes)
    requires IsScalar(c)
    ensures CharSize(EncodeScalar(c) + rest) == |EncodeScalar(c)|
  {
    if c >= 0x80 {
      hide CharSize;
      if c < 0x800 {
        CharSizeOfTwo(c, rest);
      } else if c < 0x1_0000 {
        CharSizeOfThree(c, rest);
      } else {
        CharSizeOfFour(c, rest);
      }
    }
  }

  lemma {:induction false} EncodeTwo(s: bytes)
    requires s != [] && CharSize(s) == 2
    ensures IsScalar(FirstScalar(s)) && EncodeScalar(FirstScalar(s)) == s[..2]
  {
    var v := FirstScalar(s);
    SplitScalar(0, 0, s[0] - 0xC0, s[1] - 0x80);
    assert 0x80 <= v < 0x800;
  }

  lemma {:induction false} EncodeThree(s: bytes)
    requires s != [] && CharSize(s) == 3
    ensures IsScalar(FirstScalar(s)) && EncodeScalar(FirstScalar(s)) == s[..3]
  {
    var v := FirstScalar(s);
    SplitScalar(0, s[0] - 0xE0, s[1] - 0x80, s[2] - 0x80);
    assert 0x800 <= v < 0x1_0000 && IsScalar(v);
  }

  lemma {:induction false} EncodeFour(s: bytes)
    requires s != [] && CharSize(s) == 4
    ensures IsScalar(FirstScalar(s)) && EncodeScalar(FirstScalar(s)) == s[..4]
  {
    var v := FirstScalar(s);
    SplitScalar(s[0] - 0xF0, s[1] - 0x80, s[2] - 0x80, s[3] - 0x80);
    assert 0x1_0000 <= v < 0x11_0000;
  }

  lemma {:induction false} EncodeFirstScalar(s: bytes)
    requires s != [] && CharSize(s) > 0
    ensures IsScalar(FirstScalar(s)) && EncodeScalar(FirstScalar(s)) == s[..CharSize(s)]
  {
    if CharSize(s) > 1 {
      hide FirstScalar, EncodeScalar, IsScalar;
      if CharSize(s) == 2 {
        EncodeTwo(s);
      } else if CharSize(s) == 3 {
        EncodeThree(s);
      } else {
        EncodeFour(s);
      }
    }
  }

  /** A number in base 64 falls apart into its digits. */
  lemma {:induction false} SplitScalar(a: int, b: int, c: int, d: int)
    requires 0 <= a && 0 <= b < 0x40 && 0 <= c < 0x40 && 0 <= d < 0x40
    ensures var v := a * 0x4_0000 + b * 0x1000 + c * 0x40 + d;
            v / 0x4_0000 == a && v / 0x1000 % 0x40 == b && v / 0x40 % 0x40 == c && v % 0x40 == d
            && v / 0x40 == a * 0x1000 + b * 0x40 + c && v / 0x1000 == a * 0x40 + b
  {
    var v := a * 0x4_0000 + b * 0x1000 + c * 0x40 + d;
    assert v / 0x40 == a * 0x1000 + b * 0x40 + c;
    assert v / 0x1000 == a * 0x40 + b;
  }

  /** The check accepts exactly the encodings of sequences of scalar values. */
  lemma {:induction false} ValidUtf8IsEncodedText(s: bytes)
    ensures ValidUtf8(s) <==> exists cs :: AllScalars(cs) && EncodeText(cs) == s
  {
    if ValidUtf8(s) {
      var cs := Decoded(s);
    }
    forall cs | AllScalars(cs) && EncodeText(cs) == s ensures ValidUtf8(s) {
      EncodedIsValid(cs);
    }
  }

  lemma {:induction false} Decoded(s: bytes) returns (cs: seq<nat>)
    requires ValidUtf8(s)
    ensures AllScalars(cs) && EncodeText(cs) == s
  {
    hide CharSize, FirstScalar, EncodeScalar;
    if s == [] {
      cs := [];
    } else {
      var n := CharSize(s);
      var rest := Decoded(s[n..]);
      EncodeFirstScalar(s);
      cs := [FirstScalar(s)] + rest;
      assert cs[1..] == rest && s == s[..n] + s[n..];
    }
  }

  lemma {:induction false} EncodedIsValid(cs: seq<nat>)
    requires AllScalars(cs)
    ensures ValidUtf8(EncodeText(cs))
  {
    if cs != [] {
      var head, rest := EncodeScalar(cs[0]), EncodeText(cs[1..]);
      CharSizeOfScalar(cs[0], rest);
      EncodedIsValid(cs[1..]);
      assert (head + rest)[|head|..] == rest;
    }
  }
}
