/**
  UTF-8 as the handler relies on it: `String::from_utf8` accepts exactly the
  well-formed byte sequences of RFC 3629 section 4 (Table 3-7 of the Unicode
  Standard), and turning a `String` into bytes (`.into()`) yields its UTF-8
  encoding.
*/
module Utf8 {
  import Bytes

  predicate IsContinuation(b: bv8)
  {
    0x80 <= b as int <= 0xBF
  }

  /** The range the second byte must fall in, given the lead byte of a 3- or 4-byte sequence. */
  predicate SecondByteOk(lead: bv8, b: bv8)
  {
    var l, v := lead as int, b as int;
    if l == 0xE0 then 0xA0 <= v <= 0xBF       // no overlong 3-byte forms
    else if l == 0xED then 0x80 <= v <= 0x9F  // no surrogates
    else if l == 0xF0 then 0x90 <= v <= 0xBF  // no overlong 4-byte forms
    else if l == 0xF4 then 0x80 <= v <= 0x8F  // nothing above U+10FFFF
    else IsContinuation(b)
  }

  /** Length of the well-formed sequence that starts `s`, or 0 when none does. */
  function LeadLength(s: seq<bv8>): (n: nat)
    ensures n <= |s| && n <= 4
    ensures n > 0 ==> |s| > 0
  {
    if |s| == 0 then 0
    else
      var b := s[0] as int;
      if b <= 0x7F then 1
      else if 0xC2 <= b <= 0xDF then
        (if |s| >= 2 && IsContinuation(s[1]) then 2 else 0)
      else if 0xE0 <= b <= 0xEF then
        (if |s| >= 3 && SecondByteOk(s[0], s[1]) && IsContinuation(s[2]) then 3 else 0)
      else if 0xF0 <= b <= 0xF4 then
        (if |s| >= 4 && SecondByteOk(s[0], s[1]) && IsContinuation(s[2]) && IsContinuation(s[3])
         then 4 else 0)
      else 0
  }

  /** `s` is a concatenation of well-formed sequences: what `String::from_utf8` accepts. */
  predicate IsValid(s: seq<bv8>)
    decreases |s|
  {
    s == [] || (LeadLength(s) > 0 && IsValid(s[LeadLength(s)..]))
  }

  /** A continuation byte carrying the low six bits of `x`. */
  function Trail(x: nat): (b: bv8)
    ensures IsContinuation(b)
  {
    Bytes.Of(0x80 + x % 0x40)
  }

  /** The UTF-8 encoding of one Unicode scalar value. */
  function EncodeScalar(c: char): (bytes: seq<bv8>)
    ensures 1 <= |bytes| <= 4
  {
    var v := c as int;
    if v < 0x80 then
      [Bytes.Of(v)]
    else if v < 0x800 then
      [Bytes.Of(0xC0 + v / 0x40), Trail(v)]
    else if v < 0x1_0000 then
      [Bytes.Of(0xE0 + v / 0x1000), Trail(v / 0x40), Trail(v)]
    else
      [Bytes.Of(0xF0 + v / 0x4_0000), Trail(v / 0x1000), Trail(v / 0x40), Trail(v)]
  }

  /** The bytes of a `String`. */
  function Encode(s: string): (bytes: seq<bv8>)
    ensures |s| <= |bytes| <= 4 * |s|
  {
    if s == [] then [] else EncodeScalar(s[0]) + Encode(s[1..])
  }

  /** The encoding of a scalar value is one well-formed sequence, whatever follows it. */
  lemma EncodeScalarLeads(c: char, rest: seq<bv8>)
    ensures LeadLength(EncodeScalar(c) + rest) == |EncodeScalar(c)|
  {
    var v := c as int;
    if 0x800 <= v < 0x1_0000 {
      ThreeByteLeads(c, rest);
    } else if 0x1_0000 <= v {
      FourByteLeads(c, rest);
    }
  }

  lemma ThreeByteLeads(c: char, rest: seq<bv8>)
    requires 0x800 <= c as int < 0x1_0000
    ensures LeadLength(EncodeScalar(c) + rest) == 3
  {
    var v := c as int;
    ThreeByteArithmetic(v);
    var s := EncodeScalar(c) + rest;
    assert s[0] as int == 0xE0 + v / 0x1000;
    assert s[1] as int == 0x80 + v / 0x40 % 0x40;
    assert IsContinuation(s[2]);
  }

  lemma FourByteLeads(c: char, rest: seq<bv8>)
    requires 0x1_0000 <= c as int
    ensures LeadLength(EncodeScalar(c) + rest) == 4
  {
    var v := c as int;
    FourByteArithmetic(v);
    var s := EncodeScalar(c) + rest;
    assert s[0] as int == 0xF0 + v / 0x4_0000;
    assert s[1] as int == 0x80 + v / 0x1000 % 0x40;
    assert IsContinuation(s[2]) && IsContinuation(s[3]);
  }

  /** The lead and second byte of a three-byte encoding avoid overlong forms and surrogates. */
  lemma ThreeByteArithmetic(v: int)
    requires 0x800 <= v < 0x1_0000 && !(0xD800 <= v < 0xE000)
    ensures v / 0x1000 < 0x10
    ensures v / 0x1000 == 0 ==> v / 0x40 % 0x40 >= 0x20
    ensures v / 0x1000 == 0xD ==> v / 0x40 % 0x40 < 0x20
  {
    var q := v / 0x40;
    assert v / 0x1000 == q / 0x40;
    assert 0x20 <= q < 0x400 && !(0x360 <= q < 0x380);
  }

  /** The lead and second byte of a four-byte encoding avoid overlong forms and values past U+10FFFF. */
  lemma FourByteArithmetic(v: int)
    requires 0x1_0000 <= v < 0x11_0000
    ensures v / 0x4_0000 <= 4
    ensures v / 0x4_0000 == 0 ==> v / 0x1000 % 0x40 >= 0x10
    ensures v / 0x4_0000 == 4 ==> v / 0x1000 % 0x40 < 0x10
  {
    var q := v / 0x1000;
    assert v / 0x4_0000 == q / 0x40;
    assert 0x10 <= q < 0x110;
  }

  /** Every string's encoding is accepted by the UTF-8 check. */
  lemma {:induction false} EncodeIsValid(s: string)
    ensures IsValid(Encode(s))
  {
    if s != [] {
      var e := EncodeScalar(s[0]);
      EncodeScalarLeads(s[0], Encode(s[1..]));
      assert (e + Encode(s[1..]))[|e|..] == Encode(s[1..]);
      EncodeIsValid(s[1..]);
    }
  }
}
