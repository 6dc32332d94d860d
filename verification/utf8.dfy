/**
 * Strict UTF-8, as `bytes.decode()` applies it: a byte sequence decodes only
 * when it is a concatenation of well-formed sequences in the sense of Table 3-7
 * of the Unicode Standard (section 3.9), which also rules out overlong forms,
 * encoded surrogates and code points above U+10FFFF. Anything else raises
 * `UnicodeDecodeError`, modelled here as `None`.
 */
module Utf8 {
  import opened Wrappers

  type Byte = x: int | 0 <= x < 256

  /** A continuation byte, 10xxxxxx. */
  predicate IsContinuation(b: Byte) {
    0x80 <= b <= 0xBF
  }

  /** How many bytes the sequence led by `b0` takes, or 0 when no well-formed
      sequence starts with `b0` (0x80-0xC1 and 0xF5-0xFF). */
  function LeadLength(b0: Byte): nat {
    if b0 < 0x80 then 1
    else if 0xC2 <= b0 <= 0xDF then 2
    else if 0xE0 <= b0 <= 0xEF then 3
    else if 0xF0 <= b0 <= 0xF4 then 4
    else 0
  }

  /** The range Table 3-7 allows for the second byte after lead byte `b0`. */
  predicate SecondInRange(b0: Byte, b1: Byte) {
    if b0 == 0xE0 then 0xA0 <= b1 <= 0xBF
    else if b0 == 0xED then 0x80 <= b1 <= 0x9F
    else if b0 == 0xF0 then 0x90 <= b1 <= 0xBF
    else if b0 == 0xF4 then 0x80 <= b1 <= 0x8F
    else IsContinuation(b1)
  }

  /** `b` begins with one well-formed sequence. */
  predicate StartsWellFormed(b: seq<Byte>) {
    && |b| > 0
    && LeadLength(b[0]) > 0
    && LeadLength(b[0]) <= |b|
    && (LeadLength(b[0]) >= 2 ==> SecondInRange(b[0], b[1]))
    && (LeadLength(b[0]) >= 3 ==> IsContinuation(b[2]))
    && (LeadLength(b[0]) >= 4 ==> IsContinuation(b[3]))
  }

  /** A Unicode scalar value: a code point that is not a surrogate. */
  predicate IsScalar(cp: int) {
    (0 <= cp < 0xD800) || (0xE000 <= cp < 0x11_0000)
  }

  /** The code point of the well-formed sequence `b` begins with. */
  function CodePoint(b: seq<Byte>): (cp: int)
    requires StartsWellFormed(b)
    ensures IsScalar(cp)
    ensures LeadLength(b[0]) == 1 ==> cp < 0x80
    ensures LeadLength(b[0]) == 2 ==> 0x80 <= cp < 0x800
    ensures LeadLength(b[0]) == 3 ==> 0x800 <= cp < 0x1_0000
    ensures LeadLength(b[0]) == 4 ==> 0x1_0000 <= cp
  {
    var n := LeadLength(b[0]);
    if n == 1 then b[0]
    else if n == 2 then Join2(b[0] as int - 0xC0, b[1] as int - 0x80)
    else if n == 3 then Join3(b[0] as int - 0xE0, b[1] as int - 0x80, b[2] as int - 0x80)
    else Join4(b[0] as int - 0xF0, b[1] as int - 0x80, b[2] as int - 0x80, b[3] as int - 0x80)
  }

  /** The code point with the payload bits `x`, `y` (and `z`, `w`), six bits per
      continuation byte. */
  function Join2(x: int, y: int): int { x * 0x40 + y }
  function Join3(x: int, y: int, z: int): int { x * 0x1000 + y * 0x40 + z }
  function Join4(x: int, y: int, z: int, w: int): int { x * 0x4_0000 + y * 0x1000 + z * 0x40 + w }

  /** `bytes.decode()`: the characters of a well-formed byte sequence, or `None`
      where Python raises `UnicodeDecodeError`. */
  function Decode(b: seq<Byte>): Option<string>
    decreases |b|
  {
    if b == [] then Some([])
    else if !StartsWellFormed(b) then None
    else
      match Decode(b[LeadLength(b[0])..])
      case Some(rest) => Some([CodePoint(b) as char] + rest)
      case None => None
  }

  /** The UTF-8 form of one character. */
  function EncodeChar(c: char): (r: seq<Byte>)
    ensures 1 <= |r| <= 4
  {
    var cp := c as int;
    if cp < 0x80 then [cp]
    else if cp < 0x800 then [0xC0 + cp / 0x40, 0x80 + cp % 0x40]
    else if cp < 0x1_0000 then [0xE0 + cp / 0x1000, 0x80 + (cp / 0x40) % 0x40, 0x80 + cp % 0x40]
    else [0xF0 + cp / 0x4_0000, 0x80 + (cp / 0x1000) % 0x40, 0x80 + (cp / 0x40) % 0x40, 0x80 + cp % 0x40]
  }

  /** The UTF-8 form of a string, as `str.encode()` gives it. */
  function Encode(s: string): seq<Byte>
    decreases |s|
  {
    if s == [] then [] else EncodeChar(s[0]) + Encode(s[1..])
  }

  /** The encoding of a character is one well-formed sequence, whatever follows
      it, and it decodes back to that character. */
  lemma EncodeCharWellFormed(c: char, rest: seq<Byte>)
    ensures StartsWellFormed(EncodeChar(c) + rest)
    ensures LeadLength((EncodeChar(c) + rest)[0]) == |EncodeChar(c)|
    ensures CodePoint(EncodeChar(c) + rest) == c as int
  {
    var cp := c as int;
    var e := EncodeChar(c);
    var b := e + rest;
    assert forall k :: 0 <= k < |e| ==> b[k] == e[k];
    if cp < 0x80 {
    } else if cp < 0x800 {
      WellFormedTwo(cp, b);
    } else if cp < 0x1_0000 {
      WellFormedThree(cp, b);
    } else {
      WellFormedFour(cp, b);
    }
  }

  lemma WellFormedTwo(cp: int, b: seq<Byte>)
    requires 0x80 <= cp < 0x800 && |b| >= 2
    requires b[0] == 0xC0 + cp / 0x40 && b[1] == 0x80 + cp % 0x40
    ensures StartsWellFormed(b) && LeadLength(b[0]) == 2 && CodePoint(b) == cp
  {
  }

  lemma WellFormedThree(cp: int, b: seq<Byte>)
    requires 0x800 <= cp < 0x1_0000 && IsScalar(cp) && |b| >= 3
    requires b[0] == 0xE0 + cp / 0x1000 && b[1] == 0x80 + (cp / 0x40) % 0x40 && b[2] == 0x80 + cp % 0x40
    ensures StartsWellFormed(b) && LeadLength(b[0]) == 3 && CodePoint(b) == cp
  {
    var q := cp / 0x40;
    assert cp == q * 0x40 + cp % 0x40;
    assert q == (q / 0x40) * 0x40 + q % 0x40;
    assert cp / 0x1000 == q / 0x40;
  }

  lemma WellFormedFour(cp: int, b: seq<Byte>)
    requires 0x1_0000 <= cp < 0x11_0000 && |b| >= 4
    requires b[0] == 0xF0 + cp / 0x4_0000 && b[1] == 0x80 + (cp / 0x1000) % 0x40
    requires b[2] == 0x80 + (cp / 0x40) % 0x40 && b[3] == 0x80 + cp % 0x40
    ensures StartsWellFormed(b) && LeadLength(b[0]) == 4 && CodePoint(b) == cp
  {
    var q := cp / 0x40;
    var r := q / 0x40;
    assert cp == q * 0x40 + cp % 0x40;
    assert q == r * 0x40 + q % 0x40;
    assert r == (r / 0x40) * 0x40 + r % 0x40;
    assert cp / 0x1000 == r;
    assert cp / 0x4_0000 == r / 0x40;
  }

  /** Decoding undoes encoding: every string round-trips. */
  lemma {:induction false} DecodeEncode(s: string)
    ensures Decode(Encode(s)) == Some(s)
    decreases |s|
  {
    if s != [] {
      var e := EncodeChar(s[0]);
      var rest := Encode(s[1..]);
      EncodeCharWellFormed(s[0], rest);
      assert (e + rest)[|e|..] == rest;
      DecodeEncode(s[1..]);
      assert [s[0]] + s[1..] == s;
    }
  }

  /** Re-encoding the character a well-formed sequence decodes to gives back
      exactly that sequence: there is only one way to write each character. */
  lemma EncodeCodePoint(b: seq<Byte>)
    requires StartsWellFormed(b)
    ensures EncodeChar(CodePoint(b) as char) == b[..LeadLength(b[0])]
  {
    var n := LeadLength(b[0]);
    if n == 1 {
      assert b[..1] == [b[0]];
    } else if n == 2 {
      EncodeTwo(b);
    } else if n == 3 {
      EncodeThree(b);
    } else {
      EncodeFour(b);
    }
  }

  /** Dividing by a power of two splits off the low six-bit group. */
  lemma SplitLow(hi: int, lo: int)
    requires 0 <= lo < 0x40
    ensures (hi * 0x40 + lo) / 0x40 == hi && (hi * 0x40 + lo) % 0x40 == lo
  {
  }

  lemma EncodeTwo(b: seq<Byte>)
    requires StartsWellFormed(b) && LeadLength(b[0]) == 2
    ensures EncodeChar(CodePoint(b) as char) == b[..2]
  {
    var x, y := b[0] as int - 0xC0, b[1] as int - 0x80;
    SplitLow(x, y);
    assert b[..2] == [b[0], b[1]];
  }

  lemma EncodeThree(b: seq<Byte>)
    requires StartsWellFormed(b) && LeadLength(b[0]) == 3
    ensures EncodeChar(CodePoint(b) as char) == b[..3]
  {
    var x, y, z := b[0] as int - 0xE0, b[1] as int - 0x80, b[2] as int - 0x80;
    var cp := CodePoint(b);
    assert cp == (x * 0x40 + y) * 0x40 + z;
    SplitLow(x * 0x40 + y, z);
    SplitLow(x, y);
    assert cp / 0x1000 == (cp / 0x40) / 0x40;
    assert b[..3] == [b[0], b[1], b[2]];
  }

  lemma EncodeFour(b: seq<Byte>)
    requires StartsWellFormed(b) && LeadLength(b[0]) == 4
    ensures EncodeChar(CodePoint(b) as char) == b[..4]
  {
    var x, y, z, w := b[0] as int - 0xF0, b[1] as int - 0x80, b[2] as int - 0x80, b[3] as int - 0x80;
    var cp := CodePoint(b);
    assert cp == ((x * 0x40 + y) * 0x40 + z) * 0x40 + w;
    SplitLow((x * 0x40 + y) * 0x40 + z, w);
    SplitLow(x * 0x40 + y, z);
    SplitLow(x, y);
    assert cp / 0x1000 == (cp / 0x40) / 0x40;
    assert cp / 0x4_0000 == ((cp / 0x40) / 0x40) / 0x40;
    assert b[..4] == [b[0], b[1], b[2], b[3]];
  }

  lemma DecodeCons(b: seq<Byte>)
    requires StartsWellFormed(b) && Decode(b[LeadLength(b[0])..]).Some?
    ensures Decode(b) == Some([CodePoint(b) as char] + Decode(b[LeadLength(b[0])..]).value)
  {
  }

  lemma EncodeCons(c: char, t: string)
    ensures Encode([c] + t) == EncodeChar(c) + Encode(t)
  {
    assert ([c] + t)[0] == c && ([c] + t)[1..] == t;
  }

  /** Encoding undoes decoding: a byte sequence that decodes is the encoding of
      what it decodes to. */
  lemma {:induction false} EncodeDecode(b: seq<Byte>)
    requires Decode(b).Some?
    ensures Encode(Decode(b).value) == b
    decreases |b|
  {
    if b != [] {
      assert StartsWellFormed(b);
      var n := LeadLength(b[0]);
      var rest := b[n..];
      assert Decode(rest).Some?;
      var tail := Decode(rest).value;
      var c := CodePoint(b) as char;
      DecodeCons(b);
      EncodeDecode(rest);
      EncodeCodePoint(b);
      EncodeCons(c, tail);
      calc {
        Encode(Decode(b).value);
        Encode([c] + tail);
        EncodeChar(c) + Encode(tail);
        b[..n] + rest;
        { assert b[..n] + b[n..] == b; }
        b;
      }
    }
  }

  /** Bytes below 128 decode one to one, each to the character with its code. */
  lemma {:induction false} DecodeAscii(b: seq<Byte>)
    requires forall i :: 0 <= i < |b| ==> b[i] < 0x80
    ensures Decode(b).Some?
    ensures |Decode(b).value| == |b|
    ensures forall i :: 0 <= i < |b| ==> Decode(b).value[i] as int == b[i]
    decreases |b|
  {
    if b != [] {
      DecodeAscii(b[1..]);
      var t := Decode(b[1..]).value;
      assert Decode(b).value == [b[0] as char] + t;
      forall i | 1 <= i < |b|
        ensures Decode(b).value[i] as int == b[i]
      {
        assert b[1..][i - 1] == b[i];
      }
    }
  }

  /** Sequences Python refuses: a byte that never starts a character, an overlong
      form of `/`, an encoded surrogate, and a sequence cut short. */
  lemma Rejected()
    ensures Decode([0xFF]) == None
    ensures Decode([0xC0, 0xAF]) == None
    ensures Decode([0xED, 0xA0, 0x80]) == None
    ensures Decode([0x41, 0xE2, 0x82]) == None
  {
    assert [0x41, 0xE2, 0x82][1..] == [0xE2, 0x82];
  }
}
