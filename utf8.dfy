/** UTF-8 at the level the string type uses it: the leading-byte classifier,
    the scalar-to-bytes encoder (bit packing of RFC 3629, section 3) and a
    reference decoder that reassembles the payload bits. */
module Utf8 {

  /** One unit of the byte buffer (uint8_t). */
  type Byte = b: int | 0 <= b < 256

  /** A uint32_t argument. */
  type Uint32 = x: int | 0 <= x < 0x1_0000_0000

  /** The largest value the encoder accepts. */
  const MaxCodePoint: nat := 0x10FFFF

  /** A continuation byte, 10xxxxxx. */
  predicate IsContinuation(b: Byte) {
    0x80 <= b < 0xC0
  }

  /** get_codepoint_length: the length announced by a leading byte; 0 means
      "not a leading byte". Each test compares the top bits of the byte with
      a marker, as the source's masks 0x80, 0xE0, 0xF0 and 0xF8 do
      (MaskTests shows the two agree). */
  function CodepointLength(first: Byte): (n: nat)
    ensures n <= 4
    ensures n == 1 <==> first < 0x80
    ensures n == 2 <==> 0xC0 <= first < 0xE0
    ensures n == 3 <==> 0xE0 <= first < 0xF0
    ensures n == 4 <==> 0xF0 <= first < 0xF8
    ensures n == 0 <==> IsContinuation(first) || 0xF8 <= first
  {
    if first / 128 == 0 then 1
    else if first / 32 == 0x6 then 2
    else if first / 16 == 0xE then 3
    else if first / 8 == 0x1E then 4
    else 0
  }

  /** The top-bits tests above are the source's `(b & mask) == marker`. */
  lemma MaskTests(first: Byte)
    ensures var b := first as bv8;
      (b & 0x80 == 0x00 <==> first / 128 == 0)
      && (b & 0xE0 == 0xC0 <==> first / 32 == 0x6)
      && (b & 0xF0 == 0xE0 <==> first / 16 == 0xE)
      && (b & 0xF8 == 0xF0 <==> first / 8 == 0x1E)
  {
  }

  /** Reference decoder: the payload bits of a leading byte and its
      continuation bytes, most significant first. */
  function Decode(bytes: seq<Byte>): nat
    requires 1 <= |bytes| <= 4
  {
    var b0, n := bytes[0] as int, |bytes|;
    if n == 1 then b0
    else if n == 2 then (b0 % 32) * 64 + (bytes[1] as int) % 64
    else if n == 3 then (b0 % 16) * 4096 + (bytes[1] as int % 64) * 64 + (bytes[2] as int) % 64
    else (b0 % 8) * 262144 + (bytes[1] as int % 64) * 4096 + (bytes[2] as int % 64) * 64 + (bytes[3] as int) % 64
  }

  /** The bytes push_back(uint32_t) emits for an accepted code point. The
      shifts and masks of the source are written as division and remainder
      by powers of two; the leading byte's prefix and the payload never
      overlap, so the source's `|` is an addition here. */
  function Encode(cp: nat): (bytes: seq<Byte>)
    requires cp <= MaxCodePoint
    ensures |bytes| == (if cp <= 0x7F then 1 else if cp <= 0x7FF then 2 else if cp <= 0xFFFF then 3 else 4)
  {
    if cp <= 0x7F then
      [cp]
    else if cp <= 0x7FF then
      [0xC0 + cp / 64, 0x80 + cp % 64]
    else if cp <= 0xFFFF then
      [0xE0 + cp / 4096, 0x80 + cp / 64 % 64, 0x80 + cp % 64]
    else
      [0xF0 + cp / 262144, 0x80 + cp / 4096 % 64, 0x80 + cp / 64 % 64, 0x80 + cp % 64]
  }

  /** The encoding is well formed and decodes back: the leading byte
      announces the number of bytes emitted, every later byte is a
      continuation byte, and reassembling the payload bits gives cp. */
  lemma EncodeRoundTrip(cp: nat)
    requires cp <= MaxCodePoint
    ensures var bytes := Encode(cp);
      CodepointLength(bytes[0]) == |bytes|
      && (forall k :: 1 <= k < |bytes| ==> IsContinuation(bytes[k]))
      && Decode(bytes) == cp
  {
    if cp <= 0x7F {
    } else if cp <= 0x7FF {
      Split2(cp);
    } else if cp <= 0xFFFF {
      Split3(cp);
    } else {
      Split4(cp);
    }
  }

  /** The digit arithmetic behind Encode's round trip, one lemma per form. */
  lemma Split2(cp: nat)
    requires 0x80 <= cp <= 0x7FF
    ensures 0xC0 + cp / 64 < 0xE0
    ensures ((0xC0 + cp / 64) % 32) * 64 + (0x80 + cp % 64) % 64 == cp
  {
    var q, r := cp / 64, cp % 64;
    assert cp == q * 64 + r;
    assert (0xC0 + q) % 32 == q;
    assert (0x80 + r) % 64 == r;
  }

  lemma Split3(cp: nat)
    requires 0x800 <= cp <= 0xFFFF
    ensures 0xE0 + cp / 4096 < 0xF0
    ensures ((0xE0 + cp / 4096) % 16) * 4096 + ((0x80 + cp / 64 % 64) % 64) * 64 + (0x80 + cp % 64) % 64 == cp
  {
    var a, m := cp / 4096, cp % 4096;
    assert cp == a * 4096 + m;
    var b, c := m / 64, m % 64;
    assert m == b * 64 + c;
    assert cp / 64 == a * 64 + b;
    assert cp / 64 % 64 == b;
    assert cp % 64 == c;
    assert (0xE0 + a) % 16 == a;
  }

  lemma Split4(cp: nat)
    requires 0x10000 <= cp <= MaxCodePoint
    ensures 0xF0 + cp / 262144 < 0xF8
    ensures ((0xF0 + cp / 262144) % 8) * 262144 + ((0x80 + cp / 4096 % 64) % 64) * 4096
            + ((0x80 + cp / 64 % 64) % 64) * 64 + (0x80 + cp % 64) % 64 == cp
  {
    var a, m := cp / 262144, cp % 262144;
    var b, m2 := m / 4096, m % 4096;
    var c, d := m2 / 64, m2 % 64;
    assert a <= 4;
    DivMod64(cp / 4096, a, b);
    DivMod64(cp / 64, a * 64 + b, c);
    DivMod64(0x80 + b, 2, b);
    DivMod64(0x80 + c, 2, c);
    DivMod64(0x80 + d, 2, d);
  }

  /** Quotient and remainder by 64 are determined by the decomposition. */
  lemma DivMod64(x: nat, q: nat, r: nat)
    requires x == q * 64 + r && r < 64
    ensures x / 64 == q && x % 64 == r
  {
  }

  /** Two accepted code points with the same encoding are equal. */
  lemma EncodeInjective(a: nat, b: nat)
    requires a <= MaxCodePoint && b <= MaxCodePoint
    requires Encode(a) == Encode(b)
    ensures a == b
  {
    EncodeRoundTrip(a);
    EncodeRoundTrip(b);
  }

  /** Every element is a code point the encoder accepts. */
  predicate AllScalars(cps: seq<nat>) {
    forall i :: 0 <= i < |cps| ==> cps[i] <= MaxCodePoint
  }

  /** The bytes of a sequence of code points pushed one after the other. */
  function EncodeAll(cps: seq<nat>): (bytes: seq<Byte>)
    requires AllScalars(cps)
    ensures |bytes| >= |cps|
  {
    if cps == [] then [] else Encode(cps[0]) + EncodeAll(cps[1..])
  }

  lemma {:induction false} EncodeAllAppend(a: seq<nat>, b: seq<nat>)
    requires AllScalars(a) && AllScalars(b)
    ensures AllScalars(a + b)
    ensures EncodeAll(a + b) == EncodeAll(a) + EncodeAll(b)
  {
    if a == [] {
      assert a + b == b;
    } else {
      var t := a[1..] + b;
      assert (a + b)[0] == a[0] && (a + b)[1..] == t;
      EncodeAllAppend(a[1..], b);
      Assoc(Encode(a[0]), EncodeAll(a[1..]), EncodeAll(b));
    }
  }

  lemma Assoc<T>(a: seq<T>, b: seq<T>, c: seq<T>)
    ensures (a + b) + c == a + (b + c)
  {
  }

  /** Encoding one more code point appends its bytes. */
  lemma EncodeAllSnoc(cps: seq<nat>, cp: nat)
    requires AllScalars(cps) && cp <= MaxCodePoint
    ensures AllScalars(cps + [cp])
    ensures EncodeAll(cps + [cp]) == EncodeAll(cps) + Encode(cp)
  {
    assert EncodeAll([cp]) == Encode(cp) + EncodeAll([]);
    EncodeAllAppend(cps, [cp]);
  }

  lemma EncodeAllSplit(cps: seq<nat>, k: nat)
    requires AllScalars(cps) && k <= |cps|
    ensures AllScalars(cps[..k]) && AllScalars(cps[k..])
    ensures EncodeAll(cps) == EncodeAll(cps[..k]) + EncodeAll(cps[k..])
  {
    assert cps == cps[..k] + cps[k..];
    EncodeAllAppend(cps[..k], cps[k..]);
  }

  /** Bytes below 0x80 encode as themselves. */
  predicate IsAscii(bytes: seq<Byte>) {
    forall i :: 0 <= i < |bytes| ==> bytes[i] < 0x80
  }

  lemma {:induction false} EncodeAllAscii(bytes: seq<Byte>)
    requires IsAscii(bytes)
    ensures AllScalars(bytes)
    ensures EncodeAll(bytes) == bytes
  {
    if bytes != [] {
      EncodeAllAscii(bytes[1..]);
    }
  }

  /** No element is 0: no NUL byte, or no U+0000 code point. */
  predicate NoNul(c: seq<int>) {
    forall k :: 0 <= k < |c| ==> c[k] != 0
  }

  /** The encoding holds no zero byte except for the code point 0 itself. */
  lemma {:induction false} EncodeAllNoNul(cps: seq<nat>)
    requires AllScalars(cps) && NoNul(cps)
    ensures NoNul(EncodeAll(cps))
  {
    if cps != [] {
      EncodeAllNoNul(cps[1..]);
      var e := Encode(cps[0]);
      assert EncodeAll(cps) == e + EncodeAll(cps[1..]);
      EncodeRoundTrip(cps[0]);
      assert e[0] != 0;
    }
  }
}
