/** What the members of utf_str::String do to strings built by the encoder
    (and to ASCII-only buffers): lengths, erase and subtr in terms of the
    code points themselves. */
module Properties {
  import opened Utf8
  import opened CpIndex
  import opened UtfStr

  /** An ASCII-only buffer is indexed one entry per byte. */
  lemma {:induction false} ScanAsciiFrom(d: seq<Byte>, i: nat)
    requires IsAscii(d) && i <= |d|
    ensures |ScanFrom(d, i)| == |d| - i
    ensures forall k :: 0 <= k < |d| - i ==> ScanFrom(d, i)[k] == i + k
    decreases |d| - i
  {
    if i < |d| {
      ScanAsciiFrom(d, i + 1);
      assert ScanFrom(d, i) == [i] + ScanFrom(d, i + 1);
    }
  }

  /** For ASCII-only content, size_byte() equals length(). */
  lemma AsciiSizeByteIsLength(s: String)
    requires s.Valid() && s.cpIndexData == Scan(s.data) && s.data != []
    requires IsAscii(s.data)
    ensures s.cpIndexData != [] && s.SizeByte() == s.Length()
  {
    ScanAsciiFrom(s.data, 0);
  }

  /** A string whose buffer the encoder built from cps has |cps| code points
      and as many content bytes as their encodings. */
  lemma EncodedLength(s: String, cps: seq<nat>)
    requires AllScalars(cps) && s.data == EncodeAll(cps) + [0] && s.cpIndexData == Scan(s.data)
    ensures s.cpIndexData != [] && s.Length() == |cps| && s.SizeByte() == |EncodeAll(cps)|
  {
    EncodedScan(cps);
  }

  /** When the last code point is cut short, its announced span covers the
      terminator: "a" then the leading byte 0xE0 is indexed [0, 1], with no
      entry for the terminator, so length() is 1 although two code points
      are indexed. */
  lemma TruncatedSwallowsTerminator()
    ensures Scan([0x61, 0xE0, 0]) == [0, 1]
  {
    var d: seq<Byte> := [0x61, 0xE0, 0];
    assert ScanFrom(d, 1) == [1] + ScanFrom(d, 4);
    assert ScanFrom(d, 0) == [0] + ScanFrom(d, 1);
  }

  /** Bytes inside a leading byte's announced span are never examined:
      0xE0 announces three bytes, so neither 'a' nor the terminator after
      it gets an entry, though both are accepted by the classifier. */
  lemma SpanHidesBytes()
    ensures Scan([0xE0, 0x61, 0]) == [0]
  {
    var d: seq<Byte> := [0xE0, 0x61, 0];
    assert ScanFrom(d, 0) == [0] + ScanFrom(d, 3);
  }

  /** For a valid string indexed by its scan, empty() holds exactly when the
      index is empty. */
  lemma EmptyIffNoIndex(s: String)
    requires s.Valid() && s.cpIndexData == Scan(s.data)
    ensures s.Empty() <==> s.cpIndexData == []
  {
    if s.data != [] {
      ScanNonEmpty(s.data, 0);
    }
  }

  /** c_str() of a string the encoder built from non-zero code points lets
      a C reader see exactly the encoding. */
  lemma CStrEncoded(s: String, cps: seq<nat>)
    requires AllScalars(cps) && NoNul(cps)
    requires s.data == EncodeAll(cps) + [0] && s.cpIndexData == Scan(s.data)
    ensures s.Valid() && s.CStr() == Some(0)
    ensures UntilNul(s.data[s.CStr().value..]) == EncodeAll(cps)
  {
    ScanWithin(s.data);
    EncodeAllNoNul(cps);
    ContentOfTerminated(EncodeAll(cps));
  }

  /** subtr on an encoder-built buffer returns exactly the encodings of the
      code points it selects, terminated. */
  lemma SubtrEncoded(cps: seq<nat>, a: nat, n: nat)
    requires AllScalars(cps) && a + n <= |cps|
    ensures AllScalars(cps[a..a + n])
    ensures var d := EncodeAll(cps) + [0];
      |Scan(d)| == |cps| + 1
      && CpSlice(d, Scan(d), a, n) == if n == 0 then [] else EncodeAll(cps[a..a + n]) + [0]
  {
    var d := EncodeAll(cps) + [0];
    var idx := Scan(d);
    EncodedSlice(cps, a, a + n);
    if n > 0 {
      assert CpSlice(d, idx, a, n) == d[idx[a]..idx[a + n]] + [0];
    }
  }

  /** The full-range subtr(0, length()) of an encoder-built buffer returns
      the same bytes. */
  lemma SubtrWholeEncoded(cps: seq<nat>)
    requires AllScalars(cps) && cps != []
    ensures var d := EncodeAll(cps) + [0];
      |Scan(d)| == |cps| + 1 && CpSlice(d, Scan(d), 0, |cps|) == d
  {
    SubtrEncoded(cps, 0, |cps|);
    assert cps[0..|cps|] == cps;
  }

  /** push_back(c) on an empty string, then operator[](0): the reference
      starts at byte 0, spans the whole encoding (at index 0, data[0] is
      the code point's own first byte), and its bytes decode back to c. */
  lemma PushBackThenAtZero(c: nat)
    requires c <= MaxCodePoint
    ensures var d := Content([]) + Encode(c) + [0]; var n := CodepointLength(d[0]);
      |Scan(d)| == 2 && Scan(d)[0] == 0 && 1 <= n <= 4 && n == |d| - 1
      && Decode(d[0..n]) == c
  {
    var e := Encode(c);
    var d := Content([]) + e + [0];
    assert d == EncodeAll([c]) + [0] by {
      assert EncodeAll([c]) == e + EncodeAll([]);
    }
    EncodedScan([c]);
    EncodeRoundTrip(c);
    assert d[0..|e|] == e;
  }

  /** front() and back() on an encoder-built buffer: front spans the
      encoding of the first code point; back starts at the last code point
      and its length, size_byte() minus that start, is that code point's
      encoding length. */
  lemma EncodedEnds(cps: seq<nat>)
    requires AllScalars(cps) && |cps| >= 1
    ensures var d := EncodeAll(cps) + [0]; var idx := Scan(d); var n := |cps|;
      |idx| == n + 1 && idx[0] == 0 && idx[1] == |Encode(cps[0])|
      && idx[n - 1] + |Encode(cps[n - 1])| == |d| - 1
  {
    EncodedFirst(cps);
    EncodedLast(cps);
  }

  /** The first entry is 0 and the second follows the first encoding. */
  lemma EncodedFirst(cps: seq<nat>)
    requires AllScalars(cps) && |cps| >= 1
    ensures var idx := Scan(EncodeAll(cps) + [0]);
      |idx| == |cps| + 1 && idx[0] == 0 && idx[1] == |Encode(cps[0])|
  {
    EncodedScan(cps);
    EncodedSlice(cps, 0, 1);
    assert cps[0..1] == [cps[0]];
    assert EncodeAll([cps[0]]) == Encode(cps[0]) + EncodeAll([]);
  }

  /** The last code point's encoding ends right before the terminator. */
  lemma EncodedLast(cps: seq<nat>)
    requires AllScalars(cps) && |cps| >= 1
    ensures var d := EncodeAll(cps) + [0]; var idx := Scan(d); var n := |cps|;
      |idx| == n + 1 && idx[n - 1] + |Encode(cps[n - 1])| == |d| - 1
  {
    var n := |cps|;
    EncodedScan(cps);
    EncodedSlice(cps, n - 1, n);
    assert cps[n - 1..n] == [cps[n - 1]];
    assert EncodeAll([cps[n - 1]]) == Encode(cps[n - 1]) + EncodeAll([]);
  }

  /** The bytes before entry a of an encoder-built buffer encode cps[..a];
      the bytes from entry b on encode cps[b..] and end in the terminator. */
  lemma EncodedCut(cps: seq<nat>, a: nat)
    requires AllScalars(cps) && a <= |cps|
    ensures AllScalars(cps[..a]) && AllScalars(cps[a..])
    ensures var d := EncodeAll(cps) + [0]; var idx := Scan(d);
      |idx| == |cps| + 1 && idx[a] == |EncodeAll(cps[..a])| < |d|
      && d[..idx[a]] == EncodeAll(cps[..a]) && d[idx[a]..] == EncodeAll(cps[a..]) + [0]
  {
    EncodedScan(cps);
    BoundaryAt(cps, 0, a);
    EncodeAllSplit(cps, a);
    var x, y := EncodeAll(cps[..a]), EncodeAll(cps[a..]);
    Assoc(x, y, [0]);
    assert (x + (y + [0]))[..|x|] == x;
    assert (x + (y + [0]))[|x|..] == y + [0];
  }

  /** erase(a, b) on an encoder-built buffer of fewer than 256 bytes, where
      the uint8_t casts change nothing: the code points from a up to (not
      including) b disappear, and length() drops by b - a. */
  lemma EraseEncoded(cps: seq<nat>, a: nat, b: nat)
    requires AllScalars(cps) && a <= b <= |cps| && |EncodeAll(cps)| < 256
    ensures AllScalars(cps[..a] + cps[b..])
    ensures var d := EncodeAll(cps) + [0]; var idx := Scan(d);
      |idx| == |cps| + 1 && idx[a] % 256 <= idx[b] % 256 <= |d|
      && EraseSpan(d, idx[a] % 256, idx[b] % 256) == EncodeAll(cps[..a] + cps[b..]) + [0]
      && |Scan(EncodeAll(cps[..a] + cps[b..]) + [0])| == |cps| - (b - a) + 1
  {
    var d := EncodeAll(cps) + [0];
    var idx := Scan(d);
    EncodedCut(cps, a);
    EncodedCut(cps, b);
    EncodedScan(cps);
    var x, y := idx[a], idx[b];
    if a < b {
      ScanIncreasing(d, a, b);
    }
    SmallMod(x);
    SmallMod(y);
    var l, r := EncodeAll(cps[..a]), EncodeAll(cps[b..]);
    assert EraseSpan(d, x, y) == l + (r + [0]);
    EncodeAllAppend(cps[..a], cps[b..]);
    Assoc(l, r, [0]);
    EncodedScan(cps[..a] + cps[b..]);
  }

  lemma SmallMod(x: nat)
    requires x < 256
    ensures x % 256 == x
  {
  }
}
