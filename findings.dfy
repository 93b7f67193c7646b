/** Two members of utf_str::String whose code does not do what their names
    and comments promise: each is shown as written, with an input that
    exhibits the difference, next to the evidently intended definition and
    the property it has. */
module Findings {
  import opened Utf8
  import opened CpIndex
  import opened UtfStr

  /* operator[] (src/unicode.cpp:176-178) classifies the length of the
     reference from data[cp_index], the byte at the code-point number used
     as a byte offset, instead of from data[cp_index_data[cp_index]], the
     first byte of the code point it points at. */

  /** As written: for the buffer of "éa" (0xC3 0xA9 'a'), the reference to
      code point 1 starts at byte 2 but gets the length of the continuation
      byte 0xA9, which is 0; the intended reference has length 1. */
  method AtMisreportsLength() returns (asWritten: Result<CodePointRef>, intended: Result<CodePointRef>)
    ensures asWritten == Ok(CodePointRef(2, 0))
    ensures intended == Ok(CodePointRef(2, 1))
  {
    var s := new String.FromCStr([0xC3, 0xA9, 0x61, 0]);
    assert UntilNul([0xC3, 0xA9, 0x61, 0]) == [0xC3, 0xA9, 0x61];
    assert s.data == [0xC3, 0xA9, 0x61, 0];
    ScanSmall();
    asWritten := s.At(1);
    intended := CodePointAt(s, 1);
  }

  lemma ScanSmall()
    ensures Scan([0xC3, 0xA9, 0x61, 0]) == [0, 2, 3]
  {
    var d: seq<Byte> := [0xC3, 0xA9, 0x61, 0];
    assert ScanFrom(d, 3) == [3] + ScanFrom(d, 4);
    assert ScanFrom(d, 2) == [2] + ScanFrom(d, 3);
    assert ScanFrom(d, 0) == [0] + ScanFrom(d, 2);
  }

  /** As written: for the buffer of "é😀a" (0xC3 0xA9, 0xF0 0x9F 0x98 0x80,
      'a'), the reference to code point 2 starts at byte 6 but gets the
      length 4 of the leading byte 0xF0 at byte 2, so it reaches past the
      end of the 8-byte buffer and to_vec of it would read out of bounds;
      the intended reference has length 1. */
  method AtOverruns() returns (asWritten: Result<CodePointRef>, intended: Result<CodePointRef>, size: nat)
    ensures asWritten == Ok(CodePointRef(6, 4)) && size == 8
    ensures asWritten.value.start + asWritten.value.length > size
    ensures intended == Ok(CodePointRef(6, 1))
  {
    var bytes: seq<Byte> := [0xC3, 0xA9, 0xF0, 0x9F, 0x98, 0x80, 0x61, 0];
    UntilNulAt(bytes, 7);
    assert bytes[..7] + [0] == bytes;
    var s := new String.FromCStr(bytes);
    ScanOverrun();
    asWritten := s.At(2);
    intended := CodePointAt(s, 2);
    size := |s.data|;
  }

  lemma ScanOverrun()
    ensures Scan([0xC3, 0xA9, 0xF0, 0x9F, 0x98, 0x80, 0x61, 0]) == [0, 2, 6, 7]
  {
    var d: seq<Byte> := [0xC3, 0xA9, 0xF0, 0x9F, 0x98, 0x80, 0x61, 0];
    assert ScanFrom(d, 7) == [7] + ScanFrom(d, 8);
    assert ScanFrom(d, 6) == [6] + ScanFrom(d, 7);
    assert ScanFrom(d, 2) == [2] + ScanFrom(d, 6);
    assert ScanFrom(d, 0) == [0] + ScanFrom(d, 2);
  }

  /** The evidently intended operator[]: the length is classified from the
      code point's own first byte, so the reference is non-empty and ends
      no later than where the next code point begins. */
  function CodePointAt(s: String, cpIndex: nat): (r: Result<CodePointRef>)
    reads s
    requires s.Valid() && s.cpIndexData != []
    ensures r.Err? <==> cpIndex >= s.Length()
    ensures r.Err? ==> r.error == OutOfRange
    ensures r.Ok? ==> r.value.start == s.cpIndexData[cpIndex]
    ensures r.Ok? ==> 0 < r.value.length && r.value.start + r.value.length <= s.cpIndexData[cpIndex + 1]
  {
    if cpIndex >= s.Length() then Err(OutOfRange)
    else
      var start := s.cpIndexData[cpIndex];
      SpanBeforeNext(s.data, cpIndex);
      Ok(CodePointRef(start, CodepointLength(s.data[start])))
  }

  /** The span an entry's leading byte announces ends before the next entry. */
  lemma SpanBeforeNext(d: seq<Byte>, k: nat)
    requires k + 1 < |Scan(d)|
    ensures Scan(d)[k] < |d| && 0 < CodepointLength(d[Scan(d)[k]])
    ensures Scan(d)[k] + CodepointLength(d[Scan(d)[k]]) <= Scan(d)[k + 1]
  {
    ScanOrdered(d, 0);
  }

  /** On a buffer the encoder built, the intended reference covers exactly
      the bytes of the code point: to_vec of it reproduces its encoding. */
  lemma CodePointAtEncoded(cps: seq<nat>, i: nat)
    requires AllScalars(cps) && i < |cps|
    ensures var d := EncodeAll(cps) + [0]; var idx := Scan(d);
      |idx| == |cps| + 1 && idx[i] < idx[i + 1] < |d|
      && idx[i] + CodepointLength(d[idx[i]]) == idx[i + 1]
      && d[idx[i]..idx[i + 1]] == Encode(cps[i])
  {
    var d := EncodeAll(cps) + [0];
    EncodedSlice(cps, i, i + 1);
    assert cps[i..i + 1] == [cps[i]];
    assert EncodeAll([cps[i]]) == Encode(cps[i]) + EncodeAll([]);
    EncodeLeading(cps[i]);
    var idx := Scan(d);
    assert d[idx[i]] == d[idx[i]..idx[i + 1]][0];
  }

  /* operator+ (src/unicode.cpp:262-270) hands each byte of rhs.data,
     its terminator included, to push_back(uint32_t), which encodes it as a
     code point of its own: a byte at or above 0x80 becomes two bytes, and
     a 0 code point is appended before the final terminator. */

  /** As written: "a" + "b" holds an extra 0 before the terminator. */
  lemma PlusAsWrittenExtraNul()
    ensures PlusAsWritten([0x61, 0], [0x62, 0]) == [0x61, 0x62, 0, 0]
    ensures Concatenation([0x61, 0], [0x62, 0]) == [0x61, 0x62, 0]
  {
    assert Content([0x61, 0]) == [0x61];
    assert EncodeAll([0x62, 0]) == Encode(0x62) + EncodeAll([0]);
    assert EncodeAll([0]) == Encode(0) + EncodeAll([]);
  }

  /** As written: "é" appended to an empty string is re-encoded as the two
      code points U+00C3 U+00A9, followed by a 0 code point. */
  lemma PlusAsWrittenReencodes()
    ensures PlusAsWritten([], [0xC3, 0xA9, 0]) == [0xC3, 0x83, 0xC2, 0xA9, 0, 0]
    ensures Concatenation([], [0xC3, 0xA9, 0]) == [0xC3, 0xA9, 0]
  {
    var e: seq<nat> := [0xC3, 0xA9, 0];
    assert Encode(0xC3) == [0xC3, 0x83];
    assert Encode(0xA9) == [0xC2, 0xA9];
    assert EncodeAll([0]) == [0] + EncodeAll([]);
    assert EncodeAll(e[1..]) == Encode(0xA9) + EncodeAll([0]);
    assert EncodeAll(e) == Encode(0xC3) + EncodeAll(e[1..]);
  }

  /** As written, on encoder-built operands: the result is the encoding of
      lhs's code points followed by every byte of rhs, terminator included,
      each taken as one code point. */
  lemma PlusAsWrittenEncoded(a: seq<nat>, b: seq<nat>)
    requires AllScalars(a) && AllScalars(b)
    ensures AllScalars(a + (EncodeAll(b) + [0]))
    ensures PlusAsWritten(EncodeAll(a) + [0], EncodeAll(b) + [0]) == EncodeAll(a + (EncodeAll(b) + [0])) + [0]
  {
    var rb: seq<nat> := EncodeAll(b) + [0];
    assert AllScalars(rb);
    ContentOfTerminated(EncodeAll(a));
    EncodeAllAppend(a, rb);
  }

  /** The evidently intended concatenation: lhs's content followed by
      rhs's content and one terminator; lhs unchanged when rhs has no
      content. */
  function Concatenation(lhs: seq<Byte>, rhs: seq<Byte>): (r: seq<Byte>)
    ensures Terminated(lhs) ==> Terminated(r)
    ensures Content(rhs) != [] ==> Content(r) == Content(lhs) + Content(rhs)
    ensures Content(rhs) == [] ==> r == lhs
  {
    if Content(rhs) == [] then lhs
    else
      ContentOfTerminated(Content(lhs) + Content(rhs));
      Content(lhs) + Content(rhs) + [0]
  }

  /** Intended: the empty string is an identity on the right for every
      buffer, and on the left up to the content (exactly, whenever rhs has
      content). As written, only the right side holds: an empty lhs
      re-encodes rhs (PlusAsWrittenReencodes). */
  lemma ConcatenationIdentity(b: seq<Byte>)
    requires Terminated(b)
    ensures Concatenation(b, []) == b && Concatenation(b, [0]) == b
    ensures Content(Concatenation([], b)) == Content(b)
    ensures Content(b) != [] ==> Concatenation([], b) == b
    ensures PlusAsWritten(b, []) == b
  {
    assert Content([0]) == [];
    if Content(b) != [] {
      assert b == Content(b) + [0];
      ContentOfTerminated(Content(b));
    }
  }

  /** The intended operator+: copy lhs, push the content of rhs one byte at
      a time with data_push_back_null, and rebuild the index. */
  method ConcatIntended(lhs: String, rhs: String) returns (result: String)
    requires lhs.Valid() && rhs.Valid()
    ensures fresh(result) && result.Valid() && result.cpIndexData == Scan(result.data)
    ensures result.data == Concatenation(lhs.data, rhs.data)
  {
    result := new String.Copy(lhs);
    PushAll(result, Content(rhs.data));
    result.UpdateCpIndexVector();
  }

  /** data_push_back_null of every byte of tail, in order: the content
      gains tail and stays terminated; nothing changes for an empty tail. */
  method PushAll(s: String, tail: seq<Byte>)
    modifies s`data
    ensures s.data == if tail == [] then old(s.data) else Content(old(s.data)) + tail + [0]
  {
    ghost var c0 := Content(s.data);
    var i := 0;
    while i < |tail|
      invariant 0 <= i <= |tail|
      invariant s.data == if i == 0 then old(s.data) else c0 + tail[0..i] + [0]
    {
      ghost var before := s.data;
      s.DataPushBackNull(tail[i]);
      PushStep(c0, tail, 0, i, before, s.data);
      i := i + 1;
    }
  }

  /** Intended: concatenating encoder-built strings gives the encoding of
      the concatenated code points, so the lengths add up. */
  lemma ConcatenationEncoded(a: seq<nat>, b: seq<nat>)
    requires AllScalars(a) && AllScalars(b)
    ensures AllScalars(a + b)
    ensures Concatenation(EncodeAll(a) + [0], EncodeAll(b) + [0]) == EncodeAll(a + b) + [0]
    ensures |Scan(EncodeAll(a + b) + [0])| == |a| + |b| + 1
  {
    ContentOfTerminated(EncodeAll(b));
    ContentOfTerminated(EncodeAll(a));
    EncodeAllAppend(a, b);
    EncodedScan(a + b);
  }
}
