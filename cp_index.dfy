/** The code-point index: what update_cp_index_vector computes from the byte
    buffer, an independent description of that index, and what it is for
    buffers produced by the encoder. */
module CpIndex {
  import opened Utf8

  /** The scan of update_cp_index_vector from cursor position i: record the
      cursor and jump by the classified length, or skip one byte when the
      classifier answers 0. */
  function ScanFrom(data: seq<Byte>, i: nat): (r: seq<nat>)
    ensures i <= |data| ==> i + |r| <= |data|
    decreases |data| - i
  {
    if i >= |data| then []
    else
      var n := CodepointLength(data[i]);
      if n == 0 then ScanFrom(data, i + 1) else [i] + ScanFrom(data, i + n)
  }

  /** One step of the scan, seen from an index built so far: the cursor's
      byte is recorded when it is a leading byte, and the cursor moves past
      its announced length (or one byte). */
  lemma ScanStep(data: seq<Byte>, built: seq<nat>, i: nat)
    requires i < |data|
    ensures var n := CodepointLength(data[i]);
      built + ScanFrom(data, i)
      == (if n == 0 then built else built + [i]) + ScanFrom(data, i + (if n == 0 then 1 else n))
  {
    var n := CodepointLength(data[i]);
    if n != 0 {
      assert built + ([i] + ScanFrom(data, i + n)) == (built + [i]) + ScanFrom(data, i + n);
    }
  }

  /** The index the source keeps in cp_index_data. */
  function Scan(data: seq<Byte>): seq<nat> {
    ScanFrom(data, 0)
  }

  /** Where gap g of an index r of data[from..] begins: at from for the
      gap before the first entry, otherwise right after the span of entry
      g - 1. */
  function GapStart(data: seq<Byte>, from: nat, r: seq<nat>, g: nat): nat
    requires g <= |r|
    requires forall k :: 0 <= k < |r| ==> r[k] < |data|
  {
    if g == 0 then from else r[g - 1] + CodepointLength(data[r[g - 1]])
  }

  /** Where gap g ends: at entry g, or at the end of the buffer after the
      last entry. */
  function GapEnd(data: seq<Byte>, r: seq<nat>, g: nat): nat
    requires g <= |r|
  {
    if g < |r| then r[g] else |data|
  }

  /** An independent description of a code-point index of data[from..]: the
      entries are recognised leading bytes whose spans follow one another
      left to right, and every byte position in a gap (before the first
      span, between two spans, after the last one) holds a byte the
      classifier rejects. */
  ghost predicate IsCpIndex(data: seq<Byte>, from: nat, r: seq<nat>) {
    EntriesLeading(data, from, r) && SpansOrdered(data, r) && GapsRejected(data, from, r)
  }

  /** Every entry is a recognised leading byte of data[from..]. */
  ghost predicate EntriesLeading(data: seq<Byte>, from: nat, r: seq<nat>) {
    forall k :: 0 <= k < |r| ==> from <= r[k] < |data| && CodepointLength(data[r[k]]) > 0
  }

  /** Each entry's span ends before any later entry begins. */
  ghost predicate SpansOrdered(data: seq<Byte>, r: seq<nat>)
    requires forall k :: 0 <= k < |r| ==> r[k] < |data|
  {
    forall j, k :: 0 <= j < k < |r| ==> r[j] + CodepointLength(data[r[j]]) <= r[k]
  }

  /** Every byte in a gap is one the classifier rejects. */
  ghost predicate GapsRejected(data: seq<Byte>, from: nat, r: seq<nat>)
    requires forall k :: 0 <= k < |r| ==> r[k] < |data|
  {
    forall g, p :: 0 <= g <= |r| && GapStart(data, from, r, g) <= p < GapEnd(data, r, g) && p < |data|
      ==> CodepointLength(data[p]) == 0
  }

  /** The scan meets the description ... */
  lemma ScanIsCpIndex(data: seq<Byte>, from: nat)
    ensures IsCpIndex(data, from, ScanFrom(data, from))
  {
    ScanOrdered(data, from);
    ScanGaps(data, from);
  }

  /** Every entry of the scan is a recognised leading byte at or after the
      cursor's start. */
  lemma {:induction false} ScanBounds(data: seq<Byte>, from: nat)
    ensures EntriesLeading(data, from, ScanFrom(data, from))
    decreases |data| - from
  {
    if from < |data| {
      var n := CodepointLength(data[from]);
      if n == 0 {
        ScanBounds(data, from + 1);
      } else {
        ScanBounds(data, from + n);
        var r, t := ScanFrom(data, from), ScanFrom(data, from + n);
        assert r == [from] + t;
        forall k | 0 <= k < |r|
          ensures from <= r[k] < |data| && CodepointLength(data[r[k]]) > 0
        {
          if k > 0 {
            assert r[k] == t[k - 1];
          }
        }
      }
    }
  }

  /** Every entry of the index is an offset into the buffer. */
  lemma ScanWithin(data: seq<Byte>)
    ensures forall k :: 0 <= k < |Scan(data)| ==> Scan(data)[k] < |data|
  {
    ScanBounds(data, 0);
  }

  /** Entries increase strictly and stay inside the buffer. */
  lemma ScanIncreasing(data: seq<Byte>, j: nat, k: nat)
    requires j < k < |Scan(data)|
    ensures Scan(data)[j] < Scan(data)[k] < |data|
  {
    ScanOrdered(data, 0);
    assert Scan(data)[j] + CodepointLength(data[Scan(data)[j]]) <= Scan(data)[k];
  }

  /** The entries of the scan are recognised leading bytes, and each
      entry's span ends before any later entry. */
  lemma {:induction false} ScanOrdered(data: seq<Byte>, from: nat)
    ensures EntriesLeading(data, from, ScanFrom(data, from))
    ensures SpansOrdered(data, ScanFrom(data, from))
    decreases |data| - from
  {
    ScanBounds(data, from);
    if from < |data| {
      var n := CodepointLength(data[from]);
      if n == 0 {
        ScanOrdered(data, from + 1);
      } else {
        ScanOrdered(data, from + n);
        var r, t := ScanFrom(data, from), ScanFrom(data, from + n);
        assert r == [from] + t;
        forall j, k | 0 <= j < k < |r|
          ensures r[j] + CodepointLength(data[r[j]]) <= r[k]
        {
          if j == 0 {
            assert r[k] == t[k - 1];
          } else {
            assert r[j] == t[j - 1] && r[k] == t[k - 1];
          }
        }
      }
    }
  }

  /** Every byte the scan steps over without recording it is one the
      classifier rejects. */
  lemma {:induction false} ScanGaps(data: seq<Byte>, from: nat)
    ensures EntriesLeading(data, from, ScanFrom(data, from))
    ensures GapsRejected(data, from, ScanFrom(data, from))
    decreases |data| - from
  {
    ScanBounds(data, from);
    if from < |data| {
      var n := CodepointLength(data[from]);
      if n == 0 {
        ScanGapsSkip(data, from);
      } else {
        ScanGapsRecord(data, from);
      }
    }
  }

  lemma {:induction false} ScanGapsSkip(data: seq<Byte>, from: nat)
    requires from < |data| && CodepointLength(data[from]) == 0
    ensures EntriesLeading(data, from, ScanFrom(data, from))
    ensures GapsRejected(data, from, ScanFrom(data, from))
    decreases |data| - from, 0
  {
    ScanBounds(data, from);
    var r := ScanFrom(data, from);
    assert r == ScanFrom(data, from + 1);
    ScanGaps(data, from + 1);
    GapsSkip(data, from, r);
  }

  /** A rejected byte in front of an index's range joins its first gap. */
  lemma GapsSkip(data: seq<Byte>, from: nat, r: seq<nat>)
    requires from < |data| && CodepointLength(data[from]) == 0
    requires EntriesLeading(data, from + 1, r) && GapsRejected(data, from + 1, r)
    ensures GapsRejected(data, from, r)
  {
    forall g, p | 0 <= g <= |r| && GapStart(data, from, r, g) <= p < GapEnd(data, r, g) && p < |data|
      ensures CodepointLength(data[p]) == 0
    {
      if g > 0 || p > from {
        assert GapStart(data, from + 1, r, g) <= p;
      }
    }
  }

  lemma {:induction false} ScanGapsRecord(data: seq<Byte>, from: nat)
    requires from < |data| && CodepointLength(data[from]) > 0
    ensures EntriesLeading(data, from, ScanFrom(data, from))
    ensures GapsRejected(data, from, ScanFrom(data, from))
    decreases |data| - from, 0
  {
    ScanBounds(data, from);
    var n := CodepointLength(data[from]);
    var t := ScanFrom(data, from + n);
    assert ScanFrom(data, from) == [from] + t;
    ScanGaps(data, from + n);
    GapsRecord(data, from, t);
  }

  /** Putting a leading byte's entry in front of an index of what follows
      its span keeps every gap rejected. */
  lemma GapsRecord(data: seq<Byte>, from: nat, t: seq<nat>)
    requires from < |data| && CodepointLength(data[from]) > 0
    requires EntriesLeading(data, from + CodepointLength(data[from]), t)
    requires GapsRejected(data, from + CodepointLength(data[from]), t)
    ensures EntriesLeading(data, from, [from] + t)
    ensures GapsRejected(data, from, [from] + t)
  {
    var n := CodepointLength(data[from]);
    var r := [from] + t;
    forall k | 0 <= k < |r|
      ensures from <= r[k] < |data| && CodepointLength(data[r[k]]) > 0
    {
      if k > 0 {
        assert r[k] == t[k - 1];
      }
    }
    forall g, p | 0 <= g <= |r| && GapStart(data, from, r, g) <= p < GapEnd(data, r, g) && p < |data|
      ensures CodepointLength(data[p]) == 0
    {
      assert g > 0;
      assert GapStart(data, from + n, t, g - 1) == GapStart(data, from, r, g);
      assert GapEnd(data, t, g - 1) == GapEnd(data, r, g);
    }
  }

  /** ... and nothing else does: the description determines the index. */
  lemma {:induction false} CpIndexUnique(data: seq<Byte>, from: nat, r: seq<nat>)
    requires IsCpIndex(data, from, r)
    ensures r == ScanFrom(data, from)
    decreases |data| - from, 1
  {
    if from >= |data| {
      NoEntriesPast(data, from, r);
    } else if CodepointLength(data[from]) == 0 {
      UniqueSkip(data, from, r);
    } else {
      UniqueRecord(data, from, r);
    }
  }

  lemma {:induction false} UniqueSkip(data: seq<Byte>, from: nat, r: seq<nat>)
    requires IsCpIndex(data, from, r)
    requires from < |data| && CodepointLength(data[from]) == 0
    ensures r == ScanFrom(data, from)
    decreases |data| - from, 0
  {
    CpIndexSkip(data, from, r);
    CpIndexUnique(data, from + 1, r);
    assert ScanFrom(data, from) == ScanFrom(data, from + 1);
  }

  lemma {:induction false} UniqueRecord(data: seq<Byte>, from: nat, r: seq<nat>)
    requires IsCpIndex(data, from, r)
    requires from < |data| && CodepointLength(data[from]) > 0
    ensures r == ScanFrom(data, from)
    decreases |data| - from, 0
  {
    var n := CodepointLength(data[from]);
    CpIndexRecord(data, from, r);
    var rest := r[1..];
    CpIndexUnique(data, from + n, rest);
    RecordJoin(data, from, r, rest);
  }

  /** An index whose first entry is a leading byte at the cursor, followed
      by the scan from the end of its span, is the scan from the cursor. */
  lemma RecordJoin(data: seq<Byte>, from: nat, r: seq<nat>, rest: seq<nat>)
    requires from < |data| && CodepointLength(data[from]) > 0
    requires r != [] && r[0] == from && rest == r[1..]
    requires rest == ScanFrom(data, from + CodepointLength(data[from]))
    ensures r == ScanFrom(data, from)
  {
    assert ScanFrom(data, from) == [from] + rest;
    assert r == [from] + rest;
  }

  /** No entry lies at or after the end of the buffer. */
  lemma NoEntriesPast(data: seq<Byte>, from: nat, r: seq<nat>)
    requires EntriesLeading(data, from, r)
    ensures from >= |data| ==> r == []
  {
    if r != [] {
      assert from <= r[0] < |data|;
    }
  }

  /** A byte that is not a leading byte cannot be an entry. */
  lemma CpIndexSkip(data: seq<Byte>, from: nat, r: seq<nat>)
    requires IsCpIndex(data, from, r)
    requires from < |data| && CodepointLength(data[from]) == 0
    ensures IsCpIndex(data, from + 1, r)
  {
    if r != [] {
      assert r[0] != from;
    }
    forall g, p | 0 <= g <= |r| && GapStart(data, from + 1, r, g) <= p < GapEnd(data, r, g) && p < |data|
      ensures CodepointLength(data[p]) == 0
    {
      assert GapStart(data, from, r, g) <= p;
    }
  }

  /** A leading byte at the start of the range must be the first entry. */
  lemma CpIndexRecord(data: seq<Byte>, from: nat, r: seq<nat>)
    requires IsCpIndex(data, from, r)
    requires from < |data| && CodepointLength(data[from]) > 0
    ensures r != [] && r[0] == from
    ensures IsCpIndex(data, from + CodepointLength(data[from]), r[1..])
  {
    var n := CodepointLength(data[from]);
    assert GapStart(data, from, r, 0) == from;
    assert r != [] && r[0] == from;
    var t := r[1..];
    forall g, p | 0 <= g <= |t| && GapStart(data, from + n, t, g) <= p < GapEnd(data, t, g) && p < |data|
      ensures CodepointLength(data[p]) == 0
    {
      assert GapStart(data, from, r, g + 1) == GapStart(data, from + n, t, g);
      assert GapEnd(data, r, g + 1) == GapEnd(data, t, g);
    }
  }

  /** A terminated buffer yields at least one entry from any cursor. */
  lemma {:induction false} ScanNonEmpty(data: seq<Byte>, i: nat)
    requires i < |data| && data[|data| - 1] == 0
    ensures ScanFrom(data, i) != []
    decreases |data| - i
  {
    if CodepointLength(data[i]) == 0 {
      assert i != |data| - 1;
      ScanNonEmpty(data, i + 1);
    }
  }

  /** The start positions of encoded code points laid out from off on, and
      the position right after the last of them. */
  function Boundaries(cps: seq<nat>, off: nat): (b: seq<nat>)
    requires AllScalars(cps)
    ensures |b| == |cps| + 1 && b[0] == off
  {
    if cps == [] then [off] else [off] + Boundaries(cps[1..], off + |Encode(cps[0])|)
  }

  /** Entry k of the boundaries is the length of the first k encodings. */
  lemma {:induction false} BoundaryAt(cps: seq<nat>, off: nat, k: nat)
    requires AllScalars(cps) && k <= |cps|
    ensures AllScalars(cps[..k])
    ensures Boundaries(cps, off)[k] == off + |EncodeAll(cps[..k])|
  {
    if k > 0 {
      assert cps[1..][..k - 1] == cps[..k][1..];
      BoundaryAt(cps[1..], off + |Encode(cps[0])|, k - 1);
    } else {
      assert cps[..k] == [];
    }
  }

  /** Scanning an encoder-built tail that ends in the terminator records exactly
      the starts of the code points and the terminator's position. */
  lemma {:induction false} ScanEncodedFrom(d: seq<Byte>, off: nat, cps: seq<nat>)
    requires AllScalars(cps)
    requires off <= |d| && d[off..] == EncodeAll(cps) + [0]
    ensures ScanFrom(d, off) == Boundaries(cps, off)
    decreases cps, 0
  {
    if cps == [] {
      SuffixSplit(d, off, [0], []);
      assert CodepointLength(d[off]) == 1;
      assert ScanFrom(d, off + 1) == [];
      assert ScanFrom(d, off) == [off] + ScanFrom(d, off + 1);
    } else {
      var e, rest := Encode(cps[0]), EncodeAll(cps[1..]);
      assert EncodeAll(cps) == e + rest;
      Assoc(e, rest, [0]);
      ScanEncodedCons(d, off, cps[0], cps[1..]);
      BoundariesCons(cps, off);
    }
  }

  /** The scan of an encoding followed by an encoder-built tail. */
  lemma {:induction false} ScanEncodedCons(d: seq<Byte>, off: nat, cp: nat, tail: seq<nat>)
    requires cp <= MaxCodePoint && AllScalars(tail)
    requires off <= |d| && d[off..] == Encode(cp) + (EncodeAll(tail) + [0])
    ensures ScanFrom(d, off) == [off] + Boundaries(tail, off + |Encode(cp)|)
    decreases tail, 1
  {
    ScanEncodedStep(d, off, cp, EncodeAll(tail) + [0]);
    ScanEncodedFrom(d, off + |Encode(cp)|, tail);
  }

  lemma BoundariesCons(cps: seq<nat>, off: nat)
    requires AllScalars(cps) && cps != []
    ensures AllScalars(cps[1..])
    ensures Boundaries(cps, off) == [off] + Boundaries(cps[1..], off + |Encode(cps[0])|)
  {
  }

  /** The scan records the start of an encoding and jumps over it. */
  lemma ScanEncodedStep(d: seq<Byte>, off: nat, cp: nat, rest: seq<Byte>)
    requires cp <= MaxCodePoint
    requires off <= |d| && d[off..] == Encode(cp) + rest
    ensures off + |Encode(cp)| <= |d| && d[off + |Encode(cp)|..] == rest
    ensures ScanFrom(d, off) == [off] + ScanFrom(d, off + |Encode(cp)|)
  {
    var e := Encode(cp);
    EncodeLeading(cp);
    SuffixSplit(d, off, e, rest);
  }

  /** The leading byte of an encoding announces its length. */
  lemma EncodeLeading(cp: nat)
    requires cp <= MaxCodePoint
    ensures CodepointLength(Encode(cp)[0]) == |Encode(cp)|
  {
    EncodeRoundTrip(cp);
  }

  lemma SuffixSplit<T>(d: seq<T>, off: nat, x: seq<T>, y: seq<T>)
    requires off <= |d| && d[off..] == x + y && x != []
    ensures off + |x| <= |d| && d[off] == x[0] && d[off + |x|..] == y
  {
    assert d[off] == d[off..][0];
    assert d[off + |x|..] == d[off..][|x|..];
    assert (x + y)[|x|..] == y;
  }

  /** For data built only by the encoder, the index is the code-point starts
      plus the terminator position; so it has one entry more than there are
      code points, and entries k and k' delimit the bytes of cps[k..k']. */
  lemma EncodedScan(cps: seq<nat>)
    requires AllScalars(cps)
    ensures var d := EncodeAll(cps) + [0];
      Scan(d) == Boundaries(cps, 0)
      && |Scan(d)| == |cps| + 1
      && Scan(d)[|cps|] == |EncodeAll(cps)|
  {
    var d := EncodeAll(cps) + [0];
    assert d[0..] == d;
    ScanEncodedFrom(d, 0, cps);
    BoundaryAt(cps, 0, |cps|);
    assert cps[..|cps|] == cps;
  }

  /** The bytes between two entries of an encoder-built index are the
      encodings of the code points between them. */
  lemma EncodedSlice(cps: seq<nat>, a: nat, b: nat)
    requires AllScalars(cps) && a <= b <= |cps|
    ensures AllScalars(cps[a..b])
    ensures var d := EncodeAll(cps) + [0]; var idx := Scan(d);
      |idx| == |cps| + 1 && idx[a] <= idx[b] < |d| && d[idx[a]..idx[b]] == EncodeAll(cps[a..b])
  {
    EncodedScan(cps);
    BoundarySlice(cps, a, b);
  }

  lemma BoundarySlice(cps: seq<nat>, a: nat, b: nat)
    requires AllScalars(cps) && a <= b <= |cps|
    ensures AllScalars(cps[a..b])
    ensures var e, bs := EncodeAll(cps), Boundaries(cps, 0);
      bs[a] <= bs[b] <= |e| && e[bs[a]..bs[b]] == EncodeAll(cps[a..b])
  {
    BoundaryAt(cps, 0, a);
    BoundaryAt(cps, 0, b);
    var head := cps[..b];
    EncodeAllSplit(cps, b);
    EncodeAllSplit(head, a);
    assert head[..a] == cps[..a] && head[a..] == cps[a..b];
    var ex, ey, ez := EncodeAll(cps[..a]), EncodeAll(cps[a..b]), EncodeAll(cps[b..]);
    SliceMiddle(ex, ey, ez);
  }

  lemma SliceMiddle(x: seq<Byte>, y: seq<Byte>, z: seq<Byte>)
    ensures (x + y + z)[|x|..|x| + |y|] == y
  {
  }
}
