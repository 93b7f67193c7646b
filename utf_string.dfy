/** utf_str::String: a NUL-terminated UTF-8 byte buffer and the derived index
    of the first byte of each code point, with the members declared in
    include/unicode.h and defined in src/unicode.cpp. */
module UtfStr {
  import opened Utf8
  import opened CpIndex

  /** The exceptions the members throw: std::invalid_argument,
      std::out_of_range and std::runtime_error. */
  datatype Error = InvalidArgument | OutOfRange | RuntimeError

  /** How a void member ends: normally, or by throwing. */
  datatype Outcome = Done | Throw(error: Error)

  /** How a value-returning member ends. */
  datatype Result<T> = Ok(value: T) | Err(error: Error)

  datatype Option<T> = None | Some(value: T)

  /** code_point_ref: the bytes [start, start + length) of the buffer it was
      taken from; the source's pointer is the offset start. */
  datatype CodePointRef = CodePointRef(start: nat, length: nat)

  /** The terminator invariant: empty, or the last byte is 0. */
  predicate Terminated(d: seq<Byte>) {
    d == [] || d[|d| - 1] == 0
  }

  /** The bytes before the final 0 (all of them when there is none). */
  function Content(d: seq<Byte>): (c: seq<Byte>)
    ensures d != [] && d[|d| - 1] == 0 ==> d == c + [0]
    ensures !(d != [] && d[|d| - 1] == 0) ==> c == d
  {
    if d != [] && d[|d| - 1] == 0 then d[..|d| - 1] else d
  }

  /** What a `while (*str)` loop reads of a C string: the bytes before the
      first 0 (all of the sequence when it holds none). */
  function UntilNul(s: seq<Byte>): (r: seq<Byte>)
    ensures |r| <= |s| && r == s[..|r|]
    ensures forall k :: 0 <= k < |r| ==> r[k] != 0
    ensures |r| < |s| ==> s[|r|] == 0
  {
    if s == [] || s[0] == 0 then [] else [s[0]] + UntilNul(s[1..])
  }

  /** The bytes before the first 0 are determined by where that 0 is. */
  lemma {:induction false} UntilNulAt(s: seq<Byte>, i: nat)
    requires i <= |s| && (i == |s| || s[i] == 0)
    requires forall k :: 0 <= k < i ==> s[k] != 0
    ensures UntilNul(s) == s[..i]
  {
    if i > 0 {
      UntilNulAt(s[1..], i - 1);
      assert s[..i] == [s[0]] + s[1..][..i - 1];
    }
  }

  /** Copying e[lo..p] one data_push_back_null at a time onto a buffer
      whose content was c0: after the byte e[p] the buffer holds c0, the
      bytes e[lo..p + 1] and a terminator. */
  lemma PushStep(c0: seq<Byte>, e: seq<Byte>, lo: nat, p: nat, t: seq<Byte>, t': seq<Byte>)
    requires lo <= p < |e|
    requires p == lo ==> Content(t) == c0
    requires p > lo ==> t == c0 + e[lo..p] + [0]
    requires t' == Content(t) + [e[p], 0]
    ensures t' == c0 + e[lo..p + 1] + [0]
    ensures lo == 0 && p + 1 == |e| ==> t' == c0 + e + [0]
  {
    var x := e[lo..p];
    SliceOneMore(e, lo, p);
    if p > lo {
      ContentOfTerminated(c0 + x);
    }
    Assoc(c0, x, [e[p]]);
    Assoc(c0 + (x + [e[p]]), [], [0]);
    assert [e[p], 0] == [e[p]] + [0];
    Assoc(c0 + x, [e[p]], [0]);
    if lo == 0 && p + 1 == |e| {
      assert e[lo..p + 1] == e;
    }
  }

  /** PushStep onto a buffer that started empty. */
  lemma PushStepFromEmpty(e: seq<Byte>, lo: nat, p: nat, t: seq<Byte>, t': seq<Byte>)
    requires lo <= p < |e|
    requires t == if p == lo then [] else e[lo..p] + [0]
    requires t' == Content(t) + [e[p], 0]
    ensures t' == e[lo..p + 1] + [0]
  {
    if p > lo {
      assert t == [] + e[lo..p] + [0];
    }
    PushStep([], e, lo, p, t, t');
    assert [] + e[lo..p + 1] == e[lo..p + 1];
  }

  lemma SliceOneMore<T>(s: seq<T>, lo: nat, p: nat)
    requires lo <= p < |s|
    ensures s[lo..p + 1] == s[lo..p] + [s[p]]
  {
  }

  /** vector::erase(begin() + first, begin() + last): the bytes before
      first, then the bytes from last on. */
  function EraseSpan(d: seq<Byte>, first: nat, last: nat): (r: seq<Byte>)
    requires first <= last <= |d|
    ensures |r| == |d| - (last - first)
    ensures forall k :: 0 <= k < first ==> r[k] == d[k]
    ensures forall k :: first <= k < |r| ==> r[k] == d[k + (last - first)]
  {
    d[..first] + d[last..]
  }

  /** A C reader of a terminated buffer whose content holds no 0 reads the
      whole content. */
  lemma CStrReads(d: seq<Byte>)
    requires d != []
    ensures Terminated(d) && NoNul(Content(d)) ==> UntilNul(d[0..]) == Content(d)
  {
    if Terminated(d) && NoNul(Content(d)) {
      UntilNulAt(d, |d| - 1);
      assert d[0..] == d;
    }
  }

  /** Dropping the terminator of a terminated buffer. */
  lemma ContentOfTerminated(x: seq<Byte>)
    ensures Content(x + [0]) == x
  {
    assert (x + [0])[..|x|] == x;
  }

  /** code_point_ref::to_vec: the referenced bytes and a trailing 0, or
      nothing for an empty reference. */
  method ToVec(data: seq<Byte>, r: CodePointRef) returns (v: seq<Byte>)
    requires r.start + r.length <= |data|
    ensures r.length == 0 <==> v == []
    ensures r.length > 0 ==> v == data[r.start..r.start + r.length] + [0]
  {
    v := [];
    if r.length > 0 {
      var i := 0;
      while i < r.length
        invariant 0 <= i <= r.length
        invariant v == data[r.start..r.start + i]
      {
        v := v + [data[r.start + i]];
        i := i + 1;
      }
      v := v + [0];
    }
  }

  class String {
    /** The byte buffer; data_push_back_null keeps a 0 at its end. */
    var data: seq<Byte>
    /** The offsets, left to right, of the bytes the scan lands on and the
        classifier accepts as leading bytes; bytes inside an earlier leading
        byte's announced span are never examined. When the last code point
        ends before the terminator, the terminator has an entry too. Rebuilt
        by UpdateCpIndexVector. */
    var cpIndexData: seq<nat>

    /** Every state a String reaches: the buffer is terminated, and the index
        is either the scan of the buffer or, for a string returned by subtr
        or subtr_byte, never built. */
    ghost predicate Valid()
      reads this
    {
      Terminated(data) && (cpIndexData == Scan(data) || cpIndexData == []) && IndexInBuffer()
    }

    /** Every entry of the index is an offset into the buffer. */
    ghost predicate IndexInBuffer()
      reads this
    {
      forall k :: 0 <= k < |cpIndexData| ==> cpIndexData[k] < |data|
    }

    /** String() = default. */
    constructor ()
      ensures Valid() && data == [] && cpIndexData == []
    {
      data := [];
      cpIndexData := [];
    }

    /** The implicitly generated copy constructor. */
    constructor Copy(other: String)
      requires other.Valid()
      ensures Valid() && data == other.data && cpIndexData == other.cpIndexData
    {
      data := other.data;
      cpIndexData := other.cpIndexData;
    }

    /** explicit String(const char*): push_back(str) on an empty string. */
    constructor FromCStr(str: seq<Byte>)
      ensures Valid() && cpIndexData == Scan(data)
      ensures data == if UntilNul(str) == [] then [] else UntilNul(str) + [0]
    {
      data := [];
      cpIndexData := [];
      new;
      PushBackCStr(str);
    }

    /** data_push_back_null: overwrite a final 0 with c, or append c, and
        then append a 0. */
    method DataPushBackNull(c: Byte)
      modifies this`data
      ensures data == Content(old(data)) + [c, 0]
      ensures |data| == |old(data)| + (if old(data) != [] && old(data)[|old(data)| - 1] == 0 then 1 else 2)
    {
      if data != [] && data[|data| - 1] == 0 {
        data := data[|data| - 1 := c];
        data := data + [0];
      } else {
        data := data + [c];
        data := data + [0];
      }
    }

    /** update_cp_index_vector: clear the index, then scan the buffer with a
        cursor. */
    method UpdateCpIndexVector()
      modifies this`cpIndexData
      ensures cpIndexData == Scan(data) && IndexInBuffer()
    {
      cpIndexData := [];
      var dataIndex := 0;
      ghost var d := data;
      while dataIndex < |data|
        invariant data == d
        invariant cpIndexData + ScanFrom(d, dataIndex) == Scan(d)
        decreases |data| - dataIndex
      {
        var cpLength := CodepointLength(data[dataIndex]);
        ScanStep(d, cpIndexData, dataIndex);
        if cpLength == 1 {
          cpIndexData := cpIndexData + [dataIndex];
          dataIndex := dataIndex + 1;
        } else if cpLength == 2 {
          cpIndexData := cpIndexData + [dataIndex];
          dataIndex := dataIndex + 2;
        } else if cpLength == 3 {
          cpIndexData := cpIndexData + [dataIndex];
          dataIndex := dataIndex + 3;
        } else if cpLength == 4 {
          cpIndexData := cpIndexData + [dataIndex];
          dataIndex := dataIndex + 4;
        } else {
          dataIndex := dataIndex + 1;
        }
      }
      ScanWithin(d);
    }

    /** size_byte: data.size() - 1, the position of the terminator. */
    function SizeByte(): (n: nat)
      reads this
      requires data != []
      ensures n < |data|
      ensures Terminated(data) ==> data[n] == 0 && data[..n] == Content(data)
    {
      |data| - 1
    }

    /** length: cpIndexData.size() - 1, the index without its last entry. */
    function Length(): (n: nat)
      reads this
      requires cpIndexData != []
      ensures Valid() ==> data != [] && n <= SizeByte()
    {
      |cpIndexData| - 1
    }

    /** empty: the buffer has no bytes. */
    function Empty(): (b: bool)
      reads this
      ensures b <==> data == []
    {
      data == []
    }

    /** c_str: the offset of the buffer's first byte, none when empty. On a
        valid string that offset starts a buffer ending in 0, and a C reader
        of it sees the whole content when the content holds no 0. */
    function CStr(): (p: Option<nat>)
      reads this
      ensures p.None? <==> data == []
      ensures p.Some? ==> p.value == 0
      ensures Valid() && p.Some? ==> data[|data| - 1] == 0
      ensures Valid() && p.Some? && NoNul(Content(data)) ==>
        UntilNul(data[p.value..]) == Content(data)
    {
      if data == [] then None
      else
        CStrReads(data);
        Some(0)
    }

    /** clear. */
    method Clear()
      modifies this
      ensures Valid() && data == [] && cpIndexData == []
    {
      data := [];
      UpdateCpIndexVector();
    }

    /** push_back(const char*): push every byte before the first 0, then
        rebuild the index once. */
    method PushBackCStr(str: seq<Byte>)
      requires Terminated(data)
      modifies this
      ensures Valid() && cpIndexData == Scan(data)
      ensures data == if UntilNul(str) == [] then old(data) else Content(old(data)) + UntilNul(str) + [0]
    {
      ghost var c0 := Content(data);
      var i := 0;
      while i < |str| && str[i] != 0
        invariant 0 <= i <= |str|
        invariant forall k :: 0 <= k < i ==> str[k] != 0
        invariant data == if i == 0 then old(data) else c0 + str[0..i] + [0]
      {
        ghost var before := data;
        DataPushBackNull(str[i]);
        PushStep(c0, str, 0, i, before, data);
        i := i + 1;
      }
      UntilNulAt(str, i);
      assert str[..i] == str[0..i];
      UpdateCpIndexVector();
    }

    /** push_back(uint32_t): write the encoding of an accepted code point and
        rebuild the index, or throw invalid_argument above 0x10FFFF before
        writing anything. */
    method PushBack(codePoint: Uint32) returns (r: Outcome)
      modifies this
      ensures r.Throw? <==> codePoint > MaxCodePoint
      ensures r.Throw? ==> r.error == InvalidArgument && data == old(data) && cpIndexData == old(cpIndexData)
      ensures r.Done? ==> data == Content(old(data)) + Encode(codePoint) + [0] && cpIndexData == Scan(data)
      ensures r.Done? ==> Valid()
    {
      if codePoint > MaxCodePoint {
        return Throw(InvalidArgument);
      }
      WriteEncoding(codePoint);
      UpdateCpIndexVector();
      return Done;
    }

    /** The four branches of push_back(uint32_t) that accept the code point:
        one data_push_back_null per byte of its encoding, leading byte
        first. */
    method WriteEncoding(codePoint: nat)
      requires codePoint <= MaxCodePoint
      modifies this`data
      ensures data == Content(old(data)) + Encode(codePoint) + [0]
    {
      ghost var c0 := Content(data);
      var e := Encode(codePoint);
      if codePoint <= 0x7F {
        PushEncodingByte(c0, e, 0);
      } else if codePoint <= 0x7FF {
        PushEncodingByte(c0, e, 0);
        PushEncodingByte(c0, e, 1);
      } else if codePoint <= 0xFFFF {
        PushEncodingByte(c0, e, 0);
        PushEncodingByte(c0, e, 1);
        PushEncodingByte(c0, e, 2);
      } else {
        PushEncodingByte(c0, e, 0);
        PushEncodingByte(c0, e, 1);
        PushEncodingByte(c0, e, 2);
        PushEncodingByte(c0, e, 3);
      }
      assert e[0..|e|] == e;
    }

    /** One data_push_back_null of push_back(uint32_t): byte k of the
        encoding e goes onto a buffer whose content is c0 followed by the
        bytes of e before it. */
    method PushEncodingByte(ghost c0: seq<Byte>, e: seq<Byte>, k: nat)
      requires k < |e|
      requires k == 0 ==> Content(data) == c0
      requires k > 0 ==> data == c0 + e[0..k] + [0]
      modifies this`data
      ensures data == c0 + e[0..k + 1] + [0]
    {
      ghost var before := data;
      DataPushBackNull(e[k]);
      PushStep(c0, e, 0, k, before, data);
    }

    /** erase_byte: when start + count < data.size(), erase the bytes from
        start to count, both offsets truncated through uint8_t; otherwise
        throw out_of_range. */
    method EraseByte(start: nat, count: nat) returns (r: Outcome)
      requires Valid()
      requires start + count < |data| ==> start % 256 <= count % 256
      modifies this
      ensures Valid()
      ensures r.Throw? <==> start + count >= |old(data)|
      ensures r.Throw? ==> r.error == OutOfRange && data == old(data) && cpIndexData == old(cpIndexData)
      ensures r.Done? ==> data == EraseSpan(old(data), start % 256, count % 256) && cpIndexData == Scan(data)
    {
      if start + count < |data| {
        var first, last := start % 256, count % 256;
        data := data[..first] + data[last..];
      } else {
        return Throw(OutOfRange);
      }
      UpdateCpIndexVector();
      return Done;
    }

    /** erase: when cpStart + cpCount <= length(), erase the bytes from the
        start of code point cpStart to the start of code point cpCount, both
        offsets truncated through uint8_t; otherwise throw out_of_range. */
    method Erase(cpStart: nat, cpCount: nat) returns (r: Outcome)
      requires Valid() && cpIndexData != []
      requires cpStart + cpCount <= |cpIndexData| - 1 ==> cpIndexData[cpStart] % 256 <= cpIndexData[cpCount] % 256
      modifies this
      ensures Valid()
      ensures r.Throw? <==> cpStart + cpCount > |old(cpIndexData)| - 1
      ensures r.Throw? ==> r.error == OutOfRange && data == old(data) && cpIndexData == old(cpIndexData)
      ensures r.Done? ==> cpIndexData == Scan(data)
      ensures r.Done? ==> data == EraseSpan(old(data), old(cpIndexData)[cpStart] % 256, old(cpIndexData)[cpCount] % 256)
    {
      if cpStart + cpCount <= Length() {
        var first, last := cpIndexData[cpStart] % 256, cpIndexData[cpCount] % 256;
        data := data[..first] + data[last..];
      } else {
        return Throw(OutOfRange);
      }
      UpdateCpIndexVector();
      return Done;
    }

    /** operator[]: throw out_of_range unless cpIndex < length(); the
        reference starts at the code point's first byte, while its length
        is classified from data[cpIndex], not from that first byte. */
    function At(cpIndex: nat): (r: Result<CodePointRef>)
      reads this
      requires Valid() && cpIndexData != []
      ensures r.Err? <==> cpIndex >= Length()
      ensures r.Err? ==> r.error == OutOfRange
      ensures r.Ok? ==> r.value.start == cpIndexData[cpIndex] && r.value.start < SizeByte()
      ensures r.Ok? ==> r.value.length == CodepointLength(data[cpIndex])
    {
      if cpIndex >= Length() then Err(OutOfRange)
      else
        ScanIncreasing(data, cpIndex, Length());
        Ok(CodePointRef(cpIndexData[cpIndex], CodepointLength(data[cpIndex])))
    }

    /** front: the span from the first entry to the second. */
    function Front(): (r: CodePointRef)
      reads this
      requires Valid() && |cpIndexData| >= 2
      ensures r.start == cpIndexData[0] && r.start + r.length == cpIndexData[1]
      ensures 0 < r.length && r.start + r.length <= SizeByte()
    {
      ScanIncreasing(data, 0, 1);
      CodePointRef(cpIndexData[0], cpIndexData[1] - cpIndexData[0])
    }

    /** back: from the last entry before the terminator's up to size_byte(). */
    function Back(): (r: CodePointRef)
      reads this
      requires Valid() && |cpIndexData| >= 2
      ensures r.start == cpIndexData[Length() - 1]
      ensures 0 < r.length && r.start + r.length == SizeByte()
    {
      ScanIncreasing(data, Length() - 1, Length());
      var lastElementValue := cpIndexData[Length() - 1];
      CodePointRef(lastElementValue, SizeByte() - lastElementValue)
    }

    /** The copy loop of subtr_byte and subtr: data_push_back_null each of
        src[from..to] in turn onto a buffer that so far holds the copy of
        src[lo..from]. */
    method PushBytes(src: seq<Byte>, ghost lo: nat, from: nat, to: nat)
      requires lo <= from <= to <= |src|
      requires data == if from == lo then [] else src[lo..from] + [0]
      modifies this`data
      ensures data == if to == lo then [] else src[lo..to] + [0]
    {
      var i := from;
      while i < to
        invariant from <= i <= to
        invariant data == if i == lo then [] else src[lo..i] + [0]
      {
        ghost var before := data;
        DataPushBackNull(src[i]);
        PushStepFromEmpty(src, lo, i, before, data);
        i := i + 1;
      }
    }

    /** subtr_byte: throw runtime_error unless start + count < data.size();
        otherwise copy data[start..start + count) into a new string byte by
        byte. The copy's index is never rebuilt. */
    method SubtrByte(start: nat, count: nat) returns (r: Result<String>)
      requires Valid()
      ensures r.Err? <==> start + count >= |data|
      ensures r.Err? ==> r.error == RuntimeError
      ensures r.Ok? ==> fresh(r.value) && r.value.Valid() && r.value.cpIndexData == []
      ensures r.Ok? ==> r.value.data == if count == 0 then [] else data[start..start + count] + [0]
    {
      var temp := new String();
      if start + count < |data| {
        temp.PushBytes(data, start, start, start + count);
      } else {
        return Err(RuntimeError);
      }
      return Ok(temp);
    }

    /** subtr: throw runtime_error unless cpStart + cpCount <= length();
        otherwise copy the bytes of code points cpStart .. cpStart + cpCount - 1,
        each delimited by two consecutive entries. The copy's index is never
        rebuilt. */
    method Subtr(cpStart: nat, cpCount: nat) returns (r: Result<String>)
      requires Valid() && cpIndexData != []
      ensures r.Err? <==> cpStart + cpCount > Length()
      ensures r.Err? ==> r.error == RuntimeError
      ensures r.Ok? ==> fresh(r.value) && r.value.Valid() && r.value.cpIndexData == []
      ensures r.Ok? ==> r.value.data == CpSlice(data, cpIndexData, cpStart, cpCount)
    {
      var temp := new String();
      if cpStart + cpCount <= Length() {
        temp.PushSpans(data, cpIndexData, cpStart, cpCount);
      } else {
        return Err(RuntimeError);
      }
      return Ok(temp);
    }

    /** The copy loop of subtr: for each code point cpStart .. cpStart +
        cpCount - 1 of a buffer src whose index is idx, push the bytes from
        its entry up to the next entry onto this (so far empty) buffer. */
    method PushSpans(src: seq<Byte>, idx: seq<nat>, cpStart: nat, cpCount: nat)
      requires idx == Scan(src) && cpStart + cpCount < |idx|
      requires data == []
      modifies this`data
      ensures data == CpSlice(src, idx, cpStart, cpCount)
    {
      ghost var lo := idx[cpStart];
      ScanWithin(src);
      var i := cpStart;
      while i < cpStart + cpCount
        invariant cpStart <= i <= cpStart + cpCount
        invariant lo <= idx[i] < |src|
        invariant data == if i == cpStart then [] else src[lo..idx[i]] + [0]
      {
        PushSpan(src, idx, cpStart, i);
        i := i + 1;
      }
    }

    /** One pass of subtr's copy loop: push the bytes of code point i, from
        its entry up to the next entry, after those of cpStart .. i - 1. */
    method PushSpan(src: seq<Byte>, idx: seq<nat>, cpStart: nat, i: nat)
      requires idx == Scan(src) && cpStart <= i && i + 1 < |idx|
      requires idx[cpStart] <= idx[i] <= |src|
      requires data == if i == cpStart then [] else src[idx[cpStart]..idx[i]] + [0]
      modifies this`data
      ensures idx[cpStart] < idx[i + 1] < |src|
      ensures data == src[idx[cpStart]..idx[i + 1]] + [0]
    {
      SubtrSpan(src, idx, cpStart, i);
      var index := idx[i];
      var cpLength := idx[i + 1] - idx[i];
      PushBytes(src, idx[cpStart], index, index + cpLength);
    }
  }

  /** The entries subtr reads in one pass of its loop are ordered and
      inside the buffer. */
  lemma SubtrSpan(d: seq<Byte>, idx: seq<nat>, cpStart: nat, i: nat)
    requires idx == Scan(d) && cpStart <= i && i + 1 < |idx|
    ensures idx[cpStart] <= idx[i] < idx[i + 1] < |d|
    ensures cpStart < i ==> idx[cpStart] < idx[i]
  {
    ScanIncreasing(d, i, i + 1);
    if cpStart < i {
      ScanIncreasing(d, cpStart, i);
    }
  }

  /** The buffer subtr returns for a string whose index is idx: the bytes
      from the first byte of code point cpStart up to the first byte of code
      point cpStart + cpCount, terminated, or nothing when cpCount is 0. */
  function CpSlice(d: seq<Byte>, idx: seq<nat>, cpStart: nat, cpCount: nat): (r: seq<Byte>)
    requires idx == Scan(d) && cpStart + cpCount < |idx|
    ensures cpCount == 0 <==> r == []
    ensures r != [] ==> r[|r| - 1] == 0
  {
    if cpCount == 0 then []
    else
      ScanIncreasing(d, cpStart, cpStart + cpCount);
      d[idx[cpStart]..idx[cpStart + cpCount]] + [0]
  }

  /** The buffer operator+ produces: lhs unchanged when rhs has no bytes,
      otherwise lhs's content followed by the encoding of every byte of rhs,
      its terminator included, each taken as a code point. */
  function PlusAsWritten(lhs: seq<Byte>, rhs: seq<Byte>): seq<Byte> {
    if rhs == [] then lhs else Content(lhs) + EncodeAll(rhs) + [0]
  }

  /** One pass of operator+'s loop: pushing the encoding of rhs[i] onto
      the buffer built from lhs and rhs[..i]. */
  lemma PlusStep(lhs: seq<Byte>, rhs: seq<Byte>, i: nat, before: seq<Byte>, after: seq<Byte>)
    requires i < |rhs|
    requires before == if i == 0 then lhs else Content(lhs) + EncodeAll(rhs[..i]) + [0]
    requires after == Content(before) + Encode(rhs[i]) + [0]
    ensures after == Content(lhs) + EncodeAll(rhs[..i + 1]) + [0]
  {
    var cps: seq<nat> := rhs;
    SliceOneMore(cps, 0, i);
    EncodeAllSnoc(cps[..i], cps[i]);
    AppendStep(Content(lhs), EncodeAll(cps[..i]), Encode(cps[i]), EncodeAll(cps[..i + 1]), i == 0, before, after);
  }

  /** Appending e to a buffer holding c and e0 (or, at the start, whose
      content is c and e0 empty) leaves c, e0 + e and a terminator. */
  lemma AppendStep(c: seq<Byte>, e0: seq<Byte>, e: seq<Byte>, e1: seq<Byte>, first: bool, before: seq<Byte>, after: seq<Byte>)
    requires e1 == e0 + e
    requires first ==> e0 == [] && Content(before) == c
    requires !first ==> before == c + e0 + [0]
    requires after == Content(before) + e + [0]
    ensures after == c + e1 + [0]
  {
    if !first {
      ContentOfTerminated(c + e0);
    }
    Assoc(c, e0, e);
  }

  /** operator+: copy lhs, then push_back(uint32_t) each byte of rhs.data.
      Neither operand is modified. */
  method Plus(lhs: String, rhs: String) returns (result: String)
    requires lhs.Valid() && rhs.Valid()
    ensures fresh(result) && result.Valid()
    ensures result.data == PlusAsWritten(lhs.data, rhs.data)
    ensures rhs.data == [] ==> result.cpIndexData == lhs.cpIndexData
    ensures rhs.data != [] ==> result.cpIndexData == Scan(result.data)
  {
    result := new String.Copy(lhs);
    ghost var l, r := lhs.data, rhs.data;
    var i := 0;
    while i < |rhs.data|
      invariant 0 <= i <= |rhs.data| && rhs.data == r
      invariant fresh(result)
      invariant result.data == if i == 0 then l else Content(l) + EncodeAll(r[..i]) + [0]
      invariant i == 0 ==> result.cpIndexData == lhs.cpIndexData
      invariant i > 0 ==> result.cpIndexData == Scan(result.data)
      invariant result.Valid()
    {
      ghost var before := result.data;
      var outcome := result.PushBack(rhs.data[i]);
      PlusStep(l, r, i, before, result.data);
      i := i + 1;
    }
    assert r[..i] == r;
  }
}
