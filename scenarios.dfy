/** Scenarios modelled after the repository's demonstration driver,
    main.cpp, written as methods whose postconditions give the bytes and
    offsets it prints; front(), back() and clear() are shown on "利纳克斯"
    rather than on the driver's longer str_frontback, and the rejected code
    point 0x110000 is an added case. */
module Scenarios {
  import opened Utf8
  import opened CpIndex
  import opened UtfStr
  import opened Findings
  import opened Properties

  /** A C string literal: its bytes, then the NUL the compiler adds. */
  lemma CStrOf(c: seq<Byte>)
    requires NoNul(c)
    ensures UntilNul(c + [0]) == c
  {
    UntilNulAt(c + [0], |c|);
    assert (c + [0])[..|c|] == c;
  }

  /** "利纳克斯" as a C string: U+5229 U+7EB3 U+514B U+65AF, then the NUL. */
  const Linux: seq<Byte> := [0xE5, 0x88, 0xA9, 0xE7, 0xBA, 0xB3, 0xE5, 0x85, 0x8B, 0xE6, 0x96, 0xAF, 0]

  /** The encoder produces those bytes. */
  lemma LinuxEncoded()
    ensures AllScalars([0x5229, 0x7EB3, 0x514B, 0x65AF])
    ensures EncodeAll([0x5229, 0x7EB3, 0x514B, 0x65AF]) + [0] == Linux
  {
    EncodeFour(0x5229, 0x7EB3, 0x514B, 0x65AF);
    LinuxEncodings();
  }

  lemma LinuxEncodings()
    ensures Encode(0x5229) + Encode(0x7EB3) + Encode(0x514B) + Encode(0x65AF) + [0] == Linux
  {
    Encode3(0x5229, 0x5, 0x08, 0x29);
    Encode3(0x7EB3, 0x7, 0x3A, 0x33);
    Encode3(0x514B, 0x5, 0x05, 0x0B);
    Encode3(0x65AF, 0x6, 0x16, 0x2F);
  }

  /** Four code points encode one after the other. */
  lemma EncodeFour(a: nat, b: nat, c: nat, d: nat)
    requires a <= MaxCodePoint && b <= MaxCodePoint && c <= MaxCodePoint && d <= MaxCodePoint
    ensures AllScalars([a, b, c, d])
    ensures EncodeAll([a, b, c, d]) == Encode(a) + Encode(b) + Encode(c) + Encode(d)
  {
    var cps := [a, b, c, d];
    assert EncodeAll(cps[3..]) == Encode(d) + EncodeAll([]);
    assert EncodeAll(cps[2..]) == Encode(c) + EncodeAll(cps[3..]);
    assert EncodeAll(cps[1..]) == Encode(b) + EncodeAll(cps[2..]);
  }

  /** The three-byte form, from the code point's three 4-, 6- and 6-bit
      groups. */
  lemma Encode3(cp: nat, a: nat, b: nat, c: nat)
    requires 0x800 <= cp <= 0xFFFF && b < 64 && c < 64 && cp == a * 4096 + b * 64 + c
    ensures Encode(cp) == [0xE0 + a, 0x80 + b, 0x80 + c]
  {
    DivMod64(cp, a * 64 + b, c);
    DivMod64(a * 64 + b, a, b);
  }

  /** Read as a C string, it holds twelve bytes before the NUL. */
  lemma LinuxCStr()
    ensures UntilNul(Linux) != [] && UntilNul(Linux) + [0] == Linux
  {
    UntilNulAt(Linux, 12);
    assert Linux[..12] + [0] == Linux;
  }

  /** Its index: the starts of the four code points and the terminator. */
  lemma LinuxScan()
    ensures Scan(Linux) == [0, 3, 6, 9, 12]
  {
    var d := Linux;
    assert ScanFrom(d, 12) == [12] + ScanFrom(d, 13);
    assert ScanFrom(d, 9) == [9] + ScanFrom(d, 12);
    assert ScanFrom(d, 6) == [6] + ScanFrom(d, 9);
    assert ScanFrom(d, 3) == [3] + ScanFrom(d, 6);
    assert ScanFrom(d, 0) == [0] + ScanFrom(d, 3);
  }

  /** Constructing from it stores the bytes and indexes the four code points
      and the terminator. */
  method NewLinux() returns (s: String)
    ensures fresh(s) && s.Valid()
    ensures s.data == Linux && s.cpIndexData == [0, 3, 6, 9, 12]
  {
    LinuxCStr();
    s := new String.FromCStr(Linux);
    LinuxScan();
  }

  /** str_2[3] is "斯": the reference starts at byte 9 and has length 3 (the
      byte data[3] happens to be a 3-byte leading byte too), and to_vec
      gives its bytes and a 0. */
  method LinuxAt() returns (r: Result<CodePointRef>, intended: Result<CodePointRef>, bytes: seq<Byte>)
    ensures r == Ok(CodePointRef(9, 3)) && intended == r
    ensures bytes == [0xE6, 0x96, 0xAF, 0]
  {
    var s := NewLinux();
    r := s.At(3);
    intended := CodePointAt(s, 3);
    bytes := ToVec(s.data, r.value);
    LinuxSlices();
  }

  /** The bytes of "斯", and of "纳克". */
  lemma LinuxSlices()
    ensures Linux[9..12] == [0xE6, 0x96, 0xAF]
    ensures Linux[3..9] == [0xE7, 0xBA, 0xB3, 0xE5, 0x85, 0x8B]
  {
  }

  /** front() and back() of "利纳克斯": the first and the last code point. */
  method LinuxFrontBack() returns (front: CodePointRef, back: CodePointRef)
    ensures front == CodePointRef(0, 3) && back == CodePointRef(9, 3)
  {
    var s := NewLinux();
    front := s.Front();
    back := s.Back();
  }

  /** subtr(1, 2) of "利纳克斯" is "纳克"; the copy's index stays empty. */
  method LinuxSubtr() returns (r: Result<String>)
    ensures r.Ok? && r.value.data == [0xE7, 0xBA, 0xB3, 0xE5, 0x85, 0x8B, 0] && r.value.cpIndexData == []
  {
    var s := NewLinux();
    r := s.Subtr(1, 2);
    LinuxSlices();
  }

  /** clear() on a non-empty string leaves it empty. */
  method LinuxClear() returns (before: bool, after: bool)
    ensures !before && after
  {
    var s := NewLinux();
    before := s.Empty();
    s.Clear();
    after := s.Empty();
  }

  /** "你好" and "!", the bytes before the NUL. */
  const Nihao: seq<Byte> := [0xE4, 0xBD, 0xA0, 0xE5, 0xA5, 0xBD]
  const Bang: seq<Byte> := [0x21]

  /** The code points of "你好!!!". */
  const HelloCps: seq<nat> := [0x4F60, 0x597D, 0x21, 0x21, 0x21]

  /** "你好", then push_back("!") three times, then erase(0, 2): "!!!". */
  method HelloErase() returns (r: Outcome, content: seq<Byte>)
    ensures r == Done && content == [0x21, 0x21, 0x21, 0]
  {
    assert NoNul(Nihao) && NoNul(Bang);
    CStrOf(Nihao);
    CStrOf(Bang);
    var hello := new String.FromCStr(Nihao + [0]);
    hello.PushBackCStr(Bang + [0]);
    ContentOfTerminated(Nihao);
    hello.PushBackCStr(Bang + [0]);
    ContentOfTerminated(Nihao + Bang);
    hello.PushBackCStr(Bang + [0]);
    ContentOfTerminated(Nihao + Bang + Bang);
    HelloEncoded();
    EraseEncoded(HelloCps, 0, 2);
    r := hello.Erase(0, 2);
    HelloErased();
    content := hello.data;
  }

  /** The encoder produces the bytes of "你好!!!". */
  lemma HelloEncoded()
    ensures AllScalars(HelloCps)
    ensures EncodeAll(HelloCps) == Nihao + Bang + Bang + Bang
  {
    var head: seq<nat> := [0x4F60, 0x597D];
    var tail: seq<Byte> := [0x21, 0x21, 0x21];
    EncodeAllAscii(tail);
    EncodeTwo(0x4F60, 0x597D);
    Encode3(0x4F60, 0x4, 0x3D, 0x20);
    Encode3(0x597D, 0x5, 0x25, 0x3D);
    EncodeAllAppend(head, tail);
    assert head + tail == HelloCps;
  }

  /** What is left of them after the first two are erased. */
  lemma HelloErased()
    ensures AllScalars(HelloCps[..0] + HelloCps[2..])
    ensures EncodeAll(HelloCps[..0] + HelloCps[2..]) + [0] == [0x21, 0x21, 0x21, 0]
  {
    var tail: seq<Byte> := [0x21, 0x21, 0x21];
    assert HelloCps[..0] + HelloCps[2..] == tail;
    EncodeAllAscii(tail);
  }

  /** Two code points encode one after the other. */
  lemma EncodeTwo(a: nat, b: nat)
    requires a <= MaxCodePoint && b <= MaxCodePoint
    ensures AllScalars([a, b])
    ensures EncodeAll([a, b]) == Encode(a) + Encode(b)
  {
    assert EncodeAll([a, b][1..]) == Encode(b) + EncodeAll([]);
  }

  /** "Hello ASCII", the bytes before the NUL. */
  const HelloAsciiText: seq<Byte> := [0x48, 0x65, 0x6C, 0x6C, 0x6F, 0x20, 0x41, 0x53, 0x43, 0x49, 0x49]

  lemma HelloAsciiFacts()
    ensures |HelloAsciiText| == 11 && IsAscii(HelloAsciiText + [0]) && NoNul(HelloAsciiText)
  {
  }

  /** "Hello ASCII": eleven code points in eleven bytes. */
  method HelloAscii() returns (size: nat, len: nat)
    ensures size == 11 && len == 11
  {
    HelloAsciiFacts();
    CStrOf(HelloAsciiText);
    var s := new String.FromCStr(HelloAsciiText + [0]);
    AsciiSizeByteIsLength(s);
    size := s.SizeByte();
    len := s.Length();
  }

  /** "♫♫♫" (U+266B three times), the bytes before the NUL. */
  const Notes: seq<Byte> := [0xE2, 0x99, 0xAB, 0xE2, 0x99, 0xAB, 0xE2, 0x99, 0xAB]

  /** The code points of str_1: "He水ℒ☭" then "♫♫♫". */
  const Str1Cps: seq<nat> := [0x48, 0x65, 0x6C34, 0x2112, 0x262D, 0x266B, 0x266B, 0x266B]

  /** The bytes of "He水ℒ☭♫♫♫" and the terminator. */
  const Str1: seq<Byte> := Str1Prefix + Notes + [0]

  /** The bytes of "He水ℒ☭". */
  const Str1Prefix: seq<Byte> := [0x48, 0x65, 0xE6, 0xB0, 0xB4, 0xE2, 0x84, 0x92, 0xE2, 0x98, 0xAD]

  /** str_1: push_back("♫♫♫") onto "He水ℒ☭" appends nine bytes, and the
      result holds eight code points. */
  method PushBackCodePoints() returns (content: seq<Byte>, len: nat)
    ensures content == Str1 && len == 8
  {
    var s := PushFive();
    assert NoNul(Notes);
    CStrOf(Notes);
    s.PushBackCStr(Notes + [0]);
    ContentOfTerminated(Str1Prefix);
    assert s.data == Str1;
    Str1Encoded();
    EncodedLength(s, Str1Cps);
    content := s.data;
    len := s.Length();
  }

  /** push_back of 0x48, 0x65, 0x6C34, 0x2112 and 0x262D onto an empty
      string appends one, one and three times three bytes; the index is the
      scan of the result. */
  method PushFive() returns (s: String)
    ensures fresh(s) && s.Valid() && s.data == Str1Prefix + [0] && s.cpIndexData == Scan(s.data)
  {
    Str1Encodings();
    s := new String();
    var r := s.PushBack(0x48);
    PushEncoded(s, 0x65, [0x48], [0x65]);
    PushEncoded(s, 0x6C34, [0x48, 0x65], [0xE6, 0xB0, 0xB4]);
    PushEncoded(s, 0x2112, [0x48, 0x65, 0xE6, 0xB0, 0xB4], [0xE2, 0x84, 0x92]);
    PushEncoded(s, 0x262D, [0x48, 0x65, 0xE6, 0xB0, 0xB4, 0xE2, 0x84, 0x92], [0xE2, 0x98, 0xAD]);
  }

  /** push_back(cp) onto a string holding c appends e, the encoding of cp,
      and rescans the index. */
  method PushEncoded(s: String, cp: Uint32, ghost c: seq<Byte>, ghost e: seq<Byte>)
    requires s.Valid() && s.data == c + [0] && cp <= MaxCodePoint && Encode(cp) == e
    modifies s
    ensures s.Valid() && s.data == c + e + [0] && s.cpIndexData == Scan(s.data)
  {
    var r := s.PushBack(cp);
    ContentOfTerminated(c);
  }

  lemma Str1Encodings()
    ensures Encode(0x48) == [0x48] && Encode(0x65) == [0x65]
    ensures Encode(0x6C34) == [0xE6, 0xB0, 0xB4]
    ensures Encode(0x2112) == [0xE2, 0x84, 0x92]
    ensures Encode(0x262D) == [0xE2, 0x98, 0xAD]
    ensures Encode(0x266B) == [0xE2, 0x99, 0xAB]
  {
    Encode3(0x6C34, 0x6, 0x30, 0x34);
    Encode3(0x2112, 0x2, 0x04, 0x12);
    Encode3(0x262D, 0x2, 0x18, 0x2D);
    Encode3(0x266B, 0x2, 0x19, 0x2B);
  }

  /** The encoder produces those bytes from those code points. */
  lemma Str1Encoded()
    ensures AllScalars(Str1Cps) && EncodeAll(Str1Cps) + [0] == Str1
  {
    var h: seq<nat> := [0x48, 0x65, 0x6C34, 0x2112];
    var t: seq<nat> := [0x262D, 0x266B, 0x266B, 0x266B];
    Str1Head(h);
    Str1Tail(t);
    EncodeAllAppend(h, t);
    assert h + t == Str1Cps;
    Str1Bytes();
  }

  lemma Str1Bytes()
    ensures [0x48, 0x65, 0xE6, 0xB0, 0xB4, 0xE2, 0x84, 0x92] + ([0xE2, 0x98, 0xAD] + Notes) + [0] == Str1
  {
  }

  lemma Str1Head(h: seq<nat>)
    requires h == [0x48, 0x65, 0x6C34, 0x2112]
    ensures AllScalars(h) && EncodeAll(h) == [0x48, 0x65, 0xE6, 0xB0, 0xB4, 0xE2, 0x84, 0x92]
  {
    EncodeFour(0x48, 0x65, 0x6C34, 0x2112);
    Str1Encodings();
  }

  lemma Str1Tail(t: seq<nat>)
    requires t == [0x262D, 0x266B, 0x266B, 0x266B]
    ensures AllScalars(t) && EncodeAll(t) == [0xE2, 0x98, 0xAD] + Notes
  {
    EncodeFour(0x262D, 0x266B, 0x266B, 0x266B);
    Str1Encodings();
  }

  /** push_back(0x110000), one past the last code point, throws
      invalid_argument and leaves the string as it was. */
  method PushBackOutOfRange() returns (r: Outcome, content: seq<Byte>)
    ensures r == Throw(InvalidArgument) && content == [0x48, 0]
  {
    var s := new String();
    var r1 := s.PushBack(0x48);
    r := s.PushBack(0x110000);
    content := s.data;
  }

  /** "test" and " weee", the bytes before the NUL. */
  const Test: seq<Byte> := [0x74, 0x65, 0x73, 0x74]
  const Weee: seq<Byte> := [0x20, 0x77, 0x65, 0x65, 0x65]

  /** "test" + " weee": as written, every byte of the right operand,
      its terminator included, is pushed as a code point, so the result
      holds a 0 before its terminator; the intended concatenation does
      not. */
  method ConcatTest() returns (content: seq<Byte>)
    ensures content == [0x74, 0x65, 0x73, 0x74, 0x20, 0x77, 0x65, 0x65, 0x65, 0, 0]
  {
    assert NoNul(Test) && NoNul(Weee) && IsAscii(Weee + [0]);
    CStrOf(Test);
    CStrOf(Weee);
    var lhs := new String.FromCStr(Test + [0]);
    var rhs := new String.FromCStr(Weee + [0]);
    var result := Plus(lhs, rhs);
    ContentOfTerminated(Test);
    EncodeAllAscii(Weee + [0]);
    content := result.data;
  }

  method ConcatTestIntended() returns (content: seq<Byte>)
    ensures content == [0x74, 0x65, 0x73, 0x74, 0x20, 0x77, 0x65, 0x65, 0x65, 0]
  {
    assert NoNul(Test) && NoNul(Weee);
    CStrOf(Test);
    CStrOf(Weee);
    var lhs := new String.FromCStr(Test + [0]);
    var rhs := new String.FromCStr(Weee + [0]);
    var result := ConcatIntended(lhs, rhs);
    ContentOfTerminated(Test);
    content := result.data;
  }
}
