# utf_str::String in Dafny

A model of `utf_str::String`, a small C++ UTF-8 string type, with proofs
about it. The string owns two vectors:

- `data`, a byte buffer that `data_push_back_null` keeps NUL-terminated;
- `cp_index_data`, the byte offset of each byte that the scan lands on and
  the classifier accepts as a leading byte. The scan jumps over the span a
  leading byte announces, so bytes inside that span are never examined,
  even ones the classifier would accept (`Properties.SpanHidesBytes`).
  When the buffer's last code point ends before the terminator, as in
  every buffer the encoder built, the index includes one entry for the
  terminator itself; a truncated last code point can swallow it
  (`Properties.TruncatedSwallowsTerminator`). Every modifier rebuilds the
  index by rescanning the buffer (`update_cp_index_vector`).

The files:

- `utf8.dfy` (module `Utf8`) covers the bytes and the encoder:
  - the leading-byte classifier `get_codepoint_length`;
  - the encoder that `push_back(uint32_t)` inlines, after the bit packing
    of RFC 3629, section 3;
  - a reference decoder, `Decode`, used to state the encoder's round trip.

  The source's shifts and masks are written as division and remainder by
  powers of two. `MaskTests` proves those tests equal the source's
  `(b & mask) == marker` tests on `bv8`.
- `cp_index.dfy` (module `CpIndex`) covers the index:
  - the scan `update_cp_index_vector` performs, as the recursive function
    `ScanFrom`;
  - an independent description of a code-point index, `IsCpIndex`;
  - the proof that the scan is the one index meeting that description;
  - what the scan yields on encoder-built buffers.
- `utf_string.dfy` (module `UtfStr`) holds class `String`:
  - the `seq` fields `data` and `cpIndexData`;
  - one method or function per member. Each state-changing method carries
    a `modifies` clause and states the new state.

  Exceptions are modelled as `Outcome` (`void` members) and `Result`
  (value-returning members). I/O is absent from the core. The source's
  pointers are offsets into `data`. Five helper methods split one source
  member each into verifiable steps and do nothing beyond it:
  - `WriteEncoding` and `PushEncodingByte`: the four accepting branches of
    `push_back(uint32_t)`;
  - `PushBytes`: the copy loop of `subtr_byte` and the inner loop of
    `subtr`;
  - `PushSpans` and `PushSpan`: the outer loop of `subtr` and one pass of
    it.
- `properties.dfy` (module `Properties`): what the members do to ASCII
  buffers and to buffers the encoder built.
- `findings.dfy` (module `Findings`): two members whose code does not do what
  they promise. Each is shown next to its evidently intended version.
- `scenarios.dfy` (module `Scenarios`): concrete scenarios, checked by the verifier. Most come from the
  demonstration driver `main.cpp`.

The model follows the code as written, including its quirks:

- `erase_byte(start, count)` and `erase(cp_start, cp_count)` treat `count`
  as an end index, not a count. Both cast their offsets through `uint8_t`
  (`% 256` here).
- The bounds check of `erase_byte` and `subtr_byte` compares
  `start + count` with the full buffer size, terminator included.
- `subtr` and `subtr_byte` never build the result's index. `Valid()`
  therefore allows an index that is either the scan of the buffer or empty.
- `operator[]` classifies the length from `data[cp_index]`, not from the
  code point's first byte.
- `operator+` re-encodes every byte of the right operand, terminator
  included.

Apart from the two members under "## Findings" (include/unicode.h:46 for
`operator[]` and include/unicode.h:54 for `operator+`), the header's
comments and the code disagree in two places, and the model follows the
code:

- At include/unicode.h:47-48, `subtr_byte` and `subtr` are said to return
  the substring "from index start to count". The code at
  src/unicode.cpp:189 and src/unicode.cpp:204 instead copies `count` units
  starting at `start`.
- At include/unicode.h:40, `push_back(const char*)` is said to push back
  "a unicode character". The code at src/unicode.cpp:37-44 pushes every
  byte of the C string up to its NUL, however many code points they hold
  (`main.cpp` pushes "♫♫♫" that way).

## Model

| member | source | states |
|---|---|---|
| Utf8.CodepointLength | src/unicode.cpp:299-318 | The result is 1 exactly for 0xxxxxxx, 2 exactly for 110xxxxx, 3 exactly for 1110xxxx, 4 exactly for 11110xxx, and 0 exactly for continuation bytes and bytes from 0xF8 on; it is never above 4 |
| Utf8.MaskTests | src/unicode.cpp:302-313 | The top-bits tests of the model agree with the source's `&` masks 0x80, 0xE0, 0xF0 and 0xF8 on every byte |
| Utf8.Encode | src/unicode.cpp:56-73 | An accepted code point yields 1, 2, 3 or 4 bytes for values up to 0x7F, 0x7FF, 0xFFFF and 0x10FFFF |
| Utf8.EncodeRoundTrip | src/unicode.cpp:49-73 | The leading byte's classified length equals the number of bytes emitted, every later byte is 10xxxxxx, and reassembling the payload bits gives back the code point |
| Utf8.EncodeInjective | src/unicode.cpp:56-73 | Distinct accepted code points never share an encoding |
| Utf8.EncodeAll | src/unicode.cpp:262-270 | Encoding a sequence of code points one after the other never yields fewer bytes than code points |
| Utf8.EncodeAllAppend | src/unicode.cpp:262-270 | Encoding two sequences in turn gives the joined encodings |
| Utf8.EncodeAllSnoc | src/unicode.cpp:265-267 | Encoding one more code point appends exactly its encoding |
| Utf8.EncodeAllSplit | src/unicode.cpp:262-270 | The encoding of a sequence splits at any code point into the encodings of the two parts |
| Utf8.EncodeAllAscii | src/unicode.cpp:56-58 | Bytes below 0x80 taken as code points encode as themselves |
| Utf8.EncodeAllNoNul | src/unicode.cpp:56-73 | The encoding of non-zero code points holds no 0 byte |
| CpIndex.ScanFrom | src/unicode.cpp:86-113 | Scanning from a cursor inside the buffer records no more entries than there are bytes left |
| CpIndex.ScanStep | src/unicode.cpp:89-112 | One pass of the loop: a leading byte is recorded and skipped by its length; a rejected byte is skipped alone and not recorded |
| CpIndex.ScanIsCpIndex | include/unicode.h:23 | The scan is a code-point index: every entry is a recognised leading byte, each entry's span ends before the next entry, and every byte stepped over between spans is one the classifier rejects |
| CpIndex.CpIndexUnique | include/unicode.h:23 | Any index meeting that description equals the scan, so the description determines the index |
| CpIndex.CpIndexSkip | src/unicode.cpp:110-112 | A rejected byte at the start of the range cannot be an entry of such an index |
| CpIndex.CpIndexRecord | src/unicode.cpp:91-109 | A leading byte at the start of the range must be the first entry, and the rest index what follows its span |
| CpIndex.ScanBounds | src/unicode.cpp:86-113 | Every entry lies in the buffer, at or after the cursor, at a byte with non-zero classified length |
| CpIndex.ScanWithin | include/unicode.h:23 | Every entry is an offset into the buffer |
| CpIndex.ScanIncreasing | include/unicode.h:23 | Entries are strictly increasing, in left-to-right order |
| CpIndex.ScanOrdered | src/unicode.cpp:86-113 | The span each entry's leading byte announces ends at or before any later entry |
| CpIndex.ScanGaps | src/unicode.cpp:110-112 | Every byte the scan steps over without recording it is rejected by the classifier |
| CpIndex.ScanGapsSkip | src/unicode.cpp:110-112 | Skipping a rejected byte keeps the gap property |
| CpIndex.ScanGapsRecord | src/unicode.cpp:91-109 | Recording a leading byte keeps the gap property |
| CpIndex.ScanNonEmpty | src/unicode.cpp:86-113 | On a terminated buffer the scan yields at least one entry from any cursor, so the index is never empty |
| CpIndex.Boundaries | src/unicode.cpp:86-113 | The boundaries of encoded code points number one more than the code points and start at the offset |
| CpIndex.BoundaryAt | src/unicode.cpp:86-113 | Boundary k lies after the bytes of the first k encodings |
| CpIndex.ScanEncodedFrom | src/unicode.cpp:86-113 | On an encoder-built tail ending in the terminator, the scan records exactly the code-point starts and the terminator's position |
| CpIndex.EncodeLeading | src/unicode.cpp:89-109 | The first byte of every encoding announces its length |
| CpIndex.EncodedScan | src/unicode.cpp:86-113 | For a buffer the encoder built, the index has one entry per code point plus the terminator, and the last entry is the content size |
| CpIndex.EncodedSlice | src/unicode.cpp:199-224 | Between index entries a and b of an encoder-built buffer lie exactly the encodings of code points a to b |
| CpIndex.BoundarySlice | src/unicode.cpp:199-224 | Between boundaries a and b lie exactly the encodings of code points a to b |
| UtfStr.Content | src/unicode.cpp:249-260 | A terminated buffer is its content followed by one 0; any other buffer is its own content |
| UtfStr.UntilNul | src/unicode.cpp:37-44 | A `while (*str)` loop reads a prefix of the C string that holds no 0 and stops at the first 0 |
| UtfStr.UntilNulAt | src/unicode.cpp:38-41 | The bytes read are exactly those before the first 0 |
| UtfStr.PushStep | src/unicode.cpp:38-41 | Pushing the next byte of a source onto a buffer holding c0 and the bytes before it extends the copy by that byte and keeps it terminated |
| UtfStr.EraseSpan | src/unicode.cpp:151 | vector::erase of [first, last) shortens the buffer by last − first, keeps the bytes before first, and shifts the rest down |
| UtfStr.ContentOfTerminated | src/unicode.cpp:249-260 | Dropping the terminator of a terminated buffer gives back its content |
| UtfStr.ToVec | src/unicode.cpp:7-20 | to_vec gives nothing for an empty reference, otherwise the referenced bytes and a trailing 0 |
| UtfStr.String.constructor | include/unicode.h:31 | A default string has an empty buffer and an empty index |
| UtfStr.String.Copy | src/unicode.cpp:263 | The copy of a valid string is valid and has the same buffer and index as the original |
| UtfStr.String.FromCStr | src/unicode.cpp:33-35 | Constructing from a C string stores its bytes before the first NUL, then one 0, or nothing when there are none; the index is the scan |
| UtfStr.String.DataPushBackNull | src/unicode.cpp:249-260 | The new buffer is the old content followed by c and 0; it grows by 1 when the old buffer ended in 0, otherwise by 2 |
| UtfStr.String.UpdateCpIndexVector | src/unicode.cpp:81-115 | The scan leaves the buffer alone and makes the index the scan of the buffer, with every entry inside the buffer |
| UtfStr.String.SizeByte | src/unicode.cpp:132-134 | size_byte is the position of the terminator: the bytes before it are the content |
| UtfStr.String.Length | src/unicode.cpp:136-138 | length, one less than the number of index entries, never exceeds size_byte on a valid string; it is the number of code points when the last one ends before the terminator (Properties.EncodedLength) |
| UtfStr.String.Empty | src/unicode.cpp:140-142 | empty holds exactly when the buffer has no bytes |
| UtfStr.String.CStr | src/unicode.cpp:240-247 | c_str is none exactly for an empty buffer; otherwise it is offset 0, on a valid string the buffer from there ends in 0, and when the content holds no 0 a C reader from that offset reads exactly the content |
| UtfStr.CStrReads | include/unicode.h:25 | A terminated buffer whose content holds no 0 is read by a C reader up to, and not including, its terminator |
| UtfStr.String.Clear | src/unicode.cpp:144-147 | After clear, both buffer and index are empty |
| UtfStr.String.PushBackCStr | src/unicode.cpp:37-44 | The bytes of the argument before its first NUL are appended to the content in order and terminated, nothing changes when there are none, and the index is rebuilt once |
| UtfStr.String.PushBack | src/unicode.cpp:46-79 | It throws invalid_argument exactly above 0x10FFFF, and then changes neither buffer nor index; otherwise the content gains the code point's encoding, the buffer stays terminated and the index is rescanned |
| UtfStr.String.WriteEncoding | src/unicode.cpp:54-73 | The accepting branches leave the old content, then the encoding, then one 0 |
| UtfStr.String.PushEncodingByte | src/unicode.cpp:56-73 | Each data_push_back_null of push_back(uint32_t) extends the content by the next byte of the encoding |
| UtfStr.String.EraseByte | src/unicode.cpp:149-157 | It throws out_of_range exactly when start + count reaches the buffer size, and then leaves the string unchanged; otherwise it erases [start mod 256, count mod 256) and rescans |
| UtfStr.String.Erase | src/unicode.cpp:159-169 | It throws out_of_range exactly when cp_start + cp_count exceeds length(), and then leaves the string unchanged; otherwise it erases the bytes from entry cp_start to entry cp_count, both truncated mod 256, and rescans |
| UtfStr.String.At | src/unicode.cpp:172-182 | It throws out_of_range exactly when the index is at or past length(); otherwise the reference starts at the code point's entry, inside the content, and its length is classified from data[cp_index] |
| UtfStr.String.Front | src/unicode.cpp:272-277 | front spans from the first entry to the second, is non-empty and lies in the content |
| UtfStr.String.Back | src/unicode.cpp:279-297 | back starts at the last code point's entry and runs, non-empty, up to size_byte, leaving out the terminator |
| UtfStr.String.PushBytes | src/unicode.cpp:188-190 | Copying src[from..to] byte by byte onto a copy of src[lo..from] gives a copy of src[lo..to] followed by 0 |
| UtfStr.String.SubtrByte | src/unicode.cpp:185-197 | It throws runtime_error exactly when start + count reaches the buffer size; otherwise it returns a new string holding data[start..start + count) and a 0, or nothing for count 0, with an empty index |
| UtfStr.String.Subtr | src/unicode.cpp:199-224 | It throws runtime_error exactly when cp_start + cp_count exceeds length(); otherwise it returns a new string holding the bytes of the selected code points and a 0, with an empty index |
| UtfStr.String.PushSpans | src/unicode.cpp:204-218 | Copying code point after code point, each from its entry to the next, gives the bytes of the selected code points, terminated |
| UtfStr.String.PushSpan | src/unicode.cpp:206-217 | One pass pushes the bytes of code point i, from its entry to the next, after those already copied, and the copy stays inside the buffer |
| UtfStr.SubtrSpan | src/unicode.cpp:206-211 | The entries subtr reads in one pass are ordered and inside the buffer, so cp_index_data[i+1] is in range |
| UtfStr.CpSlice | src/unicode.cpp:199-224 | The selected bytes are empty exactly when no code point is selected, and otherwise end in 0 |
| UtfStr.PlusStep | src/unicode.cpp:265-267 | One pass of operator+ appends the encoding of the next rhs byte to the content |
| UtfStr.Plus | src/unicode.cpp:262-270 | The result is new and leaves both operands alone. It is lhs when rhs is empty; otherwise it is lhs's content followed by the encoding of every rhs byte, terminator included, with the index rescanned |
| Properties.TruncatedSwallowsTerminator | src/unicode.cpp:89-112 | "a" followed by the truncated leading byte 0xE0 is indexed 0, 1: the terminator gets no entry, so length() is 1 |
| Properties.SpanHidesBytes | src/unicode.cpp:102-105 | After the leading byte 0xE0 the scan jumps three bytes, so 'a' and the terminator get no entry: the index of E0 61 00 is just 0 |
| Properties.EmptyIffNoIndex | src/unicode.cpp:140-142 | For a valid string indexed by its scan, empty() holds exactly when the index is empty |
| Properties.CStrEncoded | src/unicode.cpp:240-247 | For a string the encoder built from non-zero code points, c_str() is offset 0 and a C reader from it reads exactly the encoding |
| Properties.ScanAsciiFrom | src/unicode.cpp:86-113 | An ASCII-only buffer gets one entry per byte |
| Properties.AsciiSizeByteIsLength | include/unicode.h:34-35 | For ASCII-only content, size_byte() equals length() |
| Properties.EncodedLength | include/unicode.h:34-35 | An encoder-built string has as many code points as were encoded and as many content bytes as their encodings |
| Properties.SubtrEncoded | src/unicode.cpp:199-224 | On an encoder-built buffer, subtr returns exactly the encodings of the selected code points and a 0 |
| Properties.SubtrWholeEncoded | src/unicode.cpp:199-224 | subtr(0, length()) of a non-empty encoder-built string returns its whole buffer |
| Properties.PushBackThenAtZero | src/unicode.cpp:172-182 | push_back(c) on an empty string, then operator[](0): the reference covers the whole encoding and decodes back to c |
| Properties.EncodedEnds | src/unicode.cpp:272-297 | On an encoder-built string, front spans the first code point's encoding, and back's size_byte() − start is the last code point's encoding length |
| Properties.EncodedCut | src/unicode.cpp:159-169 | The bytes before an entry encode the code points before it; the bytes from it on encode the rest and the terminator |
| Properties.EraseEncoded | src/unicode.cpp:159-169 | On an encoder-built buffer under 256 bytes, with a ≤ b ≤ length(), the byte cut erase(a, b) makes removes exactly code points a to b − 1, and length() drops by b − a; erase reaches that cut only when a + b ≤ length(), and otherwise throws out_of_range and removes nothing |
| Findings.AtMisreportsLength | src/unicode.cpp:176-178 | For "éa", operator[](1) as written returns start 2 with length 0; the intended reference has length 1 |
| Findings.AtOverruns | src/unicode.cpp:176-178 | For "é😀a", operator[](2) as written returns start 6 with length 4, past the end of the 8-byte buffer, so to_vec would read out of bounds; the intended reference has length 1 |
| Findings.CodePointAt | src/unicode.cpp:172-182 | Intended operator[]: out_of_range exactly past length(); otherwise a non-empty reference from the code point's entry that ends at or before the next entry |
| Findings.SpanBeforeNext | include/unicode.h:23 | An entry's announced span is non-empty and ends at or before the next entry |
| Findings.CodePointAtEncoded | src/unicode.cpp:172-182 | On an encoder-built string the intended reference covers exactly the code point's encoding |
| Findings.PlusAsWrittenExtraNul | src/unicode.cpp:262-270 | "a" + "b" as written gives 61 62 00 00, with a 0 before the terminator; the intended result is 61 62 00 |
| Findings.PlusAsWrittenReencodes | src/unicode.cpp:262-270 | "" + "é" as written gives C3 83 C2 A9 00 00, re-encoding each byte; the intended result is C3 A9 00 |
| Findings.PlusAsWrittenEncoded | src/unicode.cpp:262-270 | As written, the result encodes lhs's code points and then every rhs byte, its terminator included, each as one code point |
| Findings.Concatenation | include/unicode.h:54 | The intended concatenation of terminated buffers is terminated; its content is lhs's content followed by rhs's content, and it is lhs when rhs has no content |
| Findings.ConcatenationIdentity | include/unicode.h:54 | For every terminated buffer, the empty string is an identity on the right, and on the left up to the content (exactly when the buffer has content); as written only the right side holds |
| Findings.ConcatIntended | include/unicode.h:54 | Copying lhs, pushing rhs's content byte by byte with data_push_back_null and rescanning gives the intended concatenation, valid and indexed by its scan |
| Findings.PushAll | src/unicode.cpp:249-260 | data_push_back_null of every byte of tail in turn appends tail to the content and keeps one terminator; an empty tail changes nothing |
| Findings.ConcatenationEncoded | include/unicode.h:54 | Intended concatenation of any two encoder-built strings encodes the joined code points, so their lengths add up |
| Scenarios.CStrOf | src/unicode.cpp:37-44 | A C string literal's bytes are read up to the NUL the compiler adds |
| Scenarios.LinuxEncoded | main.cpp:29 | The encoder turns U+5229 U+7EB3 U+514B U+65AF into the bytes of "利纳克斯" |
| Scenarios.LinuxScan | main.cpp:29 | The index of "利纳克斯" is 0, 3, 6, 9, 12 |
| Scenarios.NewLinux | main.cpp:29 | Constructing "利纳克斯" stores its bytes and that index |
| Scenarios.LinuxAt | main.cpp:39 | str_2[3] is "斯": start 9, length 3, both as written and as intended; to_vec gives E6 96 AF 00 |
| Scenarios.LinuxFrontBack | src/unicode.cpp:272-297 | front and back of "利纳克斯" (standing in for main.cpp's str_frontback) are (0, 3) and (9, 3) |
| Scenarios.LinuxSubtr | src/unicode.cpp:199-224 | subtr(1, 2) of "利纳克斯" holds the bytes of "纳克" and a 0, with an empty index |
| Scenarios.LinuxClear | main.cpp:105-109 | On "利纳克斯" (standing in for str_frontback), empty() is false before clear() and true after it |
| Scenarios.HelloErase | main.cpp:114-122 | "你好", then push_back("!") three times, then erase(0, 2) leaves "!!!" |
| Scenarios.HelloEncoded | main.cpp:114-119 | The encoder produces the bytes of "你好!!!" |
| Scenarios.HelloErased | main.cpp:122 | The encoding of the code points left after erasing the first two is "!!!" |
| Scenarios.HelloAscii | main.cpp:14 | "Hello ASCII" has size_byte() 11 and length() 11 |
| Scenarios.PushBackCodePoints | main.cpp:17-23 | push_back of 0x48, 0x65, 0x6C34, 0x2112 and 0x262D, then push_back("♫♫♫"), gives the bytes of "He水ℒ☭♫♫♫" and a 0, and length 8 |
| Scenarios.PushFive | main.cpp:17-22 | The five code-point pushes give 48 65 E6 B0 B4 E2 84 92 E2 98 AD and a 0, indexed by its scan |
| Scenarios.PushEncoded | src/unicode.cpp:46-79 | push_back(cp) onto a valid string holding c leaves c, the encoding of cp and a 0, and rebuilds the index as the scan of that buffer |
| Scenarios.Str1Encoded | main.cpp:17-23 | The encoder turns the eight code points of "He水ℒ☭♫♫♫" into its bytes |
| Scenarios.PushBackOutOfRange | src/unicode.cpp:68-76 | push_back(0x110000), one past the last code point, throws invalid_argument and leaves 48 00 as it was |
| Scenarios.ConcatTest | main.cpp:89-91 | "test" + " weee" as written holds a 0 before its terminator |
| Scenarios.ConcatTestIntended | main.cpp:89-91 | The intended concatenation of "test" and " weee" is "test weee" and one 0 |

## Left out

- Stream I/O is left out, because it is formatting only: `operator<<` for `String` and for `code_point_ref`, `operator>>`, `debug_print` and `debug_print_hex`.
- `main.cpp` is left out as a program. Only some of its calls appear, in `Scenarios`. The long Cyrillic and Latin test strings are left out (front, back and clear are shown on "利纳克斯" instead of `str_frontback`), and so is the second concatenation with `" wooo"`.
- `code_point_ref::ptr` and `c_str()` return addresses. The model uses offsets into `data`, so it captures no aliasing and no invalidation of a reference by a later modifier.
- `size_t` arithmetic is unbounded here. The wrap-around of `start + count` and `cp_start + cp_count` near `SIZE_MAX` is not modelled. Nor is `operator+`'s `int` loop counter passing `INT_MAX`.
- UtfStr.String.SizeByte: requires a non-empty buffer, because `data.size() - 1` wraps around on an empty one and the result is meaningless.
- UtfStr.String.Length: requires a non-empty index, because `cp_index_data.size() - 1` wraps around on an empty one.
- UtfStr.String.Front: requires at least one code point, because otherwise `cp_index_data[1]` is out of bounds (undefined behaviour).
- UtfStr.String.Back: requires at least one code point, because otherwise `length() - 1` wraps around and the index access is undefined behaviour.
- UtfStr.String.EraseByte: requires the truncated begin not to lie after the truncated end when the range check passes, because `vector::erase` with reversed iterators is undefined behaviour.
- UtfStr.String.Erase: requires a non-empty index, because `length()` wraps around on an empty one and `cp_index_data[cp_start]` is then out of bounds; and requires the truncated begin not to lie after the truncated end when the range check passes, for the same reason as `EraseByte`.
- UtfStr.ToVec: requires the reference to lie inside the buffer, because copying past its end is undefined behaviour; the as-written `operator[]` can return such a reference (`Findings.AtOverruns`).
- UtfStr.String.At: requires a non-empty index, because `length()` wraps around on an empty one.
- UtfStr.String.Subtr: requires a non-empty index, for the same reason.
- UtfStr.String.PushBackCStr: requires a terminated buffer, which every string keeps.
- No UTF-8 validation beyond the leading-byte classifier is modelled, because the code does none: overlong forms, surrogates and missing continuation bytes are all accepted.

## Findings

| source | as written | input that shows it | evidently intended | confidence | as-written member | corrected member |
|---|---|---|---|---|---|---|
| src/unicode.cpp:176-178 | operator[] takes the reference's length from `get_codepoint_length(data[cp_index])`, using the code-point number as a byte offset | buffer C3 A9 61 00 ("éa"), `operator[](1)`: start 2, length 0; buffer C3 A9 F0 9F 98 80 61 00 ("é😀a"), `operator[](2)`: start 6, length 4, past the end of the buffer | length from `data[cp_index_data[cp_index]]`, here 1 | high, not executed | Findings.AtMisreportsLength | Findings.CodePointAt |
| src/unicode.cpp:262-270 | operator+ calls `push_back(uint32_t)` on every byte of `rhs.data`, its terminator included | "a" + "b" gives 61 62 00 00; "" + "é" gives C3 83 C2 A9 00 00 | lhs's content, then rhs's content, then one 0; lhs itself when rhs has no content | high, not executed | Findings.PlusAsWrittenExtraNul | Findings.ConcatIntended |
