/**
 * Byte-at-a-time decoders (fhtagn/text/decoders.h).
 *
 * Each decoder struct is a small state machine: `append` feeds one byte,
 * `have_full_sequence` says whether a character is complete, `to_utf32`
 * yields it and `reset` empties the buffer.  `DecState` is the state of any
 * one of them as a value, and the functions below are their transitions;
 * the class `Decoder` at the end keeps the same state in fields and arrays
 * and is proved to follow these functions step by step.
 *
 * Host byte order is little endian: the UTF-16 decoder assembles words low
 * byte first and the UTF-32 decoder writes bytes into its 32-bit buffer in
 * memory order, so byte k of the input lands in bits 8k to 8k+7.
 */
module Decoders {
  import opened ByteOrder
  import opened TextTypes

  /** Which decoder struct: ascii_decoder, iso8859_N_decoder,
      utf8_decoder, utf16(le|be)_decoder, utf32(le|be)_decoder. */
  datatype DecoderKind =
    | AsciiDecoder
    | Iso8859Decoder(sub: nat)
    | Utf8Decoder
    | Utf16Decoder(order: Endian)
    | Utf32Decoder(order: Endian)

  predicate ValidDecoderKind(kind: DecoderKind)
  {
    kind.Iso8859Decoder? ==> IsDecoderPart(kind.sub)
  }

  /** The fields of each decoder struct. */
  datatype DecState =
    | AsciiState(byte: Byte)                                   // m_byte, 128 = empty
    | IsoState(sub: nat, byte: Byte)                           // m_subencoding, m_byte
    | Utf8State(size: nat, buf: seq<Byte>, used: nat)          // m_size, m_buffer[4], m_buffer_used
    | Utf16State(endian: Endian, words: seq<bv16>, used: nat, size: nat)
                                                               // m_endian, m_buffer[2], m_buffer_used, m_size
    | Utf32State(endian: Endian, quad: bv32, used: nat)        // m_endian, m_buffer, m_buffer_used

  /** The states a decoder can be in between calls. */
  predicate Wf(d: DecState)
  {
    match d
    case AsciiState(b) => b <= 128
    case IsoState(sub, b) => IsDecoderPart(sub) && (b <= 128 || b >= 160)
    case Utf8State(size, buf, used) =>
      |buf| == 4 && size <= 6 && used <= 4 &&
      (size == 0 ==> used == 0) && (size <= 4 ==> used <= size)
    case Utf16State(endian, words, used, size) =>
      |words| == 2 && used <= 4 &&
      (size == 0 || size == 2 || size == 4) &&
      (size == 0 ==> used <= 1) && (size == 2 ==> used == 2) && (size == 4 ==> 2 <= used) &&
      (size != 0 ==> endian.Known())
    case Utf32State(endian, _, used) =>
      used <= 4 && (used == 4 ==> endian.Known())
  }

  /** append() stays inside m_buffer.  The only way out is a UTF-8 decoder
      left holding the length of a rejected five- or six-byte lead and fed
      four more continuation bytes without a reset; after a rejected byte
      decode() either resets (with a replacement character) or stops, so it
      never gets there. */
  predicate AppendSafe(d: DecState)
  {
    Wf(d) && (d.Utf8State? && d.size > 4 ==> d.used < 4)
  }

  /** A state decode() can hold between two bytes. */
  predicate Ready(d: DecState)
  {
    Wf(d) && (d.Utf8State? ==> d.size <= 4)
  }

  /** The state each decoder is constructed in.  Buffers the constructors
      leave uninitialised start as zeros here; nothing reads them before
      they are written. */
  function InitState(kind: DecoderKind): (d: DecState)
    requires ValidDecoderKind(kind)
    ensures Ready(d) && !HaveFull(d)
  {
    match kind
    case AsciiDecoder => AsciiState(128)
    case Iso8859Decoder(sub) => IsoState(sub, 128)
    case Utf8Decoder => Utf8State(0, [0, 0, 0, 0], 0)
    case Utf16Decoder(e) => Utf16State(e, [0, 0], 0, 0)
    case Utf32Decoder(e) => Utf32State(e, 0, 0)
  }

  /** have_full_sequence(). */
  predicate HaveFull(d: DecState)
  {
    match d
    case AsciiState(b) => b != 128
    case IsoState(_, b) => b != 128
    case Utf8State(size, _, used) => !(size == 0 || used < size)
    case Utf16State(_, _, used, size) => !(size == 0 || used < size)
    case Utf32State(_, _, used) => used == 4
  }

  /** reset(): forgets the buffered bytes; a detected byte order and the
      buffer contents stay. */
  function ResetState(d: DecState): (r: DecState)
    ensures Wf(d) ==> Ready(r)
    ensures !HaveFull(r)
  {
    match d
    case AsciiState(_) => AsciiState(128)
    case IsoState(sub, _) => IsoState(sub, 128)
    case Utf8State(_, buf, _) => Utf8State(0, buf, 0)
    case Utf16State(e, words, _, _) => Utf16State(e, words, 0, 0)
    case Utf32State(e, quad, _) => Utf32State(e, quad, 0)
  }

  /** The outcome of append(): whether the byte was taken, and the state after. */
  datatype Step = Step(accepted: bool, state: DecState)

  /* ---------- UTF-8 octet classes ---------- */

  /** The sequence length a leading octet announces, as is_valid_leading_octet
      stores it in m_size; 0 for an octet that cannot lead (m_size is then
      left alone). */
  function LeadLength(b: Byte): nat
  {
    if b < 0x7f then 1
    else if 0xc0 <= b <= 0xfd then
      (if b <= 0xdf then 2 else if b <= 0xef then 3 else if b <= 0xf7 then 4
       else if b <= 0xfb then 5 else 6)
    else 0
  }

  /** is_valid_leading_octet(): the lead of a sequence of at most four bytes. */
  predicate IsValidLeadingOctet(b: Byte)
  {
    1 <= LeadLength(b) <= 4
  }

  /** is_valid_continuing_octet(). */
  predicate IsValidContinuingOctet(b: Byte)
  {
    0x80 <= b <= 0xbf
  }

  /* ---------- append ---------- */

  function StepAscii(byte: Byte, b: Byte): Step
  {
    if byte != 128 then Step(false, AsciiState(byte))
    else if b <= 127 then Step(true, AsciiState(b))
    else Step(false, AsciiState(byte))
  }

  function StepIso(sub: nat, byte: Byte, b: Byte): Step
  {
    if byte != 128 then Step(false, IsoState(sub, byte))
    else if b <= 127 || b >= 160 then Step(true, IsoState(sub, b))
    else Step(false, IsoState(sub, byte))
  }

  function StepUtf8(size: nat, buf: seq<Byte>, used: nat, b: Byte): (r: Step)
    requires AppendSafe(Utf8State(size, buf, used))
    ensures r.state.Utf8State? && Wf(r.state)
    ensures r.accepted && size <= 4 ==> r.state.size <= 4
  {
    if !(size == 0 || used < size) then Step(false, Utf8State(size, buf, used))
    else
      var size' := if size == 0 && LeadLength(b) != 0 then LeadLength(b) else size;
      var valid := if size == 0 then IsValidLeadingOctet(b) else IsValidContinuingOctet(b);
      if valid then Step(true, Utf8State(size', buf[used := b], used + 1))
      else Step(false, Utf8State(size', buf, used))
  }

  /** A UTF-16 word in the range the decoder takes for a leading surrogate. */
  predicate IsLeadWord(w: bv16)
  {
    0xd800 < w <= 0xdbff
  }

  /** A UTF-16 word in the range the decoder takes for a trailing surrogate. */
  predicate IsTrailWord(w: bv16)
  {
    0xdc00 < w <= 0xdfff
  }

  /** The end of utf16_decoder::append() once a word is complete, in host
      order and stored: a leading word announces a second one, a trailing
      word may only come second. */
  function JudgeWord(e: Endian, words: seq<bv16>, used: nat, size: nat, hw: bv16): Step
  {
    if size == 0 then
      if IsLeadWord(hw) then Step(true, Utf16State(e, words, used, 4))
      else if IsTrailWord(hw) then Step(false, Utf16State(e, words, 0, 0))
      else Step(true, Utf16State(e, words, used, 2))
    else if !IsTrailWord(hw) then Step(false, Utf16State(e, words, 0, 0))
    else Step(true, Utf16State(e, words, used, size))
  }

  /** The end of utf16_decoder::append() when no byte order is known yet:
      the first word must be a byte order mark, and is consumed. */
  function JudgeOrderMark(words: seq<bv16>, w: bv16): Step
  {
    if w == 0xfffe then Step(true, Utf16State(Big, words, 0, 0))
    else if w == 0xfeff then Step(true, Utf16State(Little, words, 0, 0))
    else Step(false, Utf16State(Unknown, words, 0, 0))
  }

  /** utf16_decoder::append() for the second byte of a word: the word is
      completed from its low byte and then judged. */
  /** A UTF-16 word from its first byte, already stored as a word, and its
      second byte: byte k of the input is byte k of the word in memory on
      the little-endian host. */
  function Assemble(low: bv16, high: Byte): bv16
  {
    low + ((high as bv16) << 8)
  }

  function StepUtf16Word(e: Endian, words: seq<bv16>, used: nat, size: nat, b: Byte): Step
    requires |words| == 2 && (used == 1 || used == 3)
  {
    var w := Assemble(words[used / 2], b);
    if e == Unknown then JudgeOrderMark(words[used / 2 := w], w)
    else
      var hw := ToHost16(w, e);
      JudgeWord(e, words[used / 2 := hw], used + 1, size, hw)
  }

  function StepUtf16(e: Endian, words: seq<bv16>, used: nat, size: nat, b: Byte): (r: Step)
    requires Wf(Utf16State(e, words, used, size))
    ensures r.state.Utf16State? && Wf(r.state)
  {
    if !(size == 0 || used < size) then Step(false, Utf16State(e, words, used, size))
    else if used == 0 || used == 2 then
      Step(true, Utf16State(e, words[used / 2 := b as bv16], used + 1, size))
    else StepUtf16Word(e, words, used, size, b)
  }

  /** The 32-bit value whose little-endian memory image is `s`. */
  function FromLittleBytes(s: seq<Byte>): bv32
    requires |s| == 4
  {
    (s[0] as bv32) | ((s[1] as bv32) << 8) | ((s[2] as bv32) << 16) | ((s[3] as bv32) << 24)
  }

  lemma LittleBytesOfParts(b0: Byte, b1: Byte, b2: Byte, b3: Byte)
    ensures W32((b0 as bv32) | ((b1 as bv32) << 8) | ((b2 as bv32) << 16) | ((b3 as bv32) << 24)).LittleBytes()
         == [b0, b1, b2, b3]
  {
  }

  /** FromLittleBytes inverts the memory image. */
  lemma FromLittleBytesImage(s: seq<Byte>)
    requires |s| == 4
    ensures W32(FromLittleBytes(s)).LittleBytes() == s
  {
    LittleBytesOfParts(s[0], s[1], s[2], s[3]);
    assert s == [s[0], s[1], s[2], s[3]];
  }

  /** Writes byte `b` at byte position `k` of a 32-bit value held in memory
      on the little-endian host (the decoder's `reinterpret_cast` of its
      buffer to bytes). */
  function SetByte(q: bv32, k: nat, b: Byte): bv32
    requires k < 4
  {
    FromLittleBytes(W32(q).LittleBytes()[k := b])
  }

  /** Writing byte k replaces byte k of the value's memory image and no other. */
  lemma SetByteLayout(q: bv32, k: nat, b: Byte)
    requires k < 4
    ensures W32(SetByte(q, k, b)).LittleBytes() == W32(q).LittleBytes()[k := b]
  {
    FromLittleBytesImage(W32(q).LittleBytes()[k := b]);
  }

  function StepUtf32(e: Endian, quad: bv32, used: nat, b: Byte): (r: Step)
    requires Wf(Utf32State(e, quad, used))
    ensures r.state.Utf32State? && Wf(r.state)
    ensures used == 4 ==> r == Step(false, Utf32State(e, quad, used))
  {
    if used == 4 then Step(false, Utf32State(e, quad, used))
    else
      var q := SetByte(quad, used, b);
      if used + 1 < 4 then Step(true, Utf32State(e, q, used + 1))
      else if e == Unknown then
        if q == 0xfffe_0000 then Step(true, Utf32State(Big, q, 0))
        else if q == 0x0000_feff then Step(true, Utf32State(Little, q, 0))
        else Step(false, Utf32State(e, q, 0))
      else Step(true, Utf32State(e, ToHost32(q, e), 4))
  }

  /** append(): offers one byte to the decoder. */
  function AppendStep(d: DecState, b: Byte): (r: Step)
    requires AppendSafe(d)
    ensures Wf(r.state)
    ensures r.accepted && Ready(d) ==> Ready(r.state)
    ensures HaveFull(d) ==> r == Step(false, d)
  {
    match d
    case AsciiState(byte) => StepAscii(byte, b)
    case IsoState(sub, byte) => StepIso(sub, byte, b)
    case Utf8State(size, buf, used) => StepUtf8(size, buf, used, b)
    case Utf16State(e, words, used, size) => StepUtf16(e, words, used, size, b)
    case Utf32State(e, quad, used) => StepUtf32(e, quad, used, b)
  }

  /* ---------- to_utf32 ---------- */

  /** The value of the first n octets of a sequence of `size` octets: the
      lead without its prefix, then six bits from each continuation octet. */
  function Utf8Accumulate(buf: seq<Byte>, size: nat, n: nat): bv32
    requires 1 <= n <= size <= 4 <= |buf|
  {
    if n == 1 then (buf[0] as bv32) - Utf8Prefix(size)
    else Utf8Shift(Utf8Accumulate(buf, size, n - 1), buf[n - 1])
  }

  /** One step of the loop in to_utf32(): make room for six bits and add
      the payload of a continuation octet. */
  function Utf8Shift(prev: bv32, octet: Byte): bv32
  {
    prev * 64 + ((octet as bv32) - 0x80)
  }

  /** Combines a surrogate pair as to_utf32() does. */
  function Utf16Combine(w1: bv16, w2: bv16): bv32
  {
    (((w1 as bv32) - 0xd800) << 10) + ((w2 as bv32) - 0xdc00) + 0x10000
  }

  /** to_utf32() of iso8859_decoder_base: the byte itself for part 1 and
      below 128, else the entry for it in the part's slice of the table. */
  function IsoValue(sub: nat, b: Byte, table: MappingTable): Char32
    requires IsDecoderPart(sub) && (b <= 127 || b >= 160)
  {
    if sub == 1 || b <= 127 then b as bv32
    else table[TableOffset(sub) + ((b as nat) - 160)]
  }

  /** to_utf32() of utf16_decoder: one word, or a surrogate pair. */
  function Utf16Value(words: seq<bv16>, size: nat): Char32
    requires |words| == 2
  {
    if size == 4 then Utf16Combine(words[0], words[1]) else words[0] as bv32
  }

  /** to_utf32(): the character a full decoder holds. */
  function Value(d: DecState, table: MappingTable): Char32
    requires Ready(d) && HaveFull(d)
  {
    match d
    case AsciiState(b) => b as bv32
    case IsoState(sub, b) => IsoValue(sub, b, table)
    case Utf8State(size, buf, _) => Utf8Accumulate(buf, size, size)
    case Utf16State(_, words, _, size) => Utf16Value(words, size)
    case Utf32State(_, quad, _) => quad
  }

  /* ---------- properties of single decoders ---------- */

  /** reset() leaves a decoder that is not full; appending to a full one
      is refused and changes nothing. */
  lemma ResetThenAppend(d: DecState, b: Byte)
    requires AppendSafe(d)
    ensures !HaveFull(ResetState(d))
    ensures HaveFull(d) ==> AppendStep(d, b) == Step(false, d)
  {
  }

  /** ascii_decoder takes exactly the bytes 0-127, each as a full character
      of the same value. */
  lemma AsciiDecoderAccepts(b: Byte, table: MappingTable)
    ensures AppendStep(AsciiState(128), b).accepted <==> b <= 127
    ensures b <= 127 ==>
      HaveFull(AppendStep(AsciiState(128), b).state) &&
      Value(AppendStep(AsciiState(128), b).state, table) == b as bv32
  {
  }

  /** An ISO-8859 decoder refuses 128-159 and takes every other byte as a
      full character: itself below 128 and for part 1, else the table entry
      of the part's slice. */
  lemma IsoDecoderAccepts(sub: nat, b: Byte, table: MappingTable)
    requires IsDecoderPart(sub)
    ensures AppendStep(IsoState(sub, 128), b).accepted <==> !(128 <= b < 160)
    ensures !(128 <= b < 160) ==>
      var d := AppendStep(IsoState(sub, 128), b).state;
      HaveFull(d) &&
      Value(d, table) == if sub == 1 || b <= 127 then b as bv32
                         else table[TableOffset(sub) + (b as nat) - 160]
  {
  }

  /** is_valid_leading_octet: below 0x7F a one-octet sequence, C0-DF two,
      E0-EF three, F0-F7 four; 0x7F-0xBF and F8-FF are refused. */
  lemma Utf8LeadClasses(b: Byte)
    ensures IsValidLeadingOctet(b) <==> b < 0x7f || 0xc0 <= b <= 0xf7
    ensures b < 0x7f ==> LeadLength(b) == 1
    ensures 0xc0 <= b <= 0xdf ==> LeadLength(b) == 2
    ensures 0xe0 <= b <= 0xef ==> LeadLength(b) == 3
    ensures 0xf0 <= b <= 0xf7 ==> LeadLength(b) == 4
  {
  }

  /** The octet 0x7F (DEL) is refused as a lead although it is a one-octet
      sequence in RFC 3629 section 3: the test is `< 0x7f`. */
  lemma Utf8RefusesDel(buf: seq<Byte>)
    requires |buf| == 4
    ensures !AppendStep(Utf8State(0, buf, 0), 0x7f).accepted
  {
  }

  /** to_utf32 of a UTF-8 sequence: the lead's payload bits followed by six
      bits from each continuation octet. */
  lemma Utf8ValueBits(buf: seq<Byte>, size: nat)
    requires 2 <= size <= 4 <= |buf|
    requires forall i :: 1 <= i < size ==> IsValidContinuingOctet(buf[i])
    ensures Utf8Accumulate(buf, size, size)
         == Utf8Accumulate(buf, size, size - 1) * 64 + ((buf[size - 1] as bv32) & 0x3f)
  {
  }

  /** E2 82 AC decodes to U+20AC (the euro sign). */
  lemma Utf8EuroSign(table: MappingTable)
    ensures
      var d1 := AppendStep(Utf8State(0, [0, 0, 0, 0], 0), 0xe2);
      var d2 := AppendStep(d1.state, 0x82);
      var d3 := AppendStep(d2.state, 0xac);
      d1.accepted && d2.accepted && d3.accepted &&
      !HaveFull(d1.state) && !HaveFull(d2.state) && HaveFull(d3.state) &&
      Value(d3.state, table) == 0x20ac
  {
  }

  /** With no byte order given, the first two bytes of a UTF-16 stream must
      be a byte order mark: FF FE selects little endian, FE FF big endian,
      and either is consumed without a character.  Anything else is
      refused. */
  lemma Utf16ByteOrderMark(words: seq<bv16>, b0: Byte, b1: Byte)
    requires |words| == 2
    ensures
      var s1 := AppendStep(Utf16State(Unknown, words, 0, 0), b0);
      var s2 := AppendStep(s1.state, b1);
      s1.accepted && !HaveFull(s1.state) &&
      (s2.accepted <==> (b0 == 0xff && b1 == 0xfe) || (b0 == 0xfe && b1 == 0xff)) &&
      s2.state.Utf16State? && !HaveFull(s2.state) && s2.state.used == 0 &&
      (b0 == 0xff && b1 == 0xfe ==> s2.state.endian == Little) &&
      (b0 == 0xfe && b1 == 0xff ==> s2.state.endian == Big)
  {
  }

  /** A little-endian UTF-16 decoder reads the bytes 34 D8 1E DD (the
      G clef, U+1D11E) as one character. */
  lemma Utf16GClef(words: seq<bv16>, table: MappingTable)
    requires |words| == 2
    ensures
      var s1 := AppendStep(Utf16State(Little, words, 0, 0), 0x34);
      var s2 := AppendStep(s1.state, 0xd8);
      var s3 := AppendStep(s2.state, 0x1e);
      var s4 := AppendStep(s3.state, 0xdd);
      s1.accepted && s2.accepted && s3.accepted && s4.accepted &&
      !HaveFull(s2.state) && !HaveFull(s3.state) && HaveFull(s4.state) &&
      Value(s4.state, table) == 0x1d11e
  {
  }

  /** Because the surrogate ranges are tested with a strict lower bound, the
      word 0xD800 is taken as a character of its own and 0xDC00 is allowed to
      lead, so a pair D800 DC00 decodes as two characters. */
  lemma Utf16StrictBounds(words: seq<bv16>, table: MappingTable)
    requires |words| == 2
    ensures
      var s := AppendStep(AppendStep(Utf16State(Little, words, 0, 0), 0x00).state, 0xd8);
      s.accepted && HaveFull(s.state) && Value(s.state, table) == 0xd800
    ensures
      var s := AppendStep(AppendStep(Utf16State(Little, words, 0, 0), 0x00).state, 0xdc);
      s.accepted && HaveFull(s.state) && Value(s.state, table) == 0xdc00
  {
  }

  /** A UTF-32 decoder is full after exactly four bytes of a known order. */
  lemma Utf32FullAfterFour(e: Endian, quad: bv32, b: seq<Byte>)
    requires e.Known() && |b| == 4
    ensures
      var s1 := AppendStep(Utf32State(e, quad, 0), b[0]);
      var s2 := AppendStep(s1.state, b[1]);
      var s3 := AppendStep(s2.state, b[2]);
      var s4 := AppendStep(s3.state, b[3]);
      s1.accepted && s2.accepted && s3.accepted && s4.accepted &&
      !HaveFull(s1.state) && !HaveFull(s2.state) && !HaveFull(s3.state) && HaveFull(s4.state)
  {
  }

  /** Four bytes fed to a UTF-32 decoder of any byte order fill its buffer
      with the value whose little-endian memory image they are. */
  lemma Utf32Gathers(e: Endian, quad: bv32, b: seq<Byte>)
    requires |b| == 4
    ensures
      var s1 := StepUtf32(e, quad, 0, b[0]);
      var s2 := StepUtf32(e, s1.state.quad, 1, b[1]);
      var s3 := StepUtf32(e, s2.state.quad, 2, b[2]);
      s1.accepted && s2.accepted && s3.accepted &&
      s1.state.used == 1 && s2.state.used == 2 && s3.state == Utf32State(e, s3.state.quad, 3) &&
      SetByte(s3.state.quad, 3, b[3]) == FromLittleBytes(b)
  {
    var q1 := SetByte(quad, 0, b[0]);
    var q2 := SetByte(q1, 1, b[1]);
    var q3 := SetByte(q2, 2, b[2]);
    SetByteLayout(quad, 0, b[0]);
    SetByteLayout(q1, 1, b[1]);
    SetByteLayout(q2, 2, b[2]);
    assert W32(q3).LittleBytes()[3 := b[3]] == b;
  }

  /** The two byte order marks, read as a little-endian value. */
  lemma Utf32MarkValues(b: seq<Byte>)
    requires |b| == 4
    ensures FromLittleBytes(b) == 0xfffe_0000 <==> b == [0x00, 0x00, 0xfe, 0xff]
    ensures FromLittleBytes(b) == 0x0000_feff <==> b == [0xff, 0xfe, 0x00, 0x00]
  {
    FromLittleBytesImage(b);
    assert W32(0xfffe_0000).LittleBytes() == [0x00, 0x00, 0xfe, 0xff];
    assert W32(0x0000_feff).LittleBytes() == [0xff, 0xfe, 0x00, 0x00];
    if b == [0x00, 0x00, 0xfe, 0xff] {
      BytesDetermineWord(W32(FromLittleBytes(b)), W32(0xfffe_0000), Little);
    }
    if b == [0xff, 0xfe, 0x00, 0x00] {
      BytesDetermineWord(W32(FromLittleBytes(b)), W32(0x0000_feff), Little);
    }
  }

  /** With no byte order given, the first four bytes of a UTF-32 stream must
      be a byte order mark: FF FE 00 00 selects little endian, 00 00 FE FF
      big endian, and either is consumed without a character. */
  lemma Utf32ByteOrderMark(quad: bv32, b: seq<Byte>)
    requires |b| == 4
    ensures
      var s1 := AppendStep(Utf32State(Unknown, quad, 0), b[0]);
      var s2 := AppendStep(s1.state, b[1]);
      var s3 := AppendStep(s2.state, b[2]);
      var s4 := AppendStep(s3.state, b[3]);
      var le := b == [0xff, 0xfe, 0x00, 0x00];
      var be := b == [0x00, 0x00, 0xfe, 0xff];
      s1.accepted && s2.accepted && s3.accepted &&
      (s4.accepted <==> le || be) && !HaveFull(s4.state) &&
      (le ==> s4.state.endian == Little) && (be ==> s4.state.endian == Big)
  {
    Utf32Gathers(Unknown, quad, b);
    Utf32MarkValues(b);
  }

  /** The loop of utf8_decoder::to_utf32(): strips the lead's prefix, then
      shifts in six bits from each continuation octet. */
  method Utf8Sequence(buffer: array<Byte>, size: nat) returns (c: Char32)
    requires buffer.Length == 4 && 1 <= size <= 4
    ensures c == Utf8Accumulate(buffer[..], size, size)
  {
    ghost var buf := buffer[..];
    var lead := buffer[0];
    assert lead == buf[0];
    c := (lead as bv32) - Utf8Prefix(size);
    var i := 1;
    while i < size
      invariant 1 <= i <= size
      invariant c == Utf8Accumulate(buf, size, i)
    {
      var octet := buffer[i];
      assert octet == buf[i];
      c := Utf8Shift(c, octet);
      i := i + 1;
    }
  }

  /* ---------- the decoder structs ---------- */

  /**
   * One decoder of any kind.  The fields are the union of the decoder
   * structs' members; a decoder of a given kind uses only its own.
   */
  class Decoder {
    const kind: DecoderKind
    /** detail::iso8859_mapping */
    const table: MappingTable
    /** m_byte of ascii_decoder and iso8859_decoder_base */
    var byte: Byte
    /** m_size of utf8_decoder and utf16_decoder */
    var size: nat
    /** m_buffer_used (bytes, not words) */
    var used: nat
    /** m_endian of utf16_decoder and utf32_decoder */
    var endian: Endian
    /** m_buffer of utf32_decoder */
    var quad: bv32
    /** m_buffer of utf8_decoder */
    const buffer: array<Byte>
    /** m_buffer of utf16_decoder */
    const words: array<bv16>

    /** The decoder's fields as a value. */
    ghost function State(): DecState
      reads this, buffer, words
    {
      match kind
      case AsciiDecoder => AsciiState(byte)
      case Iso8859Decoder(sub) => IsoState(sub, byte)
      case Utf8Decoder => Utf8State(size, buffer[..], used)
      case Utf16Decoder(_) => Utf16State(endian, words[..], used, size)
      case Utf32Decoder(_) => Utf32State(endian, quad, used)
    }

    /** The arrays have the sizes of the struct members, and the kind is one
        the library defines. */
    ghost predicate Shaped()
      reads this
    {
      buffer.Length == 4 && words.Length == 2 && ValidDecoderKind(kind)
    }

    ghost predicate Valid()
      reads this, buffer, words
    {
      Shaped() && Wf(State())
    }

    /** The constructors of the decoder structs. */
    constructor (kind: DecoderKind, table: MappingTable)
      requires ValidDecoderKind(kind)
      ensures Valid() && fresh(buffer) && fresh(words)
      ensures this.kind == kind && this.table == table
      ensures State() == InitState(kind)
    {
      this.kind := kind;
      this.table := table;
      byte := 128;
      size := 0;
      used := 0;
      endian := match kind
        case Utf16Decoder(e) => e
        case Utf32Decoder(e) => e
        case _ => Unknown;
      quad := 0;
      buffer := new Byte[4](_ => 0);
      words := new bv16[2](_ => 0);
      new;
      assert buffer[..] == [0, 0, 0, 0];
      assert words[..] == [0, 0];
    }

    /** have_full_sequence() */
    predicate HaveFullSequence()
      reads this, buffer, words
      requires Valid()
      ensures HaveFullSequence() <==> HaveFull(State())
    {
      match kind
      case AsciiDecoder => byte != 128
      case Iso8859Decoder(_) => byte != 128
      case Utf8Decoder => !(size == 0 || used < size)
      case Utf16Decoder(_) => !(size == 0 || used < size)
      case Utf32Decoder(_) => used == 4
    }

    /** reset() */
    method Reset()
      requires Shaped()
      modifies this
      ensures Valid()
      ensures State() == ResetState(old(State()))
      ensures byte == (if kind.AsciiDecoder? || kind.Iso8859Decoder? then 128 else old(byte))
      ensures size == (if kind.Utf8Decoder? || kind.Utf16Decoder? then 0 else old(size))
      ensures used == (if kind.AsciiDecoder? || kind.Iso8859Decoder? then old(used) else 0)
      ensures endian == old(endian) && quad == old(quad)
    {
      match kind
      case AsciiDecoder =>
        byte := 128;
      case Iso8859Decoder(_) =>
        byte := 128;
      case Utf8Decoder =>
        size := 0;
        used := 0;
      case Utf16Decoder(_) =>
        size := 0;
        used := 0;
      case Utf32Decoder(_) =>
        used := 0;
    }

    /** append(): offers one byte. */
    method Append(b: Byte) returns (ok: bool)
      requires Valid() && AppendSafe(State())
      modifies this, buffer, words
      ensures Valid()
      ensures Step(ok, State()) == AppendStep(old(State()), b)
    {
      match kind
      case AsciiDecoder =>
        ok := AppendSingle(b);
      case Iso8859Decoder(_) =>
        ok := AppendSingle(b);
      case Utf8Decoder =>
        ok := AppendUtf8(b);
      case Utf16Decoder(_) =>
        ok := AppendUtf16(b);
      case Utf32Decoder(_) =>
        ok := AppendUtf32(b);
    }

    /** append() of ascii_decoder and iso8859_decoder_base. */
    method AppendSingle(b: Byte) returns (ok: bool)
      requires Valid() && (kind.AsciiDecoder? || kind.Iso8859Decoder?)
      modifies this
      ensures Valid()
      ensures Step(ok, State()) == AppendStep(old(State()), b)
    {
      if byte != 128 {
        return false;
      }
      if b <= 127 || (kind.Iso8859Decoder? && b >= 160) {
        byte := b;
        return true;
      }
      return false;
    }

    /** is_valid_leading_octet(): records the announced length in m_size. */
    method IsValidLeadingOctetM(b: Byte) returns (ok: bool)
      modifies this
      ensures ok == IsValidLeadingOctet(b)
      ensures size == (if LeadLength(b) != 0 then LeadLength(b) else old(size))
      ensures byte == old(byte) && used == old(used) && endian == old(endian) && quad == old(quad)
    {
      if b < 0x7f {
        size := 1;
        return true;
      }
      if 0xc0 <= b <= 0xfd {
        if b <= 0xdf { size := 2; }
        else if b <= 0xef { size := 3; }
        else if b <= 0xf7 { size := 4; }
        else if b <= 0xfb { size := 5; }
        else { size := 6; }
        return size <= 4;
      }
      return false;
    }

    /** append() of utf8_decoder. */
    method AppendUtf8(b: Byte) returns (ok: bool)
      requires Valid() && AppendSafe(State()) && kind.Utf8Decoder?
      modifies this, buffer
      ensures Valid()
      ensures Step(ok, State()) == StepUtf8(old(size), old(buffer[..]), old(used), b)
    {
      if !(size == 0 || used < size) {
        return false;
      }
      var valid: bool;
      if size == 0 {
        valid := IsValidLeadingOctetM(b);
      } else {
        valid := 0x80 <= b <= 0xbf;
      }
      if valid {
        buffer[used] := b;
        used := used + 1;
      }
      return valid;
    }

    /** append() of utf16_decoder.  The source updates the buffered word
        through a reference; here it is assembled in `w` and stored once. */
    method AppendUtf16(b: Byte) returns (ok: bool)
      requires Valid() && kind.Utf16Decoder?
      modifies this, words
      ensures Valid()
      ensures Step(ok, State()) == StepUtf16(old(endian), old(words[..]), old(used), old(size), b)
    {
      if !(size == 0 || used < size) {
        return false;
      }
      if used == 0 || used == 2 {
        words[used / 2] := b as bv16;
        used := used + 1;
        return true;
      }
      ok := AppendHighByte(b);
    }

    /** utf16_decoder::append() for the second byte of a word. */
    method AppendHighByte(b: Byte) returns (ok: bool)
      requires Valid() && kind.Utf16Decoder? && (used == 1 || used == 3) && (size == 0 || used < size)
      modifies this, words
      ensures Valid()
      ensures Step(ok, State()) == StepUtf16Word(old(endian), old(words[..]), old(used), old(size), b)
    {
      ghost var image := words[..];
      var at := used / 2;
      var low := words[at];
      assert low == image[at];
      var w := Assemble(low, b);
      used := used + 1;
      if endian == Unknown {
        words[at] := w;
        assert words[..] == image[at := w];
        ok := TakeOrderMark(w);
        return;
      }
      w := ToHost16(w, endian);
      words[at] := w;
      assert words[..] == image[at := w];
      ok := TakeWord(w);
    }

    /** The part of utf16_decoder::append() that reads the byte order mark
        (already stored). */
    method TakeOrderMark(w: bv16) returns (ok: bool)
      requires Shaped() && kind.Utf16Decoder? && endian == Unknown && size == 0
      modifies this
      ensures Valid()
      ensures Step(ok, State()) == JudgeOrderMark(old(words[..]), w)
    {
      if w == 0xfffe {
        endian := Big;
        Reset();
        return true;
      } else if w == 0xfeff {
        endian := Little;
        Reset();
        return true;
      }
      Reset();
      return false;
    }

    /** The part of utf16_decoder::append() that judges a completed word
        (already in host order and stored). */
    method TakeWord(w: bv16) returns (ok: bool)
      requires Shaped() && kind.Utf16Decoder? && endian.Known()
      requires used == 2 || used == 4
      requires size == 0 ==> used == 2
      requires size != 0 ==> size == 4 && used == 4
      modifies this
      ensures Valid()
      ensures Step(ok, State()) == JudgeWord(old(endian), old(words[..]), old(used), old(size), w)
    {
      if size == 0 {
        size := 2;
        if 0xd800 < w <= 0xdbff {
          size := size + 2;
          return true;
        } else if 0xdc00 < w <= 0xdfff {
          Reset();
          return false;
        }
        return true;
      }
      if !(0xdc00 < w <= 0xdfff) {
        Reset();
        return false;
      }
      return true;
    }

    /** append() of utf32_decoder: the byte is written into the next byte
        of m_buffer's memory. */
    method AppendUtf32(b: Byte) returns (ok: bool)
      requires Valid() && kind.Utf32Decoder?
      modifies this
      ensures Valid()
      ensures Step(ok, State()) == StepUtf32(old(endian), old(quad), old(used), b)
    {
      if used == 4 {
        return false;
      }
      quad := SetByte(quad, used, b);
      used := used + 1;
      if used < 4 {
        return true;
      }
      if endian == Unknown {
        if quad == 0xfffe_0000 {
          endian := Big;
          Reset();
          return true;
        } else if quad == 0x0000_feff {
          endian := Little;
          Reset();
          return true;
        }
        Reset();
        return false;
      }
      quad := ToHost32(quad, endian);
      return true;
    }

    /** to_utf32(): the character held by a full decoder. */
    method ToUtf32() returns (c: Char32)
      requires Valid() && Ready(State()) && HaveFull(State())
      ensures c == Value(State(), table)
    {
      match kind
      case AsciiDecoder =>
        c := byte as bv32;
      case Iso8859Decoder(sub) =>
        c := IsoToUtf32();
      case Utf8Decoder =>
        c := Utf8ToUtf32();
      case Utf16Decoder(_) =>
        c := Utf16ToUtf32();
      case Utf32Decoder(_) =>
        c := quad;
    }

    /** to_utf32() of iso8859_decoder_base: the byte itself for part 1 and
        below 128, else an entry of the part's slice of the mapping table. */
    method IsoToUtf32() returns (c: Char32)
      requires Valid() && kind.Iso8859Decoder? && byte != 128
      ensures c == IsoValue(kind.sub, byte, table)
    {
      var sub := kind.sub;
      if sub == 1 || byte <= 127 {
        return byte as bv32;
      }
      var offset: nat := sub - 2;
      if sub > 11 {
        offset := offset - 1;
      }
      offset := offset * 96;
      offset := offset + ((byte as nat) - 160);
      c := table[offset];
    }

    /** to_utf32() of utf8_decoder. */
    method Utf8ToUtf32() returns (c: Char32)
      requires Valid() && kind.Utf8Decoder? && 1 <= size <= 4
      ensures c == Utf8Accumulate(buffer[..], size, size)
    {
      c := Utf8Sequence(buffer, size);
    }

    /** to_utf32() of utf16_decoder: a single word, or a surrogate pair
        combined. */
    method Utf16ToUtf32() returns (c: Char32)
      requires Valid() && kind.Utf16Decoder?
      ensures size == 4 ==> c == Utf16Combine(words[0], words[1])
      ensures size != 4 ==> c == words[0] as bv32
    {
      c := words[0] as bv32;
      if size == 4 {
        c := Utf16Combine(words[0], words[1]);
      }
    }
  }
}
