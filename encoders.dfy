/**
 * Per-character encoders (fhtagn/text/encoders.h).
 *
 * Each encoder struct takes one UTF-32 character in `encode` and exposes
 * the bytes for it between `begin()` and `end()`.  The functions below say
 * which characters each encoding accepts and which bytes stand for them;
 * the class `Encoder` at the end keeps the structs' buffers in fields and
 * arrays and is proved to produce exactly those bytes.
 *
 * Host byte order is little endian: a UTF-16 or UTF-32 encoder's buffer is
 * read back byte by byte in memory order, so the bytes of a buffered value
 * are its little-endian bytes.
 */
module Encoders {
  import opened ByteOrder
  import opened TextTypes

  /** Which encoder struct: raw_encoder, ascii_encoder, iso8859_N_encoder,
      utf8_encoder, utf16(le|be)_encoder, utf32(le|be)_encoder. */
  datatype EncoderKind =
    | RawEncoder
    | AsciiEncoder
    | Iso8859Encoder(sub: nat)
    | Utf8Encoder
    | Utf16Encoder(order: Endian)
    | Utf32Encoder(order: Endian)

  /** The parts an ISO-8859 encoder is defined for, and a byte order that
      from_host() can index (UNKNOWN lies outside its table). */
  predicate ValidEncoderKind(kind: EncoderKind)
  {
    match kind
    case Iso8859Encoder(sub) => IsEncoderPart(sub)
    case Utf16Encoder(order) => order.Known()
    case Utf32Encoder(order) => order.Known()
    case _ => true
  }

  /** m_byte == -1: on a signed `char` that is the byte 0xFF, which the
      single-byte encoders use to signal an empty buffer. */
  const NoByte: Byte := 0xff

  /** The bytes between begin() and end() of a single-byte encoder holding
      `b`: nothing when `b` is the empty-buffer signal. */
  function SingleOutput(b: Byte): (s: seq<Byte>)
    ensures |s| <= 1
    ensures s == [] <==> b == NoByte
    ensures s != [] ==> s[0] == b
  {
    if b == NoByte then [] else [b]
  }

  /** static_cast<char> of a 32-bit value: its low eight bits, so that the
      value is its bits above the eighth followed by the byte, and a value
      that fits a byte keeps it. */
  function Truncate(x: bv32): (b: Byte)
    ensures ((x >> 8) << 8) | (b as bv32) == x
    ensures x <= 0xff ==> b as bv32 == x
  {
    (x & 0xff) as Byte
  }

  /* ---------- raw and ASCII ---------- */

  /** raw_encoder: every value up to 255 is one byte of the same value. */
  function RawEncoding(ch: Char32): (r: Option<seq<Byte>>)
    ensures r.Some? <==> ch <= 255
    ensures r.Some? ==> |r.value| == 1 && r.value[0] as bv32 == ch
  {
    if ch <= 255 then Some([Truncate(ch)]) else None
  }

  /** ascii_encoder: the values 0-127 are one byte of the same value. */
  function AsciiEncoding(ch: Char32): (r: Option<seq<Byte>>)
    ensures r.Some? <==> ch <= 127
    ensures r.Some? ==> |r.value| == 1 && r.value[0] as bv32 == ch
  {
    if ch <= 127 then Some([Truncate(ch)]) else None
  }

  /* ---------- ISO-8859 ---------- */

  /** The first position of `ch` in `slice`. */
  function FirstIndex(slice: seq<Char32>, ch: Char32): (r: Option<nat>)
    ensures r.Some? ==> r.value < |slice| && slice[r.value] == ch &&
                        forall j :: 0 <= j < r.value ==> slice[j] != ch
    ensures r.None? <==> ch !in slice
  {
    if |slice| == 0 then None
    else if slice[0] == ch then Some(0)
    else match FirstIndex(slice[1..], ch)
      case None => None
      case Some(i) => Some(i + 1)
  }

  /** The byte for position `i` of a part's slice of the mapping table. */
  function SliceByte(i: nat): Byte
    requires i < PartWidth
  {
    (160 + i) as Byte
  }

  lemma ByteOfSmall(i: nat)
    requires i < PartWidth
    ensures ((160 + i) as Byte) as int == 160 + i
  {
  }

  /** Position i of a slice is the byte 160 + i, so the decoder's
      `m_byte - 160` finds the position again. */
  lemma SliceByteValue(i: nat)
    requires i < PartWidth
    ensures SliceByte(i) as int == 160 + i && SliceByte(i) >= 160
  {
    ByteOfSmall(i);
  }

  /** The part's 96 table entries. */
  function Slice(sub: nat, table: MappingTable): (s: seq<Char32>)
    requires 2 <= sub <= 16 && sub != 12
    ensures |s| == PartWidth
    ensures forall i :: 0 <= i < PartWidth ==> s[i] == table[TableOffset(sub) + i]
  {
    table[TableOffset(sub)..TableOffset(sub) + PartWidth]
  }

  /** iso8859_encoder_base::encode(): the byte m_byte ends up holding, or
      None when the character is refused. */
  function IsoByte(sub: nat, ch: Char32, table: MappingTable): Option<Byte>
    requires IsEncoderPart(sub)
  {
    if ch <= 127 then Some(Truncate(ch))
    else if sub == 1 then
      if 160 <= ch <= 255 then Some(Truncate(ch)) else None
    else match FirstIndex(Slice(sub, table), ch)
      case None => None
      case Some(i) => Some(SliceByte(i))
  }

  /** The bytes an ISO-8859 encoder emits for `ch`: the byte it holds,
      unless that byte is the empty-buffer signal. */
  function IsoEncoding(sub: nat, ch: Char32, table: MappingTable): (r: Option<seq<Byte>>)
    requires IsEncoderPart(sub)
    ensures r.Some? <==> IsoByte(sub, ch, table).Some?
  {
    match IsoByte(sub, ch, table)
    case None => None
    case Some(b) => Some(SingleOutput(b))
  }

  /* ---------- UTF-8 ---------- */

  /** The number of octets utf8_encoder uses; 0 for a value beyond U+10FFFF. */
  function Utf8Length(ch: Char32): nat
  {
    if ch < 0x80 then 1
    else if ch < 0x800 then 2
    else if ch < 0x10000 then 3
    else if ch < 0x110000 then 4
    else 0
  }

  /** `(ch | 0x80) & 0xbf` stored in a char: 10 followed by the low six bits. */
  function ContinuationOctet(c: bv32): Byte
  {
    Truncate((c | 0x80) & 0xbf)
  }

  /** `ch | modifier_table[size - 1]` stored in a char. */
  function LeadOctet(c: bv32, size: nat): Byte
    requires 1 <= size <= 4
  {
    Truncate(c | Utf8Prefix(size))
  }

  /** The octets of `ch` as RFC 3629 section 3 lays them out: the lead
      carries the highest bits, each continuation octet six more. */
  function Utf8Octets(ch: Char32): (s: seq<Byte>)
    requires ch < 0x110000
    ensures |s| == Utf8Length(ch)
  {
    var n := Utf8Length(ch);
    if n == 1 then [LeadOctet(ch, 1)]
    else if n == 2 then [LeadOctet(ch >> 6, 2), ContinuationOctet(ch)]
    else if n == 3 then [LeadOctet(ch >> 12, 3), ContinuationOctet(ch >> 6), ContinuationOctet(ch)]
    else [LeadOctet(ch >> 18, 4), ContinuationOctet(ch >> 12), ContinuationOctet(ch >> 6), ContinuationOctet(ch)]
  }

  /** utf8_encoder::encode(): refuses values beyond U+10FFFF. */
  function Utf8Encoding(ch: Char32): (r: Option<seq<Byte>>)
    ensures r.Some? <==> ch < 0x110000
    ensures r.Some? ==> 1 <= |r.value| <= 4
  {
    if ch < 0x110000 then Some(Utf8Octets(ch)) else None
  }

  /* ---------- UTF-16 ---------- */

  /** The code units utf16_encoder produces: one word in the basic
      multilingual plane except (0xD800, 0xDFFF], a surrogate pair up to
      U+10FFFF. */
  function Utf16Units(ch: Char32): (r: Option<seq<bv16>>)
    ensures r.Some? <==> ch <= 0x10ffff && !(0xd800 < ch <= 0xdfff)
    ensures r.Some? ==> (|r.value| == 1 <==> ch <= 0xffff) && (|r.value| == 1 || |r.value| == 2)
    ensures r.Some? && ch <= 0xffff ==> r.value[0] as bv32 == ch
  {
    if ch <= 0xffff then
      if 0xd800 < ch <= 0xdfff then None else Some([ch as bv16])
    else if ch > 0x10ffff then None
    else Some([LeadSurrogate(ch), TrailSurrogate(ch)])
  }

  /** The first word of the pair for a character above U+FFFF: 0xD800 plus
      the high ten bits of `ch - 0x10000`. */
  function LeadSurrogate(ch: Char32): bv16
    requires 0x10000 <= ch <= 0x10ffff
  {
    (((ch - 0x10000) >> 10) + 0xd800) as bv16
  }

  /** The second word of the pair: 0xDC00 plus the low ten bits. */
  function TrailSurrogate(ch: Char32): bv16
    requires 0x10000 <= ch <= 0x10ffff
  {
    (((ch - 0x10000) & 0x3ff) + 0xdc00) as bv16
  }

  /** The bytes of a sequence of words, each in byte order `e`. */
  function WordBytes(units: seq<bv16>, e: Endian): (s: seq<Byte>)
    requires e.Known()
    ensures |s| == 2 * |units|
  {
    if units == [] then [] else W16(units[0]).Bytes(e) + WordBytes(units[1..], e)
  }

  function Utf16Encoding(ch: Char32, e: Endian): (r: Option<seq<Byte>>)
    requires e.Known()
    ensures r.Some? <==> Utf16Units(ch).Some?
  {
    match Utf16Units(ch)
    case None => None
    case Some(units) => Some(WordBytes(units, e))
  }

  /* ---------- UTF-32 ---------- */

  /** utf32_encoder::encode(): any value, as four bytes in order `e`. */
  function Utf32Encoding(ch: Char32, e: Endian): (r: Option<seq<Byte>>)
    requires e.Known()
    ensures r.Some? && |r.value| == 4
  {
    Some(W32(ch).Bytes(e))
  }

  /** encode() followed by [begin(), end()): the bytes for `ch`, or None
      when the encoder refuses it. */
  function Encoding(kind: EncoderKind, ch: Char32, table: MappingTable): Option<seq<Byte>>
    requires ValidEncoderKind(kind)
  {
    match kind
    case RawEncoder => RawEncoding(ch)
    case AsciiEncoder => AsciiEncoding(ch)
    case Iso8859Encoder(sub) => IsoEncoding(sub, ch, table)
    case Utf8Encoder => Utf8Encoding(ch)
    case Utf16Encoder(e) => Utf16Encoding(ch, e)
    case Utf32Encoder(e) => Utf32Encoding(ch, e)
  }

  /** Words stored through from_host() read back, in host memory order, as
      the bytes of the words in order `e`. */
  lemma WordBytesFromHost(units: seq<bv16>, stored: seq<bv16>, e: Endian)
    requires e.Known() && |stored| == |units|
    requires forall k :: 0 <= k < |units| ==> stored[k] == FromHost16(units[k], e)
    ensures WordBytes(stored, HostOrder) == WordBytes(units, e)
  {
    if units != [] {
      WordBytesFromHost(units[1..], stored[1..], e);
    }
  }

  /* ---------- the encoder structs ---------- */

  /**
   * One encoder of any kind.  The fields are the union of the encoder
   * structs' members; an encoder of a given kind uses only its own.
   */
  class Encoder {
    const kind: EncoderKind
    /** detail::iso8859_mapping */
    const table: MappingTable
    /** m_flag of raw_encoder */
    var flag: bool
    /** m_byte of raw_encoder, ascii_encoder and iso8859_encoder_base */
    var byte: Byte
    /** m_buffer of utf8_encoder */
    const buffer: array<Byte>
    /** m_buffer of utf16_encoder */
    const words: array<bv16>
    /** m_end of utf8_encoder and utf16_encoder, as a byte offset from m_buffer */
    var end: nat
    /** m_buffer of utf32_encoder */
    var quad: bv32

    ghost predicate Valid()
      reads this
    {
      buffer.Length == 4 && words.Length == 2 && ValidEncoderKind(kind) &&
      end <= 4 && (kind.Utf16Encoder? ==> end % 2 == 0)
    }

    /** The bytes from begin() to end(). */
    function Output(): seq<Byte>
      reads this, buffer, words
      requires Valid()
    {
      match kind
      case RawEncoder => if flag then [byte] else []
      case AsciiEncoder => SingleOutput(byte)
      case Iso8859Encoder(_) => SingleOutput(byte)
      case Utf8Encoder => buffer[..end]
      case Utf16Encoder(_) => WordBytes(words[..end / 2], HostOrder)
      case Utf32Encoder(_) => W32(quad).Bytes(HostOrder)
    }

    /** The constructors of the encoder structs: raw_encoder starts with its
        flag down and m_byte zero.  ascii_encoder leaves m_byte
        uninitialised, and utf8_encoder and utf32_encoder their buffers;
        they start out empty (or zero) here. */
    constructor (kind: EncoderKind, table: MappingTable)
      requires ValidEncoderKind(kind)
      ensures Valid() && fresh(buffer) && fresh(words)
      ensures this.kind == kind && this.table == table
      ensures !kind.Utf32Encoder? ==> Output() == []
      ensures kind.Utf32Encoder? ==> Output() == [0, 0, 0, 0]
    {
      this.kind := kind;
      this.table := table;
      flag := false;
      byte := if kind.RawEncoder? then 0 else NoByte;
      end := 0;
      quad := 0;
      buffer := new Byte[4](_ => 0);
      words := new bv16[2](_ => 0);
    }

    /** encode(): takes one character; on success the bytes for it are
        between begin() and end().  A refused character leaves the
        single-byte encoders empty and the UTF-8 and UTF-16 encoders
        showing the bytes of the previous character. */
    method Encode(ch: Char32) returns (ok: bool)
      requires Valid()
      modifies this, buffer, words
      ensures Valid()
      ensures ok <==> Encoding(kind, ch, table).Some?
      ensures ok ==> Output() == Encoding(kind, ch, table).value
      ensures !ok && (kind.RawEncoder? || kind.AsciiEncoder? || kind.Iso8859Encoder?) ==> Output() == []
      ensures !ok && (kind.Utf8Encoder? || kind.Utf16Encoder?) ==> Output() == old(Output())
    {
      match kind
      case RawEncoder =>
        ok := EncodeRaw(ch);
      case AsciiEncoder =>
        ok := EncodeAscii(ch);
      case Iso8859Encoder(_) =>
        ok := EncodeIso(ch);
        assert Output() == SingleOutput(byte);
      case Utf8Encoder =>
        ok := EncodeUtf8(ch);
      case Utf16Encoder(e) =>
        ok := EncodeUtf16(ch);
        if ok {
          WordBytesFromHost(Utf16Units(ch).value, words[..end / 2], e);
        }
      case Utf32Encoder(_) =>
        ok := EncodeUtf32(ch);
    }

    /** encode() of raw_encoder. */
    method EncodeRaw(ch: Char32) returns (ok: bool)
      requires Valid() && kind.RawEncoder?
      modifies this
      ensures Valid() && end == old(end)
      ensures ok == flag && (ok <==> ch <= 255)
      ensures ok ==> byte == Truncate(ch)
    {
      if ch <= 255 {
        byte := Truncate(ch);
        flag := true;
      } else {
        flag := false;
      }
      return flag;
    }

    /** encode() of ascii_encoder. */
    method EncodeAscii(ch: Char32) returns (ok: bool)
      requires Valid() && kind.AsciiEncoder?
      modifies this
      ensures Valid() && end == old(end)
      ensures ok <==> ch <= 127
      ensures byte == if ok then Truncate(ch) else NoByte
    {
      if ch <= 127 {
        byte := Truncate(ch);
        return true;
      }
      byte := NoByte;
      return false;
    }

    /** encode() of iso8859_encoder_base: a search of the part's slice of
        the mapping table for the character. */
    method EncodeIso(ch: Char32) returns (ok: bool)
      requires Valid() && kind.Iso8859Encoder?
      modifies this
      ensures Valid() && end == old(end)
      ensures IsoByte(kind.sub, ch, table) == if ok then Some(byte) else None
      ensures !ok ==> byte == NoByte
    {
      var sub := kind.sub;
      if ch <= 127 {
        byte := Truncate(ch);
        return true;
      }
      if sub == 1 {
        if 160 <= ch <= 255 {
          byte := Truncate(ch);
          return true;
        }
      } else {
        var offset: nat := sub - 2;
        if sub > 11 {
          offset := offset - 1;
        }
        offset := offset * 96;
        assert offset == TableOffset(sub);
        ghost var slice := Slice(sub, table);
        var i := offset;
        while i < offset + 96
          invariant offset <= i <= offset + 96
          invariant forall j :: 0 <= j < i - offset ==> slice[j] != ch
        {
          if table[i] == ch {
            assert slice[i - offset] == ch;
            byte := SliceByte(i - offset);
            return true;
          }
          i := i + 1;
        }
        assert ch !in slice;
      }
      byte := NoByte;
      return false;
    }

    /** encode() of utf8_encoder: the octets are written back to front,
        each case of the switch falling through to the next. */
    method EncodeUtf8(ch: Char32) returns (ok: bool)
      requires Valid() && kind.Utf8Encoder?
      modifies this, buffer
      ensures Valid()
      ensures ok <==> ch < 0x110000
      ensures ok ==> buffer[..end] == Utf8Octets(ch)
      ensures !ok ==> end == old(end) && buffer[..] == old(buffer[..])
    {
      var size: nat := 0;
      if ch < 0x80 {
        size := 1;
      } else if ch < 0x800 {
        size := 2;
      } else if ch < 0x10000 {
        size := 3;
      } else if ch < 0x110000 {
        size := 4;
      } else {
        return false;
      }
      var c := ch;
      var offset := size;
      end := offset;
      if size >= 4 {
        offset := offset - 1;
        buffer[offset] := ContinuationOctet(c);
        c := c >> 6;
      }
      if size >= 3 {
        offset := offset - 1;
        buffer[offset] := ContinuationOctet(c);
        c := c >> 6;
      }
      if size >= 2 {
        offset := offset - 1;
        buffer[offset] := ContinuationOctet(c);
        c := c >> 6;
      }
      offset := offset - 1;
      buffer[offset] := LeadOctet(c, size);
      return true;
    }

    /** encode() of utf16_encoder. */
    method EncodeUtf16(ch: Char32) returns (ok: bool)
      requires Valid() && kind.Utf16Encoder?
      modifies this, words
      ensures Valid()
      ensures ok <==> Utf16Units(ch).Some?
      ensures ok ==> end == 2 * |Utf16Units(ch).value|
      ensures ok ==> forall k :: 0 <= k < end / 2 ==> words[k] == FromHost16(Utf16Units(ch).value[k], kind.order)
      ensures !ok ==> end == old(end) && words[..] == old(words[..])
    {
      if ch <= 0xffff {
        if 0xd800 < ch <= 0xdfff {
          return false;
        }
        words[0] := FromHost16(ch as bv16, kind.order);
        end := 2;
        return true;
      }
      if ch > 0x10ffff {
        return false;
      }
      words[0] := FromHost16(LeadSurrogate(ch), kind.order);
      words[1] := FromHost16(TrailSurrogate(ch), kind.order);
      end := 4;
      return true;
    }

    /** encode() of utf32_encoder: always succeeds. */
    method EncodeUtf32(ch: Char32) returns (ok: bool)
      requires Valid() && kind.Utf32Encoder?
      modifies this
      ensures Valid() && ok
      ensures quad == FromHost32(ch, kind.order)
    {
      quad := FromHost32(ch, kind.order);
      return true;
    }
  }
}
