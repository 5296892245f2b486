/**
 * Encoding followed by decoding (fhtagn/text/encoders.h and decoders.h,
 * through the drivers of fhtagn/text/transcoding.h).
 *
 * A character round-trips when the bytes its encoder writes take the
 * matching decoder, from rest, to a full state holding that character and
 * back to rest once flushed.  The drivers then carry any sequence of such
 * characters through encode() and decode() unchanged.  The characters that
 * do not round-trip are exactly the quirks of the two headers: U+007F in
 * UTF-8, surrogate pairs whose lead is 0xD800 or whose trail is 0xDC00 in
 * UTF-16, and ISO-8859 characters stored as the byte 0xFF.
 */
module RoundTrips {
  import opened ByteOrder
  import opened TextTypes
  import opened Decoders
  import opened Encoders
  import opened Transcoding

  /* ---------- feeding bytes to a decoder ---------- */

  /** The decoder after append() of each byte in turn, when every one is
      accepted; None as soon as one is refused. */
  function Feed(d: DecState, bytes: seq<Byte>): (r: Option<DecState>)
    requires Ready(d)
    ensures r.Some? ==> Ready(r.value)
    ensures r.Some? && bytes != [] ==> !HaveFull(d)
    decreases |bytes|
  {
    if bytes == [] then Some(d)
    else
      var st := AppendStep(d, bytes[0]);
      if st.accepted then Feed(st.state, bytes[1..]) else None
  }

  lemma {:induction false} FeedAppend(d: DecState, a: seq<Byte>, b: seq<Byte>)
    requires Ready(d)
    ensures Feed(d, a + b) == match Feed(d, a) { case None => None case Some(m) => Feed(m, b) }
    decreases |a|
  {
    if a == [] {
      assert a + b == b;
    } else {
      assert (a + b)[0] == a[0];
      assert (a + b)[1..] == a[1..] + b;
      var st := AppendStep(d, a[0]);
      if st.accepted {
        FeedAppend(st.state, a[1..], b);
      }
    }
  }

  lemma FeedPair(d: DecState, x0: Byte, x1: Byte)
    requires Ready(d)
    ensures Feed(d, [x0, x1])
         == var s1 := AppendStep(d, x0);
            if !s1.accepted then None
            else var s2 := AppendStep(s1.state, x1);
                 if !s2.accepted then None else Some(s2.state)
  {
    assert [x0, x1][1..] == [x1];
    assert [x1][1..] == [];
    var s1 := AppendStep(d, x0);
    if s1.accepted {
      assert Feed(d, [x0, x1]) == Feed(s1.state, [x1]);
      var s2 := AppendStep(s1.state, x1);
      if s2.accepted {
        assert Feed(s1.state, [x1]) == Feed(s2.state, []);
      }
    }
  }

  /** Bytes the decoder accepts one after the other, without filling up
      before the last, leave decode() where feeding them leaves the decoder. */
  lemma {:induction false} DecodeFeeds(d: DecState, input: seq<Byte>, i: nat, j: nat, replace: bool, table: MappingTable)
    requires Ready(d) && i <= j <= |input|
    requires Feed(d, input[i..j]).Some?
    ensures DecodeFrom(d, input, i, replace, table)
         == DecodeFrom(Feed(d, input[i..j]).value, input, j, replace, table)
    decreases j - i
  {
    if i < j {
      var st := AppendStep(d, input[i]);
      assert input[i..j][0] == input[i];
      assert input[i..j][1..] == input[i + 1..j];
      assert TurnOf(d, input[i], replace, table) == DecodeTurn([], st.state, false);
      DecodeFeeds(st.state, input, i + 1, j, replace, table);
      assert [] + DecodeFrom(st.state, input, i + 1, replace, table).output
          == DecodeFrom(st.state, input, i + 1, replace, table).output;
    }
  }

  /** A full decoder writes its character before it does anything else. */
  lemma FlushFirst(f: DecState, input: seq<Byte>, j: nat, replace: bool, table: MappingTable)
    requires Ready(f) && HaveFull(f) && j <= |input|
    ensures DecodeFrom(f, input, j, replace, table)
         == PrependChars([Value(f, table)], DecodeFrom(ResetState(f), input, j, replace, table))
  {
    var r := ResetState(f);
    if j < |input| {
      var t := TurnOf(f, input[j], replace, table);
      var u := TurnOf(r, input[j], replace, table);
      assert t.emitted == [Value(f, table)] + u.emitted;
      if !t.stops {
        var rest := DecodeFrom(t.next, input, j + 1, replace, table);
        assert t.emitted + rest.output == [Value(f, table)] + (u.emitted + rest.output);
      }
    }
  }

  /* ---------- characters that round-trip ---------- */

  /** A decoder of the given kind between two characters: nothing buffered,
      and the byte order of the kind. */
  predicate Resting(kind: DecoderKind, d: DecState)
  {
    Ready(d) && ResetState(d) == d &&
    match kind
    case AsciiDecoder => d.AsciiState?
    case Iso8859Decoder(sub) => d.IsoState? && d.sub == sub
    case Utf8Decoder => d.Utf8State?
    case Utf16Decoder(e) => d.Utf16State? && d.endian == e
    case Utf32Decoder(e) => d.Utf32State? && d.endian == e
  }

  lemma InitResting(kind: DecoderKind)
    requires ValidDecoderKind(kind)
    ensures Resting(kind, InitState(kind))
  {
  }

  /** `bytes` take a resting decoder to a full one holding `c`, which is
      resting again once flushed. */
  ghost predicate CharDecodes(kind: DecoderKind, d: DecState, bytes: seq<Byte>, c: Char32, table: MappingTable)
    requires Resting(kind, d)
  {
    var r := Feed(d, bytes);
    r.Some? && HaveFull(r.value) && Value(r.value, table) == c && Resting(kind, ResetState(r.value))
  }

  /** `bytes` decode to `c` from every resting state. */
  ghost predicate ChunkDecodes(kind: DecoderKind, bytes: seq<Byte>, c: Char32, table: MappingTable)
  {
    forall d {:trigger CharDecodes(kind, d, bytes, c, table)} ::
      Resting(kind, d) ==> CharDecodes(kind, d, bytes, c, table)
  }

  /** The encoder accepts `c`, and its bytes decode back to `c`. */
  ghost predicate RoundTrips(dk: DecoderKind, ek: EncoderKind, table: MappingTable, c: Char32)
    requires ValidEncoderKind(ek)
  {
    Encoding(ek, c, table).Some? && ChunkDecodes(dk, Encoding(ek, c, table).value, c, table)
  }

  /** The chunks one after the other. */
  function Concat(chunks: seq<seq<Byte>>): seq<Byte>
  {
    if chunks == [] then [] else chunks[0] + Concat(chunks[1..])
  }

  /** The bytes of one round-tripping character at position i: decode()
      writes the character and goes on from a resting decoder after them. */
  lemma DecodeOneChar(dk: DecoderKind, d: DecState, bytes: seq<Byte>, c: Char32, input: seq<Byte>, i: nat,
                      replace: bool, table: MappingTable) returns (next: DecState)
    requires Resting(dk, d) && ChunkDecodes(dk, bytes, c, table)
    requires i + |bytes| <= |input| && input[i..i + |bytes|] == bytes
    ensures Resting(dk, next)
    ensures DecodeFrom(d, input, i, replace, table)
         == PrependChars([c], DecodeFrom(next, input, i + |bytes|, replace, table))
  {
    assert CharDecodes(dk, d, bytes, c, table);
    FeedThenFlush(d, bytes, input, i, replace, table);
    next := ResetState(Feed(d, bytes).value);
  }

  /** decode() over bytes that fill the decoder writes its character and
      goes on from the reset decoder after them. */
  lemma FeedThenFlush(d: DecState, bytes: seq<Byte>, input: seq<Byte>, i: nat, replace: bool, table: MappingTable)
    requires Ready(d) && Feed(d, bytes).Some?
    requires Ready(Feed(d, bytes).value) && HaveFull(Feed(d, bytes).value)
    requires i + |bytes| <= |input| && input[i..i + |bytes|] == bytes
    ensures DecodeFrom(d, input, i, replace, table)
         == PrependChars([Value(Feed(d, bytes).value, table)],
                         DecodeFrom(ResetState(Feed(d, bytes).value), input, i + |bytes|, replace, table))
  {
    var f := Feed(d, bytes).value;
    var j := i + |bytes|;
    DecodeFeeds(d, input, i, j, replace, table);
    assert Feed(d, input[i..j]).value == f;
    FlushFirst(f, input, j, replace, table);
  }

  /** A result that starts with chars[0] and goes on with the rest of
      chars is the result for chars. */
  lemma PrependFirst(r: DecodeResult, rest: DecodeResult, chars: seq<Char32>, stop: nat)
    requires chars != [] && rest == DecodeResult(chars[1..], stop) && r == PrependChars([chars[0]], rest)
    ensures r == DecodeResult(chars, stop)
  {
    assert [chars[0]] + chars[1..] == chars;
  }

  lemma SplitConcat(chunks: seq<seq<Byte>>, input: seq<Byte>, i: nat)
    requires i <= |input| && chunks != [] && input[i..] == Concat(chunks)
    ensures i + |chunks[0]| <= |input| && input[i..i + |chunks[0]|] == chunks[0]
    ensures input[i + |chunks[0]|..] == Concat(chunks[1..])
  {
    var j := i + |chunks[0]|;
    assert input[i..j] == input[i..][..|chunks[0]|];
    assert input[j..] == input[i..][|chunks[0]|..];
  }

  /** At the end of the input, a resting decoder has nothing to flush. */
  lemma DecodeAtEnd(dk: DecoderKind, d: DecState, input: seq<Byte>, i: nat, replace: bool, table: MappingTable)
    requires Resting(dk, d) && i <= |input| && input[i..] == []
    ensures DecodeFrom(d, input, i, replace, table) == DecodeResult([], |input|)
  {
    assert !HaveFull(ResetState(d));
    assert i == |input|;
  }

  /** Every chunk after the first still decodes to its character. */
  lemma ChunksTail(dk: DecoderKind, chars: seq<Char32>, chunks: seq<seq<Byte>>, table: MappingTable)
    requires chars != [] && |chunks| == |chars|
    requires forall k :: 0 <= k < |chars| ==> ChunkDecodes(dk, chunks[k], chars[k], table)
    ensures forall k :: 0 <= k < |chars[1..]| ==> ChunkDecodes(dk, chunks[1..][k], chars[1..][k], table)
  {
    forall k | 0 <= k < |chars[1..]|
      ensures ChunkDecodes(dk, chunks[1..][k], chars[1..][k], table)
    {
      assert chunks[1..][k] == chunks[k + 1] && chars[1..][k] == chars[k + 1];
    }
  }

  /** decode() reads chunks that each decode to one character back as
      those characters, to the end. */
  lemma {:induction false} DecodeChunksFrom(dk: DecoderKind, chars: seq<Char32>, chunks: seq<seq<Byte>>,
                                            d: DecState, input: seq<Byte>, i: nat, replace: bool,
                                            table: MappingTable)
    requires Resting(dk, d) && i <= |input| && |chunks| == |chars|
    requires forall k :: 0 <= k < |chars| ==> ChunkDecodes(dk, chunks[k], chars[k], table)
    requires input[i..] == Concat(chunks)
    ensures DecodeFrom(d, input, i, replace, table) == DecodeResult(chars, |input|)
    decreases |chars|
  {
    if chars == [] {
      DecodeAtEnd(dk, d, input, i, replace, table);
    } else {
      assert ChunkDecodes(dk, chunks[0], chars[0], table);
      SplitConcat(chunks, input, i);
      var next := DecodeOneChar(dk, d, chunks[0], chars[0], input, i, replace, table);
      ChunksTail(dk, chars, chunks, table);
      DecodeChunksFrom(dk, chars[1..], chunks[1..], next, input, i + |chunks[0]|, replace, table);
      PrependFirst(DecodeFrom(d, input, i, replace, table), DecodeFrom(next, input, i + |chunks[0]|, replace, table),
                   chars, |input|);
    }
  }

  /** The bytes encode() writes for characters it accepts are their
      encodings one after the other. */
  lemma {:induction false} EncodedChunks(ek: EncoderKind, table: MappingTable, chars: seq<Char32>)
    requires ValidEncoderKind(ek)
    requires forall k :: 0 <= k < |chars| ==> Encoding(ek, chars[k], table).Some?
    ensures EncodedBytes(ek, table, chars)
         == Concat(seq(|chars|, k requires 0 <= k < |chars| => Encoding(ek, chars[k], table).value))
    decreases |chars|
  {
    if chars != [] {
      var chunks := seq(|chars|, k requires 0 <= k < |chars| => Encoding(ek, chars[k], table).value);
      var rest := chars[1..];
      assert forall k :: 0 <= k < |rest| ==> rest[k] == chars[k + 1];
      EncodedChunks(ek, table, rest);
      assert chunks[1..] == seq(|rest|, k requires 0 <= k < |rest| => Encoding(ek, rest[k], table).value);
    }
  }

  lemma {:induction false} CleanedKeeps(kind: EncoderKind, table: MappingTable, input: seq<Char32>, replacement: Char32)
    requires ValidEncoderKind(kind)
    requires forall k :: 0 <= k < |input| ==> Encoding(kind, input[k], table).Some?
    ensures Cleaned(kind, table, input, replacement) == input
    decreases |input|
  {
    if input != [] {
      assert forall k :: 0 <= k < |input[1..]| ==> input[1..][k] == input[k + 1];
      CleanedKeeps(kind, table, input[1..], replacement);
      assert [input[0]] + input[1..] == input;
    }
  }

  /** encode() then decode(): characters that each round-trip come back
      unchanged, whatever either driver's replacement flag. */
  lemma RoundTrip(dk: DecoderKind, ek: EncoderKind, table: MappingTable, input: seq<Char32>,
                  encodeReplace: bool, replacement: Char32, decodeReplace: bool)
    requires ValidDecoderKind(dk) && ValidEncoderKind(ek)
    requires forall k :: 0 <= k < |input| ==> RoundTrips(dk, ek, table, input[k])
    ensures var encoded := EncodeRun(ek, table, input, encodeReplace, replacement);
            encoded.stop == |input| &&
            DecodeRun(dk, encoded.output, decodeReplace, table) == DecodeResult(input, |encoded.output|)
  {
    EncodeRunResult(ek, table, input, replacement);
    CleanedKeeps(ek, table, input, replacement);
    assert input[..|input|] == input;
    var bytes := EncodedBytes(ek, table, input);
    assert bytes[0..] == bytes;
    InitResting(dk);
    var chunks := seq(|input|, k requires 0 <= k < |input| => Encoding(ek, input[k], table).value);
    EncodedChunks(ek, table, input);
    assert forall k :: 0 <= k < |input| ==> RoundTrips(dk, ek, table, input[k]) && chunks[k] == Encoding(ek, input[k], table).value;
    DecodeChunksFrom(dk, input, chunks, InitState(dk), bytes, 0, decodeReplace, table);
  }

  /* ---------- ASCII ---------- */

  /** ascii_encoder and ascii_decoder carry exactly the values up to 127. */
  lemma AsciiRoundTrips(c: Char32, table: MappingTable)
    ensures RoundTrips(AsciiDecoder, AsciiEncoder, table, c) <==> c <= 127
  {
    if c <= 127 {
      var bytes := Encoding(AsciiEncoder, c, table).value;
      forall d | Resting(AsciiDecoder, d)
        ensures CharDecodes(AsciiDecoder, d, bytes, c, table)
      {
        assert bytes[1..] == [];
      }
    }
  }

  /* ---------- ISO-8859 ---------- */

  lemma IsoSliceByteDecodes(sub: nat, c: Char32, table: MappingTable)
    requires IsDecoderPart(sub) && sub != 1 && c > 127
    requires FirstIndex(Slice(sub, table), c).Some?
    ensures var b := SliceByte(FirstIndex(Slice(sub, table), c).value);
            b >= 160 && IsoValue(sub, b, table) == c
  {
    var i := FirstIndex(Slice(sub, table), c).value;
    SliceByteValue(i);
    IsoSliceValue(sub, SliceByte(i), i, table);
  }

  /** The decoder reads byte 160 + i of a part as entry i of its slice. */
  lemma IsoSliceValue(sub: nat, b: Byte, i: nat, table: MappingTable)
    requires IsDecoderPart(sub) && sub != 1 && i < PartWidth
    requires b >= 160 && b as int == 160 + i
    ensures IsoValue(sub, b, table) == Slice(sub, table)[i]
  {
  }

  lemma TruncateSmall(c: Char32)
    requires c <= 255
    ensures Truncate(c) as bv32 == c
  {
  }

  /** The byte an ISO-8859 encoder stores is one the decoder of the same
      part reads back as the character. */
  lemma IsoByteDecodes(sub: nat, c: Char32, table: MappingTable)
    requires IsDecoderPart(sub) && IsoByte(sub, c, table).Some?
    ensures var b := IsoByte(sub, c, table).value;
            (b <= 127 || b >= 160) && IsoValue(sub, b, table) == c
  {
    if c <= 127 || sub == 1 {
      TruncateSmall(c);
    } else {
      IsoSliceByteDecodes(sub, c, table);
    }
  }

  /** iso8859_N_encoder and iso8859_N_decoder carry exactly the characters
      the encoder accepts and writes a byte for. */
  lemma IsoRoundTrips(sub: nat, c: Char32, table: MappingTable)
    requires IsDecoderPart(sub)
    ensures RoundTrips(Iso8859Decoder(sub), Iso8859Encoder(sub), table, c)
        <==> IsoByte(sub, c, table).Some? && IsoByte(sub, c, table).value != NoByte
  {
    var kind := Iso8859Decoder(sub);
    if IsoByte(sub, c, table).Some? {
      var bytes := Encoding(Iso8859Encoder(sub), c, table).value;
      if IsoByte(sub, c, table).value != NoByte {
        IsoByteDecodes(sub, c, table);
        forall d | Resting(kind, d)
          ensures CharDecodes(kind, d, bytes, c, table)
        {
          assert bytes[1..] == [];
        }
      } else {
        var rest := IsoState(sub, 128);
        assert bytes == [];
        assert !CharDecodes(kind, rest, bytes, c, table);
      }
    }
  }

  /** An ISO-8859 encoder stores U+00FF of part 1 as the byte 0xFF, which
      is also its empty-buffer signal: the character is accepted and nothing
      is written, so it is lost without a replacement. */
  lemma IsoLosesByteFF(table: MappingTable, replacement: Char32)
    ensures IsoByte(1, 0xff, table) == Some(0xff)
    ensures IsoEncoding(1, 0xff, table) == Some([])
    ensures EncodeRun(Iso8859Encoder(1), table, [0xff], false, replacement) == EncodeResult([], 1)
  {
  }

  /** The same happens to the character in the last position of any
      other part's slice, unless it also occurs earlier in the slice. */
  lemma IsoLosesLastSlot(sub: nat, table: MappingTable)
    requires IsEncoderPart(sub) && sub != 1
    requires table[TableOffset(sub) + 95] > 127
    requires table[TableOffset(sub) + 95] !in Slice(sub, table)[..95]
    ensures IsoEncoding(sub, table[TableOffset(sub) + 95], table) == Some([])
  {
    var s := Slice(sub, table);
    var c := table[TableOffset(sub) + 95];
    assert s[95] == c;
  }

  /* ---------- UTF-32 ---------- */

  /** The decoder's buffer after bytes 0 to 3 are written into it. */
  function Gathered(quad: bv32, b: seq<Byte>): bv32
    requires |b| == 4
  {
    SetByte(SetByte(SetByte(SetByte(quad, 0, b[0]), 1, b[1]), 2, b[2]), 3, b[3])
  }

  lemma GatheredValue(quad: bv32, b: seq<Byte>)
    requires |b| == 4
    ensures Gathered(quad, b) == FromLittleBytes(b)
  {
    var q1 := SetByte(quad, 0, b[0]);
    var q2 := SetByte(q1, 1, b[1]);
    var q3 := SetByte(q2, 2, b[2]);
    SetByteLayout(quad, 0, b[0]);
    SetByteLayout(q1, 1, b[1]);
    SetByteLayout(q2, 2, b[2]);
    assert W32(q3).LittleBytes()[3 := b[3]] == b;
  }

  lemma Utf32StepInside(e: Endian, q: bv32, used: nat, b: Byte)
    requires used < 3
    ensures AppendStep(Utf32State(e, q, used), b) == Step(true, Utf32State(e, SetByte(q, used, b), used + 1))
  {
  }

  lemma Utf32StepLast(e: Endian, q: bv32, b: Byte)
    requires e.Known()
    ensures AppendStep(Utf32State(e, q, 3), b) == Step(true, Utf32State(e, ToHost32(SetByte(q, 3, b), e), 4))
  {
  }

  /** Four bytes fed to a resting UTF-32 decoder of a known order leave it
      full, holding the value they encode in that order. */
  lemma Utf32Feeds(e: Endian, quad: bv32, b: seq<Byte>)
    requires e.Known() && |b| == 4
    ensures Feed(Utf32State(e, quad, 0), b) == Some(Utf32State(e, ToHost32(Gathered(quad, b), e), 4))
  {
    var d := Utf32State(e, quad, 0);
    var q1 := SetByte(quad, 0, b[0]);
    var q2 := SetByte(q1, 1, b[1]);
    var q3 := SetByte(q2, 2, b[2]);
    Utf32StepInside(e, quad, 0, b[0]);
    Utf32StepInside(e, q1, 1, b[1]);
    Utf32StepInside(e, q2, 2, b[2]);
    Utf32StepLast(e, q3, b[3]);
    FeedPair(d, b[0], b[1]);
    FeedPair(Utf32State(e, q2, 2), b[2], b[3]);
    FeedAppend(d, [b[0], b[1]], [b[2], b[3]]);
    FourSplit(b);
  }

  lemma FourSplit(b: seq<Byte>)
    requires |b| == 4
    ensures b == [b[0], b[1]] + [b[2], b[3]]
  {
  }

  /** utf32_encoder and utf32_decoder of the same known order: every value,
      including those beyond U+10FFFF. */
  lemma Utf32RoundTrips(e: Endian, c: Char32, table: MappingTable)
    requires e.Known()
    ensures RoundTrips(Utf32Decoder(e), Utf32Encoder(e), table, c)
  {
    var bytes := Encoding(Utf32Encoder(e), c, table).value;
    assert bytes == W32(c).Bytes(e);
    FromLittleBytesImage(bytes);
    var v := ToHost32(FromLittleBytes(bytes), e);
    BytesDetermineWord(W32(v), W32(c), e);
    forall d | Resting(Utf32Decoder(e), d)
      ensures CharDecodes(Utf32Decoder(e), d, bytes, c, table)
    {
      Utf32Feeds(e, d.quad, bytes);
      GatheredValue(d.quad, bytes);
      assert Feed(d, bytes) == Some(Utf32State(e, c, 4));
      Utf32Full(e, c, table);
    }
  }

  /** A full UTF-32 decoder holds its quad and resets to a resting state. */
  lemma Utf32Full(e: Endian, c: Char32, table: MappingTable)
    requires e.Known()
    ensures var f := Utf32State(e, c, 4);
            Ready(f) && HaveFull(f) && Value(f, table) == c && Resting(Utf32Decoder(e), ResetState(f))
  {
  }

  /* ---------- UTF-16 ---------- */

  lemma ToHost16Orders(x: bv16)
    ensures ToHost16(x, Little) == x
    ensures ToHost16(x, Big) == Swap16(x)
  {
    assert Decision[HostOrder.Code()][Little.Code()] == false;
    assert Decision[HostOrder.Code()][Big.Code()] == true;
  }

  lemma AssembleLittle(u: bv16)
    ensures Assemble(Byte16(u, 0) as bv16, Byte16(u, 1)) == u
  {
  }

  lemma AssembleBig(u: bv16)
    ensures Assemble(Byte16(u, 1) as bv16, Byte16(u, 0)) == Swap16(u)
  {
  }

  lemma Swap16Twice(u: bv16)
    ensures Swap16(Swap16(u)) == u
  {
  }

  /** The two bytes of a word in order `e`, read back as the decoder does,
      give the word again. */
  lemma WordReadsBack(e: Endian, u: bv16)
    requires e.Known()
    ensures var b := W16(u).Bytes(e);
            ToHost16(Assemble(b[0] as bv16, b[1]), e) == u
  {
    if e == Little {
      AssembleLittle(u);
      ToHost16Orders(u);
    } else {
      AssembleBig(u);
      ToHost16Orders(Swap16(u));
      Swap16Twice(u);
    }
  }

  lemma Utf16StepLow(e: Endian, words: seq<bv16>, used: nat, size: nat, x: Byte)
    requires Wf(Utf16State(e, words, used, size)) && (used == 0 || used == 2) && (size == 0 || used < size)
    ensures AppendStep(Utf16State(e, words, used, size), x)
         == Step(true, Utf16State(e, words[used / 2 := x as bv16], used + 1, size))
  {
  }

  lemma Utf16StepHigh(e: Endian, words: seq<bv16>, used: nat, size: nat, x: Byte)
    requires e.Known() && Wf(Utf16State(e, words, used, size)) && (used == 1 || used == 3)
    requires size == 0 || used < size
    ensures AppendStep(Utf16State(e, words, used, size), x)
         == var hw := ToHost16(Assemble(words[used / 2], x), e);
            JudgeWord(e, words[used / 2 := hw], used + 1, size, hw)
  {
  }

  lemma UpdateTwice<T>(s: seq<T>, k: nat, x: T, y: T)
    requires k < |s|
    ensures s[k := x][k := y] == s[k := y]
  {
  }

  lemma PairOfTwo<T>(b: seq<T>)
    requires |b| == 2
    ensures b == [b[0], b[1]]
  {
  }

  /** Two bytes the decoder reads as the word `u`, fed to a UTF-16 decoder
      with room for a word: the word is stored and judged. */
  lemma Utf16FeedsBytes(e: Endian, words: seq<bv16>, used: nat, size: nat, b: seq<Byte>, u: bv16)
    requires e.Known() && Wf(Utf16State(e, words, used, size)) && (used == 0 || used == 2)
    requires size == 0 || used < size
    requires |b| == 2 && ToHost16(Assemble(b[0] as bv16, b[1]), e) == u
    ensures var j := JudgeWord(e, words[used / 2 := u], used + 2, size, u);
            Feed(Utf16State(e, words, used, size), b) == if j.accepted then Some(j.state) else None
  {
    var w1 := words[used / 2 := b[0] as bv16];
    Utf16StepLow(e, words, used, size, b[0]);
    Utf16StepHigh(e, w1, used + 1, size, b[1]);
    UpdateTwice(words, used / 2, b[0] as bv16, u);
    FeedPair(Utf16State(e, words, used, size), b[0], b[1]);
    PairOfTwo(b);
  }

  /** The two bytes of one word fed to a UTF-16 decoder with room for it. */
  lemma Utf16FeedsWord(e: Endian, words: seq<bv16>, used: nat, size: nat, u: bv16)
    requires e.Known() && Wf(Utf16State(e, words, used, size)) && (used == 0 || used == 2)
    requires size == 0 || used < size
    ensures var j := JudgeWord(e, words[used / 2 := u], used + 2, size, u);
            Feed(Utf16State(e, words, used, size), W16(u).Bytes(e)) == if j.accepted then Some(j.state) else None
  {
    WordReadsBack(e, u);
    Utf16FeedsBytes(e, words, used, size, W16(u).Bytes(e), u);
  }

  /** A surrogate pair joins back to its character; its lead is a leading
      word for the decoder unless it is 0xD800, and its trail a trailing
      word unless it is 0xDC00. */
  lemma SurrogateBits(c: Char32)
    requires 0x10000 <= c <= 0x10ffff
    ensures Utf16Combine(LeadSurrogate(c), TrailSurrogate(c)) == c
    ensures IsLeadWord(LeadSurrogate(c)) <==> c >= 0x10400
    ensures IsTrailWord(TrailSurrogate(c)) <==> c & 0x3ff != 0
  {
    SurrogatesJoin(c);
    LeadSurrogateRange(c);
    TrailSurrogateRange(c);
  }

  lemma SurrogatesJoin(c: Char32)
    requires 0x10000 <= c <= 0x10ffff
    ensures Utf16Combine(LeadSurrogate(c), TrailSurrogate(c)) == c
  {
  }

  lemma LeadSurrogateRange(c: Char32)
    requires 0x10000 <= c <= 0x10ffff
    ensures IsLeadWord(LeadSurrogate(c)) <==> c >= 0x10400
  {
  }

  lemma TrailSurrogateRange(c: Char32)
    requires 0x10000 <= c <= 0x10ffff
    ensures IsTrailWord(TrailSurrogate(c)) <==> c & 0x3ff != 0
  {
  }

  /** The characters utf16_encoder and utf16_decoder carry unchanged. */
  predicate Utf16Clean(c: Char32)
  {
    (c <= 0xffff && !(0xd800 < c <= 0xdfff)) ||
    (0x10400 <= c <= 0x10ffff && c & 0x3ff != 0)
  }

  lemma WordBytesOne(u: bv16, e: Endian)
    requires e.Known()
    ensures WordBytes([u], e) == W16(u).Bytes(e)
  {
    assert WordBytes([u], e) == W16(u).Bytes(e) + WordBytes([], e);
  }

  lemma Utf16SingleFeeds(e: Endian, d: DecState, u: bv16)
    requires e.Known() && Resting(Utf16Decoder(e), d)
    requires !IsLeadWord(u) && !IsTrailWord(u)
    ensures Feed(d, WordBytes([u], e)) == Some(Utf16State(e, d.words[0 := u], 2, 2))
  {
    WordBytesOne(u, e);
    Utf16FeedsWord(e, d.words, 0, 0, u);
  }

  lemma Utf16SingleDecodes(e: Endian, d: DecState, c: Char32, table: MappingTable)
    requires e.Known() && Resting(Utf16Decoder(e), d)
    requires c <= 0xffff && !IsLeadWord(c as bv16) && !IsTrailWord(c as bv16)
    ensures CharDecodes(Utf16Decoder(e), d, WordBytes([c as bv16], e), c, table)
  {
    Utf16SingleFeeds(e, d, c as bv16);
    Utf16SingleFull(e, d.words[0 := c as bv16], c, table);
  }

  /** A UTF-16 decoder full after one word holds that word's character and
      resets to a resting state. */
  lemma Utf16SingleFull(e: Endian, words: seq<bv16>, c: Char32, table: MappingTable)
    requires e.Known() && |words| == 2 && c <= 0xffff && words[0] == c as bv16
    ensures var f := Utf16State(e, words, 2, 2);
              Ready(f) && HaveFull(f) && Value(f, table) == c && Resting(Utf16Decoder(e), ResetState(f))
  {
    NarrowWiden(c);
  }

  lemma NarrowWiden(c: Char32)
    requires c <= 0xffff
    ensures (c as bv16) as bv32 == c
  {
  }

  lemma WordBytesTwo(u: bv16, v: bv16, e: Endian)
    requires e.Known()
    ensures WordBytes([u, v], e) == W16(u).Bytes(e) + W16(v).Bytes(e)
  {
    assert [u, v][1..] == [v];
    WordBytesOne(v, e);
  }

  lemma Utf16PairFeeds(e: Endian, d: DecState, c: Char32)
    requires e.Known() && Resting(Utf16Decoder(e), d) && 0x10000 <= c <= 0x10ffff
    ensures Feed(d, WordBytes([LeadSurrogate(c), TrailSurrogate(c)], e))
         == if !IsLeadWord(LeadSurrogate(c)) || !IsTrailWord(TrailSurrogate(c)) then None
            else Some(Utf16State(e, d.words[0 := LeadSurrogate(c)][1 := TrailSurrogate(c)], 4, 4))
  {
    var lead, trail := LeadSurrogate(c), TrailSurrogate(c);
    var a, b := W16(lead).Bytes(e), W16(trail).Bytes(e);
    WordBytesTwo(lead, trail, e);
    Utf16FeedsWord(e, d.words, 0, 0, lead);
    FeedAppend(d, a, b);
    if IsLeadWord(lead) {
      var m := Utf16State(e, d.words[0 := lead], 2, 4);
      assert Feed(d, a) == Some(m);
      Utf16FeedsWord(e, d.words[0 := lead], 2, 4, trail);
    } else if !IsTrailWord(lead) {
      var full := Utf16State(e, d.words[0 := lead], 2, 2);
      assert Feed(d, a) == Some(full);
      assert HaveFull(full) && b != [];
    }
  }

  /** utf16_encoder and utf16_decoder of the same known order carry exactly
      the clean characters: a pair whose lead is 0xD800 or whose trail is
      0xDC00 does not come back, because the decoder's surrogate ranges
      leave out their lower ends. */
  lemma Utf16RoundTrips(e: Endian, c: Char32, table: MappingTable)
    requires e.Known()
    ensures RoundTrips(Utf16Decoder(e), Utf16Encoder(e), table, c) <==> Utf16Clean(c)
  {
    var kind := Utf16Decoder(e);
    var rest := Utf16State(e, [0, 0], 0, 0);
    if c <= 0xffff && !(0xd800 < c <= 0xdfff) {
      var bytes := Encoding(Utf16Encoder(e), c, table).value;
      assert !IsLeadWord(c as bv16) && !IsTrailWord(c as bv16);
      forall d | Resting(kind, d) ensures CharDecodes(kind, d, bytes, c, table) {
        Utf16SingleDecodes(e, d, c, table);
      }
    } else if 0x10000 <= c <= 0x10ffff {
      var bytes := Encoding(Utf16Encoder(e), c, table).value;
      SurrogateBits(c);
      if Utf16Clean(c) {
        forall d | Resting(kind, d) ensures CharDecodes(kind, d, bytes, c, table) {
          Utf16PairFeeds(e, d, c);
        }
      } else {
        Utf16PairFeeds(e, rest, c);
        assert !CharDecodes(kind, rest, bytes, c, table);
      }
    }
  }

  lemma FirstPairSurrogates()
    ensures LeadSurrogate(0x10000) == 0xd800 && TrailSurrogate(0x10000) == 0xdc00
  {
  }

  lemma FirstPairEncoding(table: MappingTable)
    ensures Encoding(Utf16Encoder(Little), 0x10000, table) == Some([0x00, 0xd8, 0x00, 0xdc])
  {
    FirstPairSurrogates();
    assert Utf16Units(0x10000) == Some([0xd800, 0xdc00]);
    WordBytesTwo(0xd800, 0xdc00, Little);
    LittleImage(0xd800, 0x00, 0xd8);
    LittleImage(0xdc00, 0x00, 0xdc);
    var lo: seq<Byte>, hi: seq<Byte> := [0x00, 0xd8], [0x00, 0xdc];
    assert WordBytes([0xd800, 0xdc00], Little) == lo + hi;
    assert lo + hi == [0x00, 0xd8, 0x00, 0xdc];
    assert Utf16Encoding(0x10000, Little) == Some(WordBytes([0xd800, 0xdc00], Little));
  }

  lemma LittleImage(u: bv16, lo: Byte, hi: Byte)
    requires u & 0xff == lo as bv16 && u >> 8 == hi as bv16
    ensures W16(u).Bytes(Little) == [lo, hi]
  {
  }

  lemma Utf16SingleChunk(e: Endian, c: Char32, table: MappingTable)
    requires e.Known()
    requires c <= 0xffff && !IsLeadWord(c as bv16) && !IsTrailWord(c as bv16)
    ensures ChunkDecodes(Utf16Decoder(e), WordBytes([c as bv16], e), c, table)
  {
    forall d | Resting(Utf16Decoder(e), d)
      ensures CharDecodes(Utf16Decoder(e), d, WordBytes([c as bv16], e), c, table)
    {
      Utf16SingleDecodes(e, d, c, table);
    }
  }

  /** U+10000 is written as D800 DC00, which the decoder reads as the two
      characters U+D800 and U+DC00. */
  lemma Utf16SplitsFirstPair(table: MappingTable)
    ensures Encoding(Utf16Encoder(Little), 0x10000, table) == Some([0x00, 0xd8, 0x00, 0xdc])
    ensures DecodeRun(Utf16Decoder(Little), [0x00, 0xd8, 0x00, 0xdc], false, table)
         == DecodeResult([0xd800, 0xdc00], 4)
  {
    FirstPairEncoding(table);
    LittleImage(0xd800, 0x00, 0xd8);
    LittleImage(0xdc00, 0x00, 0xdc);
    WordBytesOne(0xd800, Little);
    WordBytesOne(0xdc00, Little);
    Utf16SingleChunk(Little, 0xd800, table);
    Utf16SingleChunk(Little, 0xdc00, table);
    var chunks: seq<seq<Byte>> := [[0x00, 0xd8], [0x00, 0xdc]];
    var input: seq<Byte> := [0x00, 0xd8, 0x00, 0xdc];
    assert Concat(chunks) == input by {
      assert Concat(chunks) == chunks[0] + (chunks[1] + Concat([]));
    }
    InitResting(Utf16Decoder(Little));
    DecodeChunksFrom(Utf16Decoder(Little), [0xd800, 0xdc00], chunks, InitState(Utf16Decoder(Little)), input, 0, false, table);
  }

  /* ---------- UTF-8 ---------- */

  /** A continuation octet the encoder writes is one the decoder accepts. */
  lemma ContinuationValid(x: bv32)
    ensures IsValidContinuingOctet(ContinuationOctet(x))
  {
  }

  /** Its payload, shifted in after the higher bits, gives back `x`. */
  lemma ContinuationShiftsBack(x: bv32)
    ensures Utf8Shift(x >> 6, ContinuationOctet(x)) == x
  {
  }

  lemma ShiftTwice(x: bv32)
    ensures (x >> 6) >> 6 == x >> 12
  {
  }

  lemma ShiftThrice(x: bv32)
    ensures (x >> 12) >> 6 == x >> 18
  {
  }

  /** The high bits of a character fit under the prefix of its lead octet. */
  predicate LeadFits(x: bv32, n: nat)
  {
    match n
    case 1 => x < 0x7f
    case 2 => x < 0x20
    case 3 => x < 0x10
    case 4 => x < 0x08
    case _ => false
  }

  /** The lead octet announces the length it was written for... */
  lemma LeadAnnounces(x: bv32, n: nat)
    requires LeadFits(x, n)
    ensures LeadLength(LeadOctet(x, n)) == n
  {
  }

  /** ...and the decoder strips its prefix back off. */
  lemma LeadStrips(x: bv32, n: nat)
    requires LeadFits(x, n)
    ensures (LeadOctet(x, n) as bv32) - Utf8Prefix(n) == x
  {
  }

  /** A resting UTF-8 decoder takes a valid lead and expects the length
      it announces. */
  lemma Utf8StepLead(buf: seq<Byte>, b: Byte)
    requires |buf| == 4 && IsValidLeadingOctet(b)
    ensures AppendStep(Utf8State(0, buf, 0), b) == Step(true, Utf8State(LeadLength(b), buf[0 := b], 1))
  {
  }

  lemma Utf8StepMore(size: nat, buf: seq<Byte>, used: nat, b: Byte)
    requires |buf| == 4 && 1 <= used < size <= 4 && IsValidContinuingOctet(b)
    ensures AppendStep(Utf8State(size, buf, used), b) == Step(true, Utf8State(size, buf[used := b], used + 1))
  {
  }

  /** Continuation octets fed to a UTF-8 decoder that expects exactly that
      many more fill its buffer behind the octets already there. */
  lemma {:induction false} Utf8FeedRest(size: nat, buf: seq<Byte>, used: nat, rest: seq<Byte>)
    returns (out: seq<Byte>)
    requires |buf| == 4 && 1 <= used && used + |rest| == size <= 4
    requires forall k :: 0 <= k < |rest| ==> IsValidContinuingOctet(rest[k])
    ensures Feed(Utf8State(size, buf, used), rest) == Some(Utf8State(size, out, size))
    ensures |out| == 4
    ensures forall k :: 0 <= k < used ==> out[k] == buf[k]
    ensures forall k :: 0 <= k < |rest| ==> out[used + k] == rest[k]
    decreases |rest|
  {
    if rest == [] {
      out := buf;
    } else {
      Utf8StepMore(size, buf, used, rest[0]);
      assert forall k :: 0 <= k < |rest| - 1 ==> rest[1..][k] == rest[k + 1];
      out := Utf8FeedRest(size, buf[used := rest[0]], used + 1, rest[1..]);
      assert out[used] == rest[0];
    }
  }

  /** The octets of a character other than U+007F, fed to a resting UTF-8
      decoder, leave it full with those octets in its buffer. */
  lemma Utf8Feeds(d: DecState, c: Char32) returns (out: seq<Byte>)
    requires Resting(Utf8Decoder, d) && c < 0x110000 && c != 0x7f
    ensures Feed(d, Utf8Octets(c)) == Some(Utf8State(Utf8Length(c), out, Utf8Length(c)))
    ensures |out| == 4
    ensures forall k :: 0 <= k < Utf8Length(c) ==> out[k] == Utf8Octets(c)[k]
  {
    var s := Utf8Octets(c);
    var n := Utf8Length(c);
    if n == 1 {
      LeadAnnounces(c, 1);
    } else if n == 2 {
      LeadAnnounces(c >> 6, 2);
      ContinuationValid(c);
    } else if n == 3 {
      LeadAnnounces(c >> 12, 3);
      ContinuationValid(c >> 6);
      ContinuationValid(c);
    } else {
      LeadAnnounces(c >> 18, 4);
      ContinuationValid(c >> 12);
      ContinuationValid(c >> 6);
      ContinuationValid(c);
    }
    Utf8StepLead(d.buf, s[0]);
    var first := Utf8State(n, d.buf[0 := s[0]], 1);
    assert [s[0]][1..] == [];
    assert Feed(d, [s[0]]) == Some(first);
    assert s == [s[0]] + s[1..];
    FeedAppend(d, [s[0]], s[1..]);
    out := Utf8FeedRest(n, d.buf[0 := s[0]], 1, s[1..]);
    assert forall k :: 1 <= k < n ==> out[k] == s[1..][k - 1];
  }

  lemma Utf8Value2(c: Char32, out: seq<Byte>)
    requires |out| == 4 && 0x80 <= c < 0x800
    requires out[0] == LeadOctet(c >> 6, 2) && out[1] == ContinuationOctet(c)
    ensures Utf8Accumulate(out, 2, 2) == c
  {
    LeadStrips(c >> 6, 2);
    ContinuationShiftsBack(c);
  }

  lemma Utf8Value3(c: Char32, out: seq<Byte>)
    requires |out| == 4 && 0x800 <= c < 0x10000
    requires out[0] == LeadOctet(c >> 12, 3) && out[1] == ContinuationOctet(c >> 6)
    requires out[2] == ContinuationOctet(c)
    ensures Utf8Accumulate(out, 3, 3) == c
  {
    LeadStrips(c >> 12, 3);
    ShiftTwice(c);
    ContinuationShiftsBack(c >> 6);
    ContinuationShiftsBack(c);
    assert Utf8Accumulate(out, 3, 2) == c >> 6;
  }

  lemma Utf8Value4(c: Char32, out: seq<Byte>)
    requires |out| == 4 && 0x10000 <= c < 0x110000
    requires out[0] == LeadOctet(c >> 18, 4) && out[1] == ContinuationOctet(c >> 12)
    requires out[2] == ContinuationOctet(c >> 6) && out[3] == ContinuationOctet(c)
    ensures Utf8Accumulate(out, 4, 4) == c
  {
    LeadStrips(c >> 18, 4);
    ShiftThrice(c);
    ShiftTwice(c);
    ContinuationShiftsBack(c >> 12);
    ContinuationShiftsBack(c >> 6);
    ContinuationShiftsBack(c);
    assert Utf8Accumulate(out, 4, 2) == c >> 12;
    assert Utf8Accumulate(out, 4, 3) == c >> 6;
  }

  /** The value the decoder accumulates from the octets of `c` is `c`. */
  lemma Utf8Accumulates(c: Char32, out: seq<Byte>)
    requires c < 0x110000 && c != 0x7f && |out| == 4
    requires forall k :: 0 <= k < Utf8Length(c) ==> out[k] == Utf8Octets(c)[k]
    ensures Utf8Accumulate(out, Utf8Length(c), Utf8Length(c)) == c
  {
    var s := Utf8Octets(c);
    if c < 0x80 {
      LeadStrips(c, 1);
      assert out[0] == s[0];
    } else if c < 0x800 {
      assert out[0] == s[0] && out[1] == s[1];
      Utf8Value2(c, out);
    } else if c < 0x10000 {
      assert out[0] == s[0] && out[1] == s[1] && out[2] == s[2];
      Utf8Value3(c, out);
    } else {
      assert out[0] == s[0] && out[1] == s[1] && out[2] == s[2] && out[3] == s[3];
      Utf8Value4(c, out);
    }
  }

  /** utf8_encoder and utf8_decoder carry every character up to U+10FFFF
      except U+007F, whose single octet the decoder refuses as a lead. */
  lemma Utf8RoundTrips(c: Char32, table: MappingTable)
    ensures RoundTrips(Utf8Decoder, Utf8Encoder, table, c) <==> c < 0x110000 && c != 0x7f
  {
    if c < 0x110000 {
      var bytes := Encoding(Utf8Encoder, c, table).value;
      if c == 0x7f {
        var rest := Utf8State(0, [0, 0, 0, 0], 0);
        assert bytes == [0x7f];
        Utf8RefusesDel(rest.buf);
        assert !CharDecodes(Utf8Decoder, rest, bytes, c, table);
      } else {
        forall d | Resting(Utf8Decoder, d)
          ensures CharDecodes(Utf8Decoder, d, bytes, c, table)
        {
          var out := Utf8Feeds(d, c);
          Utf8Accumulates(c, out);
        }
      }
    }
  }
}
