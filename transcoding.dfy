/**
 * The decode() and encode() drivers (fhtagn/text/transcoding.h).
 *
 * decode() feeds bytes to a decoder, emits a character whenever the decoder
 * is full, and on a refused byte either emits the replacement character
 * 0xFFFD or stops.  encode() feeds characters to an encoder and copies the
 * bytes for each accepted one; a refused character is replaced by the
 * encoding of a replacement character, skipped, or stops the loop.
 *
 * The output iterator is a sequence the drivers append to, and the position
 * they return is an index into the input.
 */
module Transcoding {
  import opened ByteOrder
  import opened TextTypes
  import opened Decoders
  import opened Encoders

  /* ---------- decode ---------- */

  /** The characters written and the position returned. */
  datatype DecodeResult = DecodeResult(output: seq<Char32>, stop: nat)

  /** `chars` written before what `r` writes. */
  function PrependChars(chars: seq<Char32>, r: DecodeResult): DecodeResult
  {
    DecodeResult(chars + r.output, r.stop)
  }

  lemma PrependCharsTwice(a: seq<Char32>, b: seq<Char32>, r: DecodeResult)
    ensures PrependChars(a, PrependChars(b, r)) == PrependChars(a + b, r)
  {
    assert a + (b + r.output) == (a + b) + r.output;
  }

  /** What the decoder holds when it is full, as the driver flushes it. */
  function Flush(d: DecState, table: MappingTable): (s: seq<Char32>)
    requires Ready(d)
    ensures |s| <= 1 && (s == [] <==> !HaveFull(d))
  {
    if HaveFull(d) then [Value(d, table)] else []
  }

  /** The decoder after a flush: reset if it was full. */
  function AfterFlush(d: DecState): (r: DecState)
    requires Ready(d)
    ensures Ready(r) && !HaveFull(r)
  {
    if HaveFull(d) then ResetState(d) else d
  }

  /** One pass of the decode() loop body: what it writes, the decoder
      after it, and whether it returns early. */
  datatype DecodeTurn = DecodeTurn(emitted: seq<Char32>, next: DecState, stops: bool)

  function TurnOf(d: DecState, b: Byte, replace: bool, table: MappingTable): (t: DecodeTurn)
    requires Ready(d)
    ensures !t.stops ==> Ready(t.next)
  {
    var flushed := Flush(d, table);
    var st := AppendStep(AfterFlush(d), b);
    if st.accepted then DecodeTurn(flushed, st.state, false)
    else if replace then DecodeTurn(flushed + [ReplacementChar], ResetState(st.state), false)
    else DecodeTurn(flushed, st.state, true)
  }

  /** The rest of the decode() loop from position i with decoder state d. */
  function DecodeFrom(d: DecState, input: seq<Byte>, i: nat, replace: bool, table: MappingTable): (r: DecodeResult)
    requires Ready(d) && i <= |input|
    ensures i <= r.stop <= |input|
    decreases |input| - i
  {
    if i == |input| then DecodeResult(Flush(d, table), i)
    else
      var t := TurnOf(d, input[i], replace, table);
      if t.stops then DecodeResult(t.emitted, i)
      else PrependChars(t.emitted, DecodeFrom(t.next, input, i + 1, replace, table))
  }

  /** decode<decoderT>(first, last, result, use_replacement_char). */
  function DecodeRun(kind: DecoderKind, input: seq<Byte>, replace: bool, table: MappingTable): DecodeResult
    requires ValidDecoderKind(kind)
  {
    DecodeFrom(InitState(kind), input, 0, replace, table)
  }

  /** The body of the decode() loop for one byte. */
  method DecodeByte(decoder: Decoder, b: Byte, replace: bool) returns (emitted: seq<Char32>, stops: bool)
    requires decoder.Valid() && Ready(decoder.State())
    modifies decoder, decoder.buffer, decoder.words
    ensures decoder.Valid()
    ensures DecodeTurn(emitted, decoder.State(), stops) == TurnOf(old(decoder.State()), b, replace, decoder.table)
  {
    ghost var d := decoder.State();
    emitted := [];
    if decoder.HaveFullSequence() {
      var c := decoder.ToUtf32();
      emitted := [c];
      decoder.Reset();
    }
    assert decoder.State() == AfterFlush(d);
    var ok := decoder.Append(b);
    stops := false;
    if !ok {
      if replace {
        emitted := emitted + [ReplacementChar];
        decoder.Reset();
      } else {
        stops := true;
      }
    }
  }

  /** The decode() loop over a decoder object. */
  method Decode(kind: DecoderKind, table: MappingTable, input: seq<Byte>, replace: bool)
    returns (output: seq<Char32>, stop: nat)
    requires ValidDecoderKind(kind)
    ensures DecodeResult(output, stop) == DecodeRun(kind, input, replace, table)
  {
    var decoder := new Decoder(kind, table);
    output := [];
    var i := 0;
    while i < |input|
      invariant i <= |input|
      invariant decoder.Valid() && Ready(decoder.State()) && decoder.table == table
      invariant fresh(decoder) && fresh(decoder.buffer) && fresh(decoder.words)
      invariant DecodeRun(kind, input, replace, table)
             == PrependChars(output, DecodeFrom(decoder.State(), input, i, replace, table))
    {
      ghost var d := decoder.State();
      var emitted, stops := DecodeByte(decoder, input[i], replace);
      ghost var rest := DecodeFrom(d, input, i, replace, table);
      if stops {
        assert rest == DecodeResult(emitted, i);
        output := output + emitted;
        return output, i;
      }
      assert rest == PrependChars(emitted, DecodeFrom(decoder.State(), input, i + 1, replace, table));
      PrependCharsTwice(output, emitted, DecodeFrom(decoder.State(), input, i + 1, replace, table));
      output := output + emitted;
      i := i + 1;
    }
    var last := FlushDecoder(decoder);
    output := output + last;
    return output, i;
  }

  /** The flush after the decode() loop. */
  method FlushDecoder(decoder: Decoder) returns (emitted: seq<Char32>)
    requires decoder.Valid() && Ready(decoder.State())
    ensures emitted == Flush(decoder.State(), decoder.table)
  {
    emitted := [];
    if decoder.HaveFullSequence() {
      var c := decoder.ToUtf32();
      emitted := [c];
    }
  }

  /* ---------- properties of decode ---------- */

  /** With the replacement flag set, decode() never returns early. */
  lemma {:induction false} DecodeReplaceReachesEnd(d: DecState, input: seq<Byte>, i: nat, table: MappingTable)
    requires Ready(d) && i <= |input|
    ensures DecodeFrom(d, input, i, true, table).stop == |input|
    decreases |input| - i
  {
    if i < |input| {
      DecodeReplaceReachesEnd(TurnOf(d, input[i], true, table).next, input, i + 1, table);
    }
  }

  /** Without the flag, decode() writes a prefix of what it writes with the
      flag; the two agree when it reaches the end, and otherwise the run
      with the flag continues with a replacement character exactly where
      the run without it stopped. */
  lemma {:induction false} DecodeStopIsFirstReplacement(d: DecState, input: seq<Byte>, i: nat, table: MappingTable)
    requires Ready(d) && i <= |input|
    ensures var strict := DecodeFrom(d, input, i, false, table);
            var lenient := DecodeFrom(d, input, i, true, table);
            strict.output <= lenient.output &&
            (strict.stop == |input| ==> strict.output == lenient.output) &&
            (strict.stop < |input| ==>
               |strict.output| < |lenient.output| && lenient.output[|strict.output|] == ReplacementChar)
    decreases |input| - i
  {
    if i < |input| {
      var strictTurn := TurnOf(d, input[i], false, table);
      var lenientTurn := TurnOf(d, input[i], true, table);
      if !strictTurn.stops {
        assert lenientTurn == strictTurn;
        DecodeStopIsFirstReplacement(strictTurn.next, input, i + 1, table);
      } else {
        var rest := DecodeFrom(lenientTurn.next, input, i + 1, true, table);
        assert lenientTurn.emitted == strictTurn.emitted + [ReplacementChar];
        assert DecodeFrom(d, input, i, true, table).output
            == strictTurn.emitted + ([ReplacementChar] + rest.output);
      }
    }
  }

  /** A character is flushed only for a byte read, so decode() writes at
      most one character per input byte, plus one for a decoder that starts
      full. */
  lemma {:induction false} DecodeOutputBound(d: DecState, input: seq<Byte>, i: nat, replace: bool, table: MappingTable)
    requires Ready(d) && i <= |input|
    ensures |DecodeFrom(d, input, i, replace, table).output|
         <= |input| - i + (if HaveFull(d) then 1 else 0)
    decreases |input| - i
  {
    if i < |input| {
      var t := TurnOf(d, input[i], replace, table);
      if !t.stops {
        DecodeOutputBound(t.next, input, i + 1, replace, table);
        if !AppendStep(AfterFlush(d), input[i]).accepted {
          assert !HaveFull(t.next);
        }
      }
    }
  }

  /** decode() writes no more characters than it reads bytes. */
  lemma DecodeRunBound(kind: DecoderKind, input: seq<Byte>, replace: bool, table: MappingTable)
    requires ValidDecoderKind(kind)
    ensures |DecodeRun(kind, input, replace, table).output| <= |input|
    ensures replace ==> DecodeRun(kind, input, replace, table).stop == |input|
  {
    DecodeOutputBound(InitState(kind), input, 0, replace, table);
    if replace {
      DecodeReplaceReachesEnd(InitState(kind), input, 0, table);
    }
  }

  /** A UTF-8 sequence still incomplete at the end of the input is dropped
      without a replacement character; a complete one is flushed. */
  lemma DecodeDropsIncomplete(table: MappingTable)
    ensures DecodeRun(Utf8Decoder, [0xe2, 0x82], true, table) == DecodeResult([], 2)
    ensures DecodeRun(Utf8Decoder, [0xe2, 0x82, 0xac], true, table) == DecodeResult([0x20ac], 3)
  {
    var d0 := InitState(Utf8Decoder);
    var d1 := Utf8State(3, [0xe2, 0, 0, 0], 1);
    var d2 := Utf8State(3, [0xe2, 0x82, 0, 0], 2);
    var d3 := Utf8State(3, [0xe2, 0x82, 0xac, 0], 3);
    assert TurnOf(d0, 0xe2, true, table) == DecodeTurn([], d1, false);
    assert TurnOf(d1, 0x82, true, table) == DecodeTurn([], d2, false);
    assert TurnOf(d2, 0xac, true, table) == DecodeTurn([], d3, false);
    assert Utf8Accumulate(d3.buf, 3, 3) == 0x20ac;
  }

  /* ---------- encode ---------- */

  /** The bytes written and the position returned. */
  datatype EncodeResult = EncodeResult(output: seq<Byte>, stop: nat)

  function PrependBytes(bytes: seq<Byte>, r: EncodeResult): EncodeResult
  {
    EncodeResult(bytes + r.output, r.stop)
  }

  /** One pass of the encode() loop body: the bytes it writes and whether
      it leaves the loop. */
  datatype EncodeTurn = EncodeTurn(emitted: seq<Byte>, stops: bool)

  function EncodeTurnOf(kind: EncoderKind, table: MappingTable, ch: Char32,
                        replace: bool, replacement: Char32): EncodeTurn
    requires ValidEncoderKind(kind)
  {
    match Encoding(kind, ch, table)
    case Some(bytes) => EncodeTurn(bytes, false)
    case None =>
      if !replace then EncodeTurn([], true)
      else match Encoding(kind, replacement, table)
        case Some(bytes) => EncodeTurn(bytes, false)
        case None => EncodeTurn([], false)
  }

  /** The rest of the encode() loop from position i. */
  function EncodeFrom(kind: EncoderKind, table: MappingTable, input: seq<Char32>, i: nat,
                      replace: bool, replacement: Char32): (r: EncodeResult)
    requires ValidEncoderKind(kind) && i <= |input|
    ensures i <= r.stop <= |input|
    decreases |input| - i
  {
    if i == |input| then EncodeResult([], i)
    else
      var t := EncodeTurnOf(kind, table, input[i], replace, replacement);
      if t.stops then EncodeResult([], i)
      else PrependBytes(t.emitted, EncodeFrom(kind, table, input, i + 1, replace, replacement))
  }

  /** encode<encoderT>(first, last, result, use_replacement_char, replacement_char). */
  function EncodeRun(kind: EncoderKind, table: MappingTable, input: seq<Char32>,
                     replace: bool, replacement: Char32): EncodeResult
    requires ValidEncoderKind(kind)
  {
    EncodeFrom(kind, table, input, 0, replace, replacement)
  }

  lemma PrependBytesTwice(a: seq<Byte>, b: seq<Byte>, r: EncodeResult)
    ensures PrependBytes(a, PrependBytes(b, r)) == PrependBytes(a + b, r)
  {
    assert a + (b + r.output) == (a + b) + r.output;
  }

  /** The inner loop of encode(): copies the bytes from begin() to end(). */
  method CopyOutput(encoder: Encoder) returns (bytes: seq<Byte>)
    requires encoder.Valid()
    ensures bytes == encoder.Output()
  {
    var view := encoder.Output();
    bytes := [];
    var j := 0;
    while j < |view|
      invariant j <= |view|
      invariant bytes == view[..j]
    {
      bytes := bytes + [view[j]];
      j := j + 1;
    }
    assert view[..j] == view;
  }

  /** The body of the encode() loop for one character. */
  method EncodeChar(encoder: Encoder, ch: Char32, replace: bool, replacement: Char32)
    returns (emitted: seq<Byte>, stops: bool)
    requires encoder.Valid()
    modifies encoder, encoder.buffer, encoder.words
    ensures encoder.Valid()
    ensures EncodeTurn(emitted, stops)
         == EncodeTurnOf(encoder.kind, encoder.table, ch, replace, replacement)
  {
    emitted := [];
    stops := false;
    var ok := encoder.Encode(ch);
    if !ok {
      if !replace {
        stops := true;
        return;
      }
      ok := encoder.Encode(replacement);
    }
    if ok {
      emitted := CopyOutput(encoder);
    }
  }

  /** The encode() loop over an encoder object. */
  method Encode(kind: EncoderKind, table: MappingTable, input: seq<Char32>,
                replace: bool, replacement: Char32)
    returns (output: seq<Byte>, stop: nat)
    requires ValidEncoderKind(kind)
    ensures EncodeResult(output, stop) == EncodeRun(kind, table, input, replace, replacement)
  {
    var encoder := new Encoder(kind, table);
    output := [];
    var i := 0;
    while i < |input|
      invariant i <= |input|
      invariant encoder.Valid() && encoder.kind == kind && encoder.table == table
      invariant fresh(encoder) && fresh(encoder.buffer) && fresh(encoder.words)
      invariant EncodeRun(kind, table, input, replace, replacement)
             == PrependBytes(output, EncodeFrom(kind, table, input, i, replace, replacement))
    {
      var emitted, stops := EncodeChar(encoder, input[i], replace, replacement);
      if stops {
        return output, i;
      }
      PrependBytesTwice(output, emitted, EncodeFrom(kind, table, input, i + 1, replace, replacement));
      output := output + emitted;
      i := i + 1;
    }
    return output, i;
  }

  /* ---------- properties of encode ---------- */

  /** The bytes of each character of `chars` in turn, for characters the
      encoder accepts. */
  function EncodedBytes(kind: EncoderKind, table: MappingTable, chars: seq<Char32>): seq<Byte>
    requires ValidEncoderKind(kind)
    requires forall k :: 0 <= k < |chars| ==> Encoding(kind, chars[k], table).Some?
  {
    if chars == [] then []
    else Encoding(kind, chars[0], table).value + EncodedBytes(kind, table, chars[1..])
  }

  lemma {:induction false} EncodedBytesAppend(kind: EncoderKind, table: MappingTable, a: seq<Char32>, b: seq<Char32>)
    requires ValidEncoderKind(kind)
    requires forall k :: 0 <= k < |a| ==> Encoding(kind, a[k], table).Some?
    requires forall k :: 0 <= k < |b| ==> Encoding(kind, b[k], table).Some?
    ensures forall k :: 0 <= k < |a + b| ==> Encoding(kind, (a + b)[k], table).Some?
    ensures EncodedBytes(kind, table, a + b) == EncodedBytes(kind, table, a) + EncodedBytes(kind, table, b)
  {
    if a == [] {
      assert a + b == b;
    } else {
      assert (a + b)[0] == a[0];
      assert (a + b)[1..] == a[1..] + b;
      EncodedBytesAppend(kind, table, a[1..], b);
    }
  }

  /** Without the replacement flag, encode() returns the position of the
      first character the encoder refuses (or the end), having written the
      bytes of every character before it. */
  lemma {:induction false} EncodeStopsAtFirstRefusal(kind: EncoderKind, table: MappingTable, input: seq<Char32>, i: nat,
                                                    replacement: Char32)
    requires ValidEncoderKind(kind) && i <= |input|
    ensures var r := EncodeFrom(kind, table, input, i, false, replacement);
            (forall j :: i <= j < r.stop ==> Encoding(kind, input[j], table).Some?) &&
            (r.stop < |input| ==> Encoding(kind, input[r.stop], table).None?) &&
            r.output == EncodedBytes(kind, table, input[i..r.stop])
    decreases |input| - i
  {
    var r := EncodeFrom(kind, table, input, i, false, replacement);
    if i < |input| && Encoding(kind, input[i], table).Some? {
      var rest := EncodeFrom(kind, table, input, i + 1, false, replacement);
      EncodeStopsAtFirstRefusal(kind, table, input, i + 1, replacement);
      assert input[i..r.stop][1..] == input[i + 1..rest.stop];
    } else {
      assert input[i..r.stop] == [];
    }
  }

  /** The characters encode() with the replacement flag actually writes:
      each accepted character, the replacement for a refused one, and
      nothing for a refused one when the replacement is refused too. */
  function Cleaned(kind: EncoderKind, table: MappingTable, input: seq<Char32>, replacement: Char32): (r: seq<Char32>)
    requires ValidEncoderKind(kind)
    ensures |r| <= |input|
    ensures forall k :: 0 <= k < |r| ==> Encoding(kind, r[k], table).Some?
  {
    if input == [] then []
    else
      var head := if Encoding(kind, input[0], table).Some? then [input[0]]
                  else if Encoding(kind, replacement, table).Some? then [replacement]
                  else [];
      head + Cleaned(kind, table, input[1..], replacement)
  }

  /** With the replacement flag, encode() reads the whole input and writes
      exactly the bytes of the cleaned input. */
  lemma {:induction false} EncodeWithReplacement(kind: EncoderKind, table: MappingTable, input: seq<Char32>, i: nat,
                                                replacement: Char32)
    requires ValidEncoderKind(kind) && i <= |input|
    ensures EncodeFrom(kind, table, input, i, true, replacement)
         == EncodeResult(EncodedBytes(kind, table, Cleaned(kind, table, input[i..], replacement)), |input|)
    decreases |input| - i
  {
    if i < |input| {
      EncodeWithReplacement(kind, table, input, i + 1, replacement);
      assert input[i..][1..] == input[i + 1..];
      var head := if Encoding(kind, input[i], table).Some? then [input[i]]
                  else if Encoding(kind, replacement, table).Some? then [replacement]
                  else [];
      var tail := Cleaned(kind, table, input[i + 1..], replacement);
      EncodedBytesAppend(kind, table, head, tail);
      if head != [] {
        assert EncodedBytes(kind, table, head) == Encoding(kind, head[0], table).value + EncodedBytes(kind, table, []);
      }
    }
  }

  /** encode() as a whole: with the flag it writes the cleaned input and
      returns the end; without it, it stops at the first refused character. */
  lemma EncodeRunResult(kind: EncoderKind, table: MappingTable, input: seq<Char32>, replacement: Char32)
    requires ValidEncoderKind(kind)
    ensures EncodeRun(kind, table, input, true, replacement)
         == EncodeResult(EncodedBytes(kind, table, Cleaned(kind, table, input, replacement)), |input|)
    ensures var r := EncodeRun(kind, table, input, false, replacement);
            (forall j :: 0 <= j < r.stop ==> Encoding(kind, input[j], table).Some?) &&
            (r.stop < |input| ==> Encoding(kind, input[r.stop], table).None?) &&
            r.output == EncodedBytes(kind, table, input[..r.stop])
  {
    EncodeWithReplacement(kind, table, input, 0, replacement);
    assert input[0..] == input;
    EncodeStopsAtFirstRefusal(kind, table, input, 0, replacement);
    assert input[0..EncodeRun(kind, table, input, false, replacement).stop]
        == input[..EncodeRun(kind, table, input, false, replacement).stop];
  }
}
