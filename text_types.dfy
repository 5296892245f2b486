/**
 * Types shared by the decoders, the encoders and the transcoding drivers
 * (fhtagn/text/transcoding.h).
 */
module TextTypes {

  /** unsigned char, as the decoders receive it and the encoders emit it. */
  type Byte = bv8

  /** utf32_char_t. */
  type Char32 = bv32

  datatype Option<T> = None | Some(value: T)

  /** The replacement character both drivers use by default. */
  const ReplacementChar: Char32 := 0xfffd

  /** Characters special to each ISO-8859 part: bytes 160 to 255. */
  const PartWidth: nat := 96

  /** detail::iso8859_mapping holds one 96-entry slice for each of the parts
      2-11 and 13-16 (part 1 needs no table, part 12 does not exist). */
  const MappingSize: nat := 14 * PartWidth

  /** The contents of the mapping table are not part of this model: every
      lemma holds for any table of the right size. */
  type MappingTable = t: seq<Char32> | |t| == MappingSize witness seq(MappingSize, _ => 0)

  /** The ISO-8859 parts a decoder is defined for: there is no part 10
      decoder, and part 12 was never completed. */
  predicate IsDecoderPart(sub: nat)
  {
    1 <= sub <= 16 && sub != 10 && sub != 12
  }

  /** The ISO-8859 parts an encoder is defined for. */
  predicate IsEncoderPart(sub: nat)
  {
    1 <= sub <= 16 && sub != 12
  }

  /** Start of the slice of part `sub` in the mapping table: parts above 11
      move down by one slice because part 12 has none. */
  function TableOffset(sub: nat): (offset: nat)
    requires 2 <= sub <= 16 && sub != 12
    ensures offset % PartWidth == 0
    ensures offset + PartWidth <= MappingSize
  {
    var slice := (sub - 2) - (if sub > 11 then 1 else 0);
    slice * PartWidth
  }

  /** Different parts own different slices of the table. */
  lemma TableOffsetInjective(sub1: nat, sub2: nat)
    requires 2 <= sub1 <= 16 && sub1 != 12
    requires 2 <= sub2 <= 16 && sub2 != 12
    requires sub1 != sub2
    ensures TableOffset(sub1) + PartWidth <= TableOffset(sub2)
         || TableOffset(sub2) + PartWidth <= TableOffset(sub1)
  {
  }

  /** modifier_table of the UTF-8 decoder and encoder: the prefix bits of
      the leading octet of a sequence of each length. */
  function Utf8Prefix(size: nat): bv32
    requires 1 <= size <= 4
  {
    if size == 1 then 0x00 else if size == 2 then 0xc0 else if size == 3 then 0xe0 else 0xf0
  }
}
