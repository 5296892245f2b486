/**
 * Byte order detection and conversion (fhtagn/byteorder.h).
 *
 * Integers are modelled by their bit patterns: a `Word` is a 16-, 32- or
 * 64-bit unsigned value.  The signed overloads of swap() only reinterpret
 * the same bits, so they coincide with the unsigned ones here.
 *
 * The meaning of every conversion is stated through `Bytes`: the bytes of a
 * word written out most significant first (big endian) or least significant
 * first (little endian).  Storing a word in host memory lays it out as
 * `w.Bytes(HostOrder)`.
 */
module ByteOrder {

  /** The endian enum; `Code` gives the integer each enumerator stands for. */
  datatype Endian = Unknown | Big | Little
  {
    function Code(): int
    {
      match this
      case Unknown => -1
      case Big => 0
      case Little => 1
    }

    predicate Known()
    {
      this != Unknown
    }
  }

  /** host_byte_order(): the model fixes a little-endian host. */
  const HostOrder: Endian := Little

  /** The enumerator whose code is `arg`, if any. */
  function FromCode(arg: int): (e: Endian)
    requires -1 <= arg <= 1
    ensures e.Code() == arg
  {
    if arg == -1 then Unknown else if arg == 0 then Big else Little
  }

  /** to_string(): a two-letter name for a byte order code. */
  function ToString(sourceEndian: int): (s: string)
    ensures |s| == 2
    ensures sourceEndian == Unknown.Code() <==> s == "--"
    ensures sourceEndian == Big.Code() <==> s == "BE"
    ensures sourceEndian != Unknown.Code() && sourceEndian != Big.Code() <==> s == "LE"
  {
    if sourceEndian == Unknown.Code() then "--"
    else if sourceEndian == Big.Code() then "BE"
    else "LE"
  }

  /** opposite(): exchanges the two known byte orders; anything but the two
      named codes counts as little endian and yields big endian. */
  function Opposite(arg: int): (e: Endian)
  {
    if arg == Unknown.Code() then Unknown
    else if arg == Big.Code() then Little
    else Big
  }

  /** opposite() keeps UNKNOWN, turns a known order into the other one, and
      applied twice gives back the enumerator it started from. */
  lemma OppositeInvolution(e: Endian)
    ensures Opposite(Opposite(e.Code()).Code()) == e
    ensures e.Known() <==> Opposite(e.Code()) != e
    ensures Opposite(e.Code()).Known() == e.Known()
  {
  }

  /** The three names are pairwise different, so a name identifies its order. */
  lemma ToStringInjective(e1: Endian, e2: Endian)
    requires ToString(e1.Code()) == ToString(e2.Code())
    ensures e1 == e2
  {
  }

  /* ---------- words and their byte layout ---------- */

  /** Byte `k` (counting from the least significant) of a value. */
  function Byte16(x: bv16, k: nat): bv8
    requires k < 2
  {
    if k == 0 then (x & 0xff) as bv8 else (x >> 8) as bv8
  }

  function Byte32(x: bv32, k: nat): bv8
    requires k < 4
  {
    match k
    case 0 => (x & 0xff) as bv8
    case 1 => ((x >> 8) & 0xff) as bv8
    case 2 => ((x >> 16) & 0xff) as bv8
    case _ => (x >> 24) as bv8
  }

  function Byte64(x: bv64, k: nat): bv8
    requires k < 8
  {
    match k
    case 0 => (x & 0xff) as bv8
    case 1 => ((x >> 8) & 0xff) as bv8
    case 2 => ((x >> 16) & 0xff) as bv8
    case 3 => ((x >> 24) & 0xff) as bv8
    case 4 => ((x >> 32) & 0xff) as bv8
    case 5 => ((x >> 40) & 0xff) as bv8
    case 6 => ((x >> 48) & 0xff) as bv8
    case _ => (x >> 56) as bv8
  }

  /** An unsigned integer of one of the widths swap() is overloaded for. */
  datatype Word = W16(v16: bv16) | W32(v32: bv32) | W64(v64: bv64)
  {
    /** Width in bytes. */
    function Width(): nat
    {
      match this
      case W16(_) => 2
      case W32(_) => 4
      case W64(_) => 8
    }

    /** The bytes of the word, least significant first. */
    function LittleBytes(): (s: seq<bv8>)
      ensures |s| == Width()
    {
      match this
      case W16(x) => [Byte16(x, 0), Byte16(x, 1)]
      case W32(x) => [Byte32(x, 0), Byte32(x, 1), Byte32(x, 2), Byte32(x, 3)]
      case W64(x) =>
        [Byte64(x, 0), Byte64(x, 1), Byte64(x, 2), Byte64(x, 3),
         Byte64(x, 4), Byte64(x, 5), Byte64(x, 6), Byte64(x, 7)]
    }

    /** The bytes of the word, most significant first (network order). */
    function BigBytes(): (s: seq<bv8>)
      ensures |s| == Width()
    {
      match this
      case W16(x) => [Byte16(x, 1), Byte16(x, 0)]
      case W32(x) => [Byte32(x, 3), Byte32(x, 2), Byte32(x, 1), Byte32(x, 0)]
      case W64(x) =>
        [Byte64(x, 7), Byte64(x, 6), Byte64(x, 5), Byte64(x, 4),
         Byte64(x, 3), Byte64(x, 2), Byte64(x, 1), Byte64(x, 0)]
    }

    /** The bytes of the word laid out in the given byte order. */
    function Bytes(order: Endian): (s: seq<bv8>)
      requires order.Known()
      ensures |s| == Width()
    {
      if order == Big then BigBytes() else LittleBytes()
    }

    predicate SameWidth(other: Word)
    {
      match (this, other)
      case (W16(_), W16(_)) => true
      case (W32(_), W32(_)) => true
      case (W64(_), W64(_)) => true
      case _ => false
    }
  }

  lemma Bytes16Determine(x: bv16, y: bv16)
    requires Byte16(x, 0) == Byte16(y, 0) && Byte16(x, 1) == Byte16(y, 1)
    ensures x == y
  {
  }

  lemma Bytes32Determine(x: bv32, y: bv32)
    requires Byte32(x, 0) == Byte32(y, 0) && Byte32(x, 1) == Byte32(y, 1)
    requires Byte32(x, 2) == Byte32(y, 2) && Byte32(x, 3) == Byte32(y, 3)
    ensures x == y
  {
  }

  lemma Bytes64Determine(x: bv64, y: bv64)
    requires Byte64(x, 0) == Byte64(y, 0) && Byte64(x, 1) == Byte64(y, 1)
    requires Byte64(x, 2) == Byte64(y, 2) && Byte64(x, 3) == Byte64(y, 3)
    requires Byte64(x, 4) == Byte64(y, 4) && Byte64(x, 5) == Byte64(y, 5)
    requires Byte64(x, 6) == Byte64(y, 6) && Byte64(x, 7) == Byte64(y, 7)
    ensures x == y
  {
  }

  /** A word of a given width is determined by its bytes in either order. */
  lemma BytesDetermineWord(a: Word, b: Word, order: Endian)
    requires order.Known() && a.SameWidth(b)
    requires a.Bytes(order) == b.Bytes(order)
    ensures a == b
  {
    match (a, b)
    case (W16(x), W16(y)) =>
      Word16Determined(x, y, order);
    case (W32(x), W32(y)) =>
      Word32Determined(x, y, order);
    case (W64(x), W64(y)) =>
      Word64Determined(x, y, order);
  }

  lemma Word16Determined(x: bv16, y: bv16, order: Endian)
    requires order.Known() && W16(x).Bytes(order) == W16(y).Bytes(order)
    ensures x == y
  {
    var sx, sy := W16(x).LittleBytes(), W16(y).LittleBytes();
    if order == Big {
      var ux, uy := W16(x).BigBytes(), W16(y).BigBytes();
      assert ux == uy;
      assert sx[0] == ux[1] && sx[1] == ux[0] && sy[0] == uy[1] && sy[1] == uy[0];
    }
    assert sx[0] == sy[0] && sx[1] == sy[1];
    Bytes16Determine(x, y);
  }

  lemma Word32Determined(x: bv32, y: bv32, order: Endian)
    requires order.Known() && W32(x).Bytes(order) == W32(y).Bytes(order)
    ensures x == y
  {
    var sx, sy := W32(x).LittleBytes(), W32(y).LittleBytes();
    if order == Big {
      var ux, uy := W32(x).BigBytes(), W32(y).BigBytes();
      assert ux == uy;
      assert sx[0] == ux[3] && sx[1] == ux[2] && sx[2] == ux[1] && sx[3] == ux[0];
      assert sy[0] == uy[3] && sy[1] == uy[2] && sy[2] == uy[1] && sy[3] == uy[0];
    }
    Little32Determined(x, y);
  }

  lemma Little32Determined(x: bv32, y: bv32)
    requires W32(x).LittleBytes() == W32(y).LittleBytes()
    ensures x == y
  {
    var sx, sy := W32(x).LittleBytes(), W32(y).LittleBytes();
    assert sx[0] == sy[0] && sx[1] == sy[1] && sx[2] == sy[2] && sx[3] == sy[3];
    Bytes32Determine(x, y);
  }

  lemma Word64Determined(x: bv64, y: bv64, order: Endian)
    requires order.Known() && W64(x).Bytes(order) == W64(y).Bytes(order)
    ensures x == y
  {
    var sx, sy := W64(x).LittleBytes(), W64(y).LittleBytes();
    if order == Big {
      var ux, uy := W64(x).BigBytes(), W64(y).BigBytes();
      assert ux == uy;
      assert sx[0] == ux[7] && sx[1] == ux[6] && sx[2] == ux[5] && sx[3] == ux[4];
      assert sx[4] == ux[3] && sx[5] == ux[2] && sx[6] == ux[1] && sx[7] == ux[0];
      assert sy[0] == uy[7] && sy[1] == uy[6] && sy[2] == uy[5] && sy[3] == uy[4];
      assert sy[4] == uy[3] && sy[5] == uy[2] && sy[6] == uy[1] && sy[7] == uy[0];
    }
    Little64Determined(x, y);
  }

  lemma Little64Determined(x: bv64, y: bv64)
    requires W64(x).LittleBytes() == W64(y).LittleBytes()
    ensures x == y
  {
    var sx, sy := W64(x).LittleBytes(), W64(y).LittleBytes();
    assert sx[0] == sy[0] && sx[1] == sy[1] && sx[2] == sy[2] && sx[3] == sy[3];
    assert sx[4] == sy[4] && sx[5] == sy[5] && sx[6] == sy[6] && sx[7] == sy[7];
    Bytes64Determine(x, y);
  }

  /* ---------- swap ---------- */

  /** swap(uint16_t): the two bytes exchanged. */
  function Swap16(orig: bv16): (r: bv16)
    ensures W16(r).BigBytes() == W16(orig).LittleBytes()
    ensures W16(r).LittleBytes() == W16(orig).BigBytes()
  {
    ((orig & 0xff00) >> 8) | ((orig & 0x00ff) << 8)
  }

  /** swap(uint32_t): the four bytes in reverse order. */
  function Swap32(orig: bv32): (r: bv32)
    ensures W32(r).BigBytes() == W32(orig).LittleBytes()
    ensures W32(r).LittleBytes() == W32(orig).BigBytes()
  {
    ((orig & 0xff000000) >> 24) |
    ((orig & 0x00ff0000) >> 8) |
    ((orig & 0x0000ff00) << 8) |
    ((orig & 0x000000ff) << 24)
  }

  /**
   * swap(uint64_t) exactly as written: the masks for bits 16..23 and
   * 24..31 are shifted right instead of left, so those bytes do not reach
   * their mirrored position.
   */
  function Swap64AsWritten(orig: bv64): bv64
  {
    ((orig & (0xff << 56)) >> 56) |
    ((orig & (0xff << 48)) >> 40) |
    ((orig & (0xff << 40)) >> 24) |
    ((orig & (0xff << 32)) >> 8) |
    ((orig & (0xff << 24)) >> 8) |
    ((orig & (0xff << 16)) >> 24) |
    ((orig & (0xff << 8)) << 40) |
    ((orig & 0xff) << 56)
  }

  /** The written 64-bit swap is not a byte reversal: a word whose only
      non-zero byte is byte 2 (counting from the least significant) swaps
      to zero, where the reversal would move it to byte 5. */
  lemma Swap64AsWrittenLosesBytes()
    ensures Swap64AsWritten(0x0000_0000_00ff_0000) == 0
    ensures W64(Swap64AsWritten(0x0000_0000_00ff_0000)).BigBytes()
         != W64(0x0000_0000_00ff_0000).LittleBytes()
  {
    assert W64(0).BigBytes()[5] == 0;
    assert W64(0x0000_0000_00ff_0000).LittleBytes()[5] == 0;
    assert W64(0).BigBytes()[2] == 0;
    assert W64(0x0000_0000_00ff_0000).LittleBytes()[2] == 0xff;
  }

  /** Applying the written swap twice gives the word back exactly when its
      four middle bytes (bytes 2 to 5) are zero. */
  lemma Swap64AsWrittenInvolutionIff(x: bv64)
    ensures Swap64AsWritten(Swap64AsWritten(x)) == x <==> x & 0x0000_ffff_ffff_0000 == 0
  {
  }

  /** swap(uint64_t) as evidently intended: the eight bytes in reverse order. */
  function Swap64(orig: bv64): (r: bv64)
    ensures W64(r).BigBytes() == W64(orig).LittleBytes()
    ensures W64(r).LittleBytes() == W64(orig).BigBytes()
  {
    ((orig & (0xff << 56)) >> 56) |
    ((orig & (0xff << 48)) >> 40) |
    ((orig & (0xff << 40)) >> 24) |
    ((orig & (0xff << 32)) >> 8) |
    ((orig & (0xff << 24)) << 8) |
    ((orig & (0xff << 16)) << 24) |
    ((orig & (0xff << 8)) << 40) |
    ((orig & 0xff) << 56)
  }

  /** swap() on any width: reverses the byte order of the word. */
  function Swap(w: Word): (r: Word)
    ensures r.SameWidth(w)
    ensures r.Bytes(Big) == w.Bytes(Little)
    ensures r.Bytes(Little) == w.Bytes(Big)
  {
    match w
    case W16(x) => W16(Swap16(x))
    case W32(x) => W32(Swap32(x))
    case W64(x) => W64(Swap64(x))
  }

  /** swap() undoes itself. */
  lemma SwapInvolution(w: Word)
    ensures Swap(Swap(w)) == w
  {
    BytesDetermineWord(Swap(Swap(w)), w, Big);
  }

  /* ---------- convert<>, to_host, from_host ---------- */

  /** convert<order>::hton(): on a host of byte order `order`, the result is
      stored in memory in network (big endian) order. */
  function Hton(order: Endian, orig: Word): (r: Word)
    requires order.Known()
    ensures r.SameWidth(orig)
    ensures r.Bytes(order) == orig.Bytes(Big)
  {
    if order == Little then Swap(orig) else orig
  }

  /** convert<order>::ntoh(): reads a word whose in-memory bytes on a host of
      byte order `order` are in network order. */
  function Ntoh(order: Endian, orig: Word): (r: Word)
    requires order.Known()
    ensures r.SameWidth(orig)
    ensures r.Bytes(Big) == orig.Bytes(order)
  {
    if order == Little then Swap(orig) else orig
  }

  /** ntoh() undoes hton() and the other way round, on either host. */
  lemma NtohHtonRoundTrip(order: Endian, w: Word)
    requires order.Known()
    ensures Ntoh(order, Hton(order, w)) == w
    ensures Hton(order, Ntoh(order, w)) == w
  {
    BytesDetermineWord(Ntoh(order, Hton(order, w)), w, Big);
    BytesDetermineWord(Hton(order, Ntoh(order, w)), w, order);
  }

  /** The decision matrix of to_host()/from_host(), indexed by host order
      and then by the order of the integer: swap exactly when they differ. */
  const Decision: seq<seq<bool>> := [[false, true], [true, false]]

  /** to_host(): the integer whose bytes in `intEndian` order are the bytes
      `value` occupies in host memory.  The matrix has no row or column for
      UNKNOWN, so the order must be known. */
  function ToHost(value: Word, intEndian: Endian): (r: Word)
    requires intEndian.Known()
    ensures r.SameWidth(value)
    ensures r.Bytes(intEndian) == value.Bytes(HostOrder)
  {
    if Decision[HostOrder.Code()][intEndian.Code()] then Swap(value) else value
  }

  /** from_host(): the integer whose bytes in host memory are the bytes of
      `value` in `intEndian` order. */
  function FromHost(value: Word, intEndian: Endian): (r: Word)
    requires intEndian.Known()
    ensures r.SameWidth(value)
    ensures r.Bytes(HostOrder) == value.Bytes(intEndian)
  {
    if Decision[HostOrder.Code()][intEndian.Code()] then Swap(value) else value
  }

  /** to_host() and from_host() are inverse to each other for a fixed order. */
  lemma HostRoundTrip(w: Word, e: Endian)
    requires e.Known()
    ensures ToHost(FromHost(w, e), e) == w
    ensures FromHost(ToHost(w, e), e) == w
  {
    BytesDetermineWord(ToHost(FromHost(w, e), e), w, e);
    BytesDetermineWord(FromHost(ToHost(w, e), e), w, HostOrder);
  }

  /* ---------- the conversions as written ---------- */

  /** swap() on any width as the header writes it: the 64-bit overload is
      Swap64AsWritten. */
  function SwapAsWritten(w: Word): (r: Word)
    ensures r.SameWidth(w)
    ensures !w.W64? ==> r == Swap(w)
  {
    match w
    case W16(x) => W16(Swap16(x))
    case W32(x) => W32(Swap32(x))
    case W64(x) => W64(Swap64AsWritten(x))
  }

  /** The written swap reverses the bytes exactly on 16- and 32-bit words
      and on 64-bit words whose bytes 2 and 3 are zero. */
  lemma SwapAsWrittenAgrees(w: Word)
    ensures SwapAsWritten(w) == Swap(w) <==> !w.W64? || w.v64 & 0x0000_0000_ffff_0000 == 0
  {
    if w.W64? {
      var x := w.v64;
      assert Swap64AsWritten(x) == Swap64(x) <==> x & 0x0000_0000_ffff_0000 == 0;
    }
  }

  /** hton() and ntoh() as the header writes them (both are the same
      conditional swap): they differ from the byte reversal only on the
      little-endian host, and there only for 64-bit words with a non-zero
      byte 2 or 3. */
  function ConvertAsWritten(order: Endian, orig: Word): (r: Word)
    requires order.Known()
    ensures r.SameWidth(orig)
    ensures r == Hton(order, orig) <==> order == Big || !orig.W64? || orig.v64 & 0x0000_0000_ffff_0000 == 0
  {
    SwapAsWrittenAgrees(orig);
    if order == Little then SwapAsWritten(orig) else orig
  }

  /** As written, ntoh() undoes hton() exactly on the big-endian host, on
      16- and 32-bit words, and on 64-bit words whose bytes 2 to 5 are
      zero. */
  lemma ConvertAsWrittenRoundTrip(order: Endian, w: Word)
    requires order.Known()
    ensures ConvertAsWritten(order, ConvertAsWritten(order, w)) == w <==>
              order == Big || !w.W64? || w.v64 & 0x0000_ffff_ffff_0000 == 0
  {
    if order == Little && w.W64? {
      Swap64AsWrittenInvolutionIff(w.v64);
    } else {
      SwapInvolution(w);
    }
  }

  /** to_host() and from_host() as the header writes them (both consult the
      same matrix): they differ from the byte reversal only when the order
      is not the host's, and there only for 64-bit words with a non-zero
      byte 2 or 3. */
  function HostAsWritten(value: Word, intEndian: Endian): (r: Word)
    requires intEndian.Known()
    ensures r.SameWidth(value)
    ensures r == ToHost(value, intEndian) <==>
              intEndian == HostOrder || !value.W64? || value.v64 & 0x0000_0000_ffff_0000 == 0
  {
    SwapAsWrittenAgrees(value);
    if Decision[HostOrder.Code()][intEndian.Code()] then SwapAsWritten(value) else value
  }

  /** As written, to_host() undoes from_host() exactly for the host's own
      order, on 16- and 32-bit words, and on 64-bit words whose bytes 2 to
      5 are zero. */
  lemma HostAsWrittenRoundTrip(w: Word, e: Endian)
    requires e.Known()
    ensures HostAsWritten(HostAsWritten(w, e), e) == w <==>
              e == HostOrder || !w.W64? || w.v64 & 0x0000_ffff_ffff_0000 == 0
  {
    if e != HostOrder && w.W64? {
      Swap64AsWrittenInvolutionIff(w.v64);
    } else {
      SwapInvolution(w);
    }
  }

  /** On the little-endian host, a big-endian 1234 reads as 53764 and a
      little-endian one is left alone. */
  lemma ToHostExample()
    ensures ToHost(W16(1234), Big) == W16(53764)
    ensures ToHost(W16(1234), Little) == W16(1234)
  {
  }

  /* ---------- helpers on sixteen- and thirty-two-bit values ---------- */

  /** to_host() on a 16-bit value. */
  function ToHost16(x: bv16, e: Endian): (r: bv16)
    requires e.Known()
    ensures W16(r).Bytes(e) == W16(x).Bytes(HostOrder)
  {
    ToHost(W16(x), e).v16
  }

  /** from_host() on a 16-bit value. */
  function FromHost16(x: bv16, e: Endian): (r: bv16)
    requires e.Known()
    ensures W16(r).Bytes(HostOrder) == W16(x).Bytes(e)
  {
    FromHost(W16(x), e).v16
  }

  /** to_host() on a 32-bit value. */
  function ToHost32(x: bv32, e: Endian): (r: bv32)
    requires e.Known()
    ensures W32(r).Bytes(e) == W32(x).Bytes(HostOrder)
  {
    ToHost(W32(x), e).v32
  }

  /** from_host() on a 32-bit value. */
  function FromHost32(x: bv32, e: Endian): (r: bv32)
    requires e.Known()
    ensures W32(r).Bytes(HostOrder) == W32(x).Bytes(e)
  {
    FromHost(W32(x), e).v32
  }

  lemma HostRoundTrip16(x: bv16, e: Endian)
    requires e.Known()
    ensures ToHost16(FromHost16(x, e), e) == x
  {
    HostRoundTrip(W16(x), e);
  }

  lemma HostRoundTrip32(x: bv32, e: Endian)
    requires e.Known()
    ensures ToHost32(FromHost32(x, e), e) == x
  {
    HostRoundTrip(W32(x), e);
  }
}
