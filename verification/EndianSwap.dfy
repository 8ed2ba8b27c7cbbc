/**
 The byte-lane conversions for PCI configuration data of core/endianswap.h and core/bitops.h. The
 access details, a small bit field, are taken apart by division.
 */
module EndianSwap {
  import opened BitWords

  /** BYTESWAP_16 and BYTESWAP_32 as shifts and masks. */
  function ByteSwap16(x: bv32): bv32 { ((x >> 8) & 0xFF) | ((x & 0xFF) << 8) }

  function ByteSwap32(x: bv32): bv32 {
    ((x & 0xFF) << 24) | ((x & 0xFF00) << 8) | ((x & 0xFF_0000) >> 8) | ((x & 0xFF00_0000) >> 24)
  }

  function Pair(hi: bv32, lo: bv32): bv64 { ((hi as bv64) << 32) | (lo as bv64) }
  function LowWord(x: bv64): bv32 { (x & 0xFFFF_FFFF) as bv32 }

  // ----- Access details: the offset in bits 0 and 1, the size in bits 2 to 4, flags above

  function Size(details: nat): nat { details / 4 % 8 }
  function Offset(details: nat): nat { details % 4 }

  predicate ValidSize(details: nat) { Size(details) == 1 || Size(details) == 2 || Size(details) == 4 }

  // The cases of conv_rd_data, by size.

  function ReadByte(value: bv32, offset: nat): bv32 {
    match offset
    case 0 => value & 0xFF
    case 1 => (value >> 8) & 0xFF
    case 2 => (value >> 16) & 0xFF
    case _ => (value >> 24) & 0xFF
  }

  function ReadHalf(value: bv32, value2: bv32, offset: nat): bv32 {
    match offset
    case 0 => ByteSwap16(value & 0xFFFF)
    case 1 => ByteSwap16((value >> 8) & 0xFFFF)
    case 2 => ByteSwap16((value >> 16) & 0xFFFF)
    case _ => ((value >> 16) & 0xFF00) | (value2 & 0xFF)
  }

  function ReadWord(value: bv32, value2: bv32, offset: nat): bv32 {
    match offset
    case 0 => ByteSwap32(value)
    case 1 => ByteSwap32(LowWord(Pair(value2, value) >> 8))
    case 2 => ByteSwap32(LowWord(Pair(value2, value) >> 16))
    case _ => ByteSwap32(LowWord(Pair(value2, value) >> 24))
  }

  function ConvRead(value: bv32, value2: bv32, details: nat): bv32 {
    match Size(details)
    case 1 => ReadByte(value, Offset(details))
    case 2 => ReadHalf(value, value2, Offset(details))
    case 4 => ReadWord(value, value2, Offset(details))
    case _ => 0xFFFF_FFFF
  }

  // The cases of conv_wr_data, by size.

  function WriteByte(v1: bv32, v2: bv32, offset: nat): bv32 {
    match offset
    case 0 => (v1 & 0xFFFF_FF00) | (v2 & 0xFF)
    case 1 => (v1 & 0xFFFF_00FF) | ((v2 & 0xFF) << 8)
    case 2 => (v1 & 0xFF00_FFFF) | ((v2 & 0xFF) << 16)
    case _ => (v1 & 0x00FF_FFFF) | ((v2 & 0xFF) << 24)
  }

  function WriteHalf(v1: bv32, v2: bv32, offset: nat): bv32 {
    match offset
    case 0 => (v1 & 0xFFFF_0000) | ByteSwap16(v2 & 0xFFFF)
    case 1 => (v1 & 0xFF00_00FF) | (ByteSwap16(v2 & 0xFFFF) << 8)
    case 2 => (v1 & 0x0000_FFFF) | (ByteSwap16(v2 & 0xFFFF) << 16)
    case _ => (v1 & 0x00FF_FF00) | ((v2 & 0xFF00) << 16) | (v2 & 0xFF)
  }

  function WriteWord(v2: bv32, offset: nat): bv32 {
    match offset
    case 0 => ByteSwap32(v2)
    case 1 => Rotl(ByteSwap32(v2), 8)
    case 2 => Rotl(ByteSwap32(v2), 16)
    case _ => Rotr(ByteSwap32(v2), 8)
  }

  function ConvWrite(v1: bv32, v2: bv32, details: nat): bv32 {
    match Size(details)
    case 1 => WriteByte(v1, v2, Offset(details))
    case 2 => WriteHalf(v1, v2, Offset(details))
    case 4 => WriteWord(v2, Offset(details))
    case _ => 0xFFFF_FFFF
  }

  /** A 64-bit number without its last `n` bytes. */
  function DropBytes(x: bv64, n: nat): bv64
    requires n < 8
  {
    match n
    case 0 => x
    case 1 => x >> 8
    case 2 => x >> 16
    case 3 => x >> 24
    case 4 => x >> 32
    case 5 => x >> 40
    case 6 => x >> 48
    case 7 => x >> 56
  }

  function SizeMask(size: nat): bv32 {
    match size
    case 1 => 0xFF
    case 2 => 0xFFFF
    case _ => 0xFFFF_FFFF
  }

  /** The value cut to `size` bytes. */
  function Cut(x: bv32, size: nat): bv32 { x & SizeMask(size) }

  /** REG_READ_HELPER: `size` bytes from byte `pos` of a pair of words, counted from the most significant. */
  function RegRead(hi: bv32, lo: bv32, pos: nat, size: nat): bv32
    requires pos < 4 && 1 <= size <= 4
  {
    Cut(LowWord(DropBytes(Pair(hi, lo), 8 - pos - size)), size)
  }

  /** extract_with_wrap_around: the same on one word that follows itself. */
  function ExtractWrapped(val: bv32, pos: nat, size: nat): bv32
    requires 1 <= size <= 4
  {
    Cut(LowWord(DropBytes(Pair(val, val), 8 - pos % 4 - size)), size)
  }

  function Lane0(w: bv32): bv32 { w & 0xFF }
  function Lane1(w: bv32): bv32 { (w >> 8) & 0xFF }
  function Lane2(w: bv32): bv32 { (w >> 16) & 0xFF }
  function Lane3(w: bv32): bv32 { (w >> 24) & 0xFF }

  /** Byte `j` of a little-endian register. */
  function Lane(w: bv32, j: nat): bv32
    requires j < 4
  {
    match j
    case 0 => Lane0(w)
    case 1 => Lane1(w)
    case 2 => Lane2(w)
    case 3 => Lane3(w)
  }

  /** Position of lane `j` among the bytes of the access, which wraps around at the end of the register. */
  function Place(details: nat, j: nat): nat { (j + 4 - Offset(details)) % 4 }

  // ----- Where each byte goes: for each case first as bits, then as lanes

  lemma ByteBits0(v1: bv32, v2: bv32)
    ensures WriteByte(v1, v2, 0) & 0xFF == v2 & 0xFF && (WriteByte(v1, v2, 0) >> 8) & 0xFF == (v1 >> 8) & 0xFF
    ensures (WriteByte(v1, v2, 0) >> 16) & 0xFF == (v1 >> 16) & 0xFF && (WriteByte(v1, v2, 0) >> 24) & 0xFF == (v1 >> 24) & 0xFF
  {
  }

  lemma ByteAt0(v1: bv32, v2: bv32)
    ensures Lane0(WriteByte(v1, v2, 0)) == Lane0(v2) && Lane1(WriteByte(v1, v2, 0)) == Lane1(v1)
    ensures Lane2(WriteByte(v1, v2, 0)) == Lane2(v1) && Lane3(WriteByte(v1, v2, 0)) == Lane3(v1)
  {
    hide WriteByte;
    ByteBits0(v1, v2);
  }

  lemma ByteBits1(v1: bv32, v2: bv32)
    ensures WriteByte(v1, v2, 1) & 0xFF == v1 & 0xFF && (WriteByte(v1, v2, 1) >> 8) & 0xFF == v2 & 0xFF
    ensures (WriteByte(v1, v2, 1) >> 16) & 0xFF == (v1 >> 16) & 0xFF && (WriteByte(v1, v2, 1) >> 24) & 0xFF == (v1 >> 24) & 0xFF
  {
  }

  lemma ByteAt1(v1: bv32, v2: bv32)
    ensures Lane0(WriteByte(v1, v2, 1)) == Lane0(v1) && Lane1(WriteByte(v1, v2, 1)) == Lane0(v2)
    ensures Lane2(WriteByte(v1, v2, 1)) == Lane2(v1) && Lane3(WriteByte(v1, v2, 1)) == Lane3(v1)
  {
    hide WriteByte;
    ByteBits1(v1, v2);
  }

  lemma ByteBits2(v1: bv32, v2: bv32)
    ensures WriteByte(v1, v2, 2) & 0xFF == v1 & 0xFF && (WriteByte(v1, v2, 2) >> 8) & 0xFF == (v1 >> 8) & 0xFF
    ensures (WriteByte(v1, v2, 2) >> 16) & 0xFF == v2 & 0xFF && (WriteByte(v1, v2, 2) >> 24) & 0xFF == (v1 >> 24) & 0xFF
  {
  }

  lemma ByteAt2(v1: bv32, v2: bv32)
    ensures Lane0(WriteByte(v1, v2, 2)) == Lane0(v1) && Lane1(WriteByte(v1, v2, 2)) == Lane1(v1)
    ensures Lane2(WriteByte(v1, v2, 2)) == Lane0(v2) && Lane3(WriteByte(v1, v2, 2)) == Lane3(v1)
  {
    hide WriteByte;
    ByteBits2(v1, v2);
  }

  lemma ByteAt3(v1: bv32, v2: bv32)
    ensures Lane0(WriteByte(v1, v2, 3)) == Lane0(v1) && Lane1(WriteByte(v1, v2, 3)) == Lane1(v1)
    ensures Lane2(WriteByte(v1, v2, 3)) == Lane2(v1) && Lane3(WriteByte(v1, v2, 3)) == Lane0(v2)
  {
  }

  lemma HalfAt0(v1: bv32, v2: bv32)
    ensures Lane0(WriteHalf(v1, v2, 0)) == Lane1(v2) && Lane1(WriteHalf(v1, v2, 0)) == Lane0(v2)
    ensures Lane2(WriteHalf(v1, v2, 0)) == Lane2(v1) && Lane3(WriteHalf(v1, v2, 0)) == Lane3(v1)
  {
  }

  lemma HalfAt1(v1: bv32, v2: bv32)
    ensures Lane0(WriteHalf(v1, v2, 1)) == Lane0(v1) && Lane1(WriteHalf(v1, v2, 1)) == Lane1(v2)
    ensures Lane2(WriteHalf(v1, v2, 1)) == Lane0(v2) && Lane3(WriteHalf(v1, v2, 1)) == Lane3(v1)
  {
  }

  lemma HalfAt2(v1: bv32, v2: bv32)
    ensures Lane0(WriteHalf(v1, v2, 2)) == Lane0(v1) && Lane1(WriteHalf(v1, v2, 2)) == Lane1(v1)
    ensures Lane2(WriteHalf(v1, v2, 2)) == Lane1(v2) && Lane3(WriteHalf(v1, v2, 2)) == Lane0(v2)
  {
  }

  lemma HalfAt3(v1: bv32, v2: bv32)
    ensures Lane0(WriteHalf(v1, v2, 3)) == Lane0(v2) && Lane1(WriteHalf(v1, v2, 3)) == Lane1(v1)
    ensures Lane2(WriteHalf(v1, v2, 3)) == Lane2(v1) && Lane3(WriteHalf(v1, v2, 3)) == Lane1(v2)
  {
  }

  lemma WordAt0(v2: bv32)
    ensures Lane0(WriteWord(v2, 0)) == Lane3(v2) && Lane1(WriteWord(v2, 0)) == Lane2(v2)
    ensures Lane2(WriteWord(v2, 0)) == Lane1(v2) && Lane3(WriteWord(v2, 0)) == Lane0(v2)
  {
  }

  lemma WordAt1(v2: bv32)
    ensures Lane0(WriteWord(v2, 1)) == Lane0(v2) && Lane1(WriteWord(v2, 1)) == Lane3(v2)
    ensures Lane2(WriteWord(v2, 1)) == Lane2(v2) && Lane3(WriteWord(v2, 1)) == Lane1(v2)
  {
  }

  lemma WordAt2(v2: bv32)
    ensures Lane0(WriteWord(v2, 2)) == Lane1(v2) && Lane1(WriteWord(v2, 2)) == Lane0(v2)
    ensures Lane2(WriteWord(v2, 2)) == Lane3(v2) && Lane3(WriteWord(v2, 2)) == Lane2(v2)
  {
  }

  lemma WordAt3(v2: bv32)
    ensures Lane0(WriteWord(v2, 3)) == Lane2(v2) && Lane1(WriteWord(v2, 3)) == Lane1(v2)
    ensures Lane2(WriteWord(v2, 3)) == Lane0(v2) && Lane3(WriteWord(v2, 3)) == Lane3(v2)
  {
  }

  lemma ByteLanes(v1: bv32, v2: bv32, o: nat, j: nat)
    requires o < 4 && j < 4
    ensures Lane(WriteByte(v1, v2, o), j) == if j == o then Lane(v2, 0) else Lane(v1, j)
  {
    hide WriteByte, Lane0, Lane1, Lane2, Lane3;
    match o
    case 0 => ByteAt0(v1, v2);
    case 1 => ByteAt1(v1, v2);
    case 2 => ByteAt2(v1, v2);
    case 3 => ByteAt3(v1, v2);
  }

  lemma HalfLanes(v1: bv32, v2: bv32, o: nat, j: nat)
    requires o < 4 && j < 4
    ensures Lane(WriteHalf(v1, v2, o), j) == if j == o then Lane(v2, 1) else if j == (o + 1) % 4 then Lane(v2, 0) else Lane(v1, j)
  {
    hide WriteHalf, Lane0, Lane1, Lane2, Lane3;
    match o
    case 0 => HalfAt0(v1, v2);
    case 1 => HalfAt1(v1, v2);
    case 2 => HalfAt2(v1, v2);
    case 3 => HalfAt3(v1, v2);
  }

  lemma WordLanes(v2: bv32, o: nat, j: nat)
    requires o < 4 && j < 4
    ensures Lane(WriteWord(v2, o), j) == Lane(v2, 3 - (j + 4 - o) % 4)
  {
    hide WriteWord, Lane0, Lane1, Lane2, Lane3;
    match o
    case 0 => WordAt0(v2);
    case 1 => WordAt1(v2);
    case 2 => WordAt2(v2);
    case 3 => WordAt3(v2);
  }

  /** An addressed lane takes its byte of the value, in big-endian order; the others stay. */
  lemma WriteLanes(v1: bv32, v2: bv32, details: nat, j: nat)
    requires ValidSize(details) && j < 4
    ensures Lane(ConvWrite(v1, v2, details), j) ==
            if Place(details, j) < Size(details) then Lane(v2, Size(details) - 1 - Place(details, j)) else Lane(v1, j)
  {
    hide WriteByte, WriteHalf, WriteWord, Lane;
    var o := Offset(details);
    match Size(details)
    case 1 => ByteLanes(v1, v2, o, j);
    case 2 => HalfLanes(v1, v2, o, j);
    case 4 => WordLanes(v2, o, j);
  }

  /** Byte `k` of two registers in a row. */
  function LaneOf(value: bv32, value2: bv32, k: nat): bv32
    requires k < 8
  {
    if k < 4 then Lane(value, k) else Lane(value2, k - 4)
  }

  function Two(a: bv32, b: bv32): bv32 { (a << 8) | b }
  function Four(a: bv32, b: bv32, c: bv32, d: bv32): bv32 { (a << 24) | (b << 16) | (c << 8) | d }

  lemma ReadHalfAt0(v1: bv32, v2: bv32)
    ensures ReadHalf(v1, v2, 0) == Two(Lane0(v1), Lane1(v1))
  {
  }

  lemma ReadWordAt0(v1: bv32, v2: bv32)
    ensures ReadWord(v1, v2, 0) == Four(Lane0(v1), Lane1(v1), Lane2(v1), Lane3(v1))
  {
  }

  lemma ReadHalfAt1(v1: bv32, v2: bv32)
    ensures ReadHalf(v1, v2, 1) == Two(Lane1(v1), Lane2(v1))
  {
  }

  lemma ReadWordAt1(v1: bv32, v2: bv32)
    ensures ReadWord(v1, v2, 1) == Four(Lane1(v1), Lane2(v1), Lane3(v1), Lane0(v2))
  {
  }

  lemma ReadHalfAt2(v1: bv32, v2: bv32)
    ensures ReadHalf(v1, v2, 2) == Two(Lane2(v1), Lane3(v1))
  {
  }

  lemma ReadWordAt2(v1: bv32, v2: bv32)
    ensures ReadWord(v1, v2, 2) == Four(Lane2(v1), Lane3(v1), Lane0(v2), Lane1(v2))
  {
  }

  lemma ReadHalfAt3(v1: bv32, v2: bv32)
    ensures ReadHalf(v1, v2, 3) == Two(Lane3(v1), Lane0(v2))
  {
  }

  lemma ReadWordAt3(v1: bv32, v2: bv32)
    ensures ReadWord(v1, v2, 3) == Four(Lane3(v1), Lane0(v2), Lane1(v2), Lane2(v2))
  {
  }

  /** A read takes the bytes from the offset on, the first one as the most significant. */
  lemma HalfRead(value: bv32, value2: bv32, o: nat)
    requires o < 4
    ensures ReadHalf(value, value2, o) == Two(LaneOf(value, value2, o), LaneOf(value, value2, o + 1))
  {
    hide ReadHalf, Two, Lane0, Lane1, Lane2, Lane3;
    match o
    case 0 => ReadHalfAt0(value, value2);
    case 1 => ReadHalfAt1(value, value2);
    case 2 => ReadHalfAt2(value, value2);
    case 3 => ReadHalfAt3(value, value2);
  }

  lemma WordRead(value: bv32, value2: bv32, o: nat)
    requires o < 4
    ensures ReadWord(value, value2, o) ==
            Four(LaneOf(value, value2, o), LaneOf(value, value2, o + 1), LaneOf(value, value2, o + 2), LaneOf(value, value2, o + 3))
  {
    hide ReadWord, Four, Lane0, Lane1, Lane2, Lane3;
    match o
    case 0 => ReadWordAt0(value, value2);
    case 1 => ReadWordAt1(value, value2);
    case 2 => ReadWordAt2(value, value2);
    case 3 => ReadWordAt3(value, value2);
  }

  lemma ByteRead(value: bv32, o: nat)
    requires o < 4
    ensures ReadByte(value, o) == Lane(value, o)
  {
  }

  lemma WholeByte(v: bv32)
    ensures Lane0(v) == Cut(v, 1)
  {
  }

  lemma WholeHalf(v: bv32)
    ensures Two(Lane1(v), Lane0(v)) == Cut(v, 2)
  {
  }

  lemma WholeWord4(v: bv32)
    ensures Four(Lane3(v), Lane2(v), Lane1(v), Lane0(v)) == Cut(v, 4)
  {
  }

  /** Reading back a write gives the value, cut to the size of the access. */
  lemma RoundTrip(v1: bv32, v2: bv32, details: nat)
    requires ValidSize(details)
    ensures var w := ConvWrite(v1, v2, details);
            ConvRead(w, w, details) == Cut(v2, Size(details))
  {
    hide ReadByte, ReadHalf, ReadWord, WriteByte, WriteHalf, WriteWord, Lane, LaneOf, Cut, Two, Four;
    var o := Offset(details);
    match Size(details)
    case 1 => ByteTrip(v1, v2, o);
    case 2 => HalfTrip(v1, v2, o);
    case 4 => WordTrip(v2, o);
  }

  lemma ByteTrip(v1: bv32, v2: bv32, o: nat)
    requires o < 4
    ensures ReadByte(WriteByte(v1, v2, o), o) == Cut(v2, 1)
  {
    hide ReadByte, WriteByte, Lane0, Lane1, Lane2, Lane3, Cut;
    ByteRead(WriteByte(v1, v2, o), o);
    ByteLanes(v1, v2, o, o);
    WholeByte(v2);
  }

  lemma HalfTrip(v1: bv32, v2: bv32, o: nat)
    requires o < 4
    ensures var w := WriteHalf(v1, v2, o);
            ReadHalf(w, w, o) == Cut(v2, 2)
  {
    hide ReadHalf, WriteHalf, Two, Lane0, Lane1, Lane2, Lane3, Cut;
    var w := WriteHalf(v1, v2, o);
    HalfRead(w, w, o);
    HalfLanes(v1, v2, o, o);
    HalfLanes(v1, v2, o, (o + 1) % 4);
    WholeHalf(v2);
  }

  lemma WordTrip(v2: bv32, o: nat)
    requires o < 4
    ensures var w := WriteWord(v2, o);
            ReadWord(w, w, o) == Cut(v2, 4)
  {
    hide ReadWord, WriteWord, Four, Lane0, Lane1, Lane2, Lane3, Cut;
    var w := WriteWord(v2, o);
    WordRead(w, w, o);
    WholeWord4(v2);
    match o
    case 0 => WordAt0(v2);
    case 1 => WordAt1(v2);
    case 2 => WordAt2(v2);
    case 3 => WordAt3(v2);
  }

  // ----- REG_READ_HELPER

  lemma RegRead1At0(v1: bv32, v2: bv32)
    ensures ReadByte(v1, 0) == RegRead(ByteSwap32(v1), ByteSwap32(v2), 0, 1)
  {
  }

  lemma RegRead1At1(v1: bv32, v2: bv32)
    ensures ReadByte(v1, 1) == RegRead(ByteSwap32(v1), ByteSwap32(v2), 1, 1)
  {
  }

  lemma RegRead1At2(v1: bv32, v2: bv32)
    ensures ReadByte(v1, 2) == RegRead(ByteSwap32(v1), ByteSwap32(v2), 2, 1)
  {
  }

  lemma RegRead1At3(v1: bv32, v2: bv32)
    ensures ReadByte(v1, 3) == RegRead(ByteSwap32(v1), ByteSwap32(v2), 3, 1)
  {
  }

  lemma RegRead2At0(v1: bv32, v2: bv32)
    ensures ReadHalf(v1, v2, 0) == RegRead(ByteSwap32(v1), ByteSwap32(v2), 0, 2)
  {
  }

  lemma RegRead2At1(v1: bv32, v2: bv32)
    ensures ReadHalf(v1, v2, 1) == RegRead(ByteSwap32(v1), ByteSwap32(v2), 1, 2)
  {
  }

  lemma RegRead2At2(v1: bv32, v2: bv32)
    ensures ReadHalf(v1, v2, 2) == RegRead(ByteSwap32(v1), ByteSwap32(v2), 2, 2)
  {
  }

  lemma RegRead2At3(v1: bv32, v2: bv32)
    ensures ReadHalf(v1, v2, 3) == RegRead(ByteSwap32(v1), ByteSwap32(v2), 3, 2)
  {
  }

  lemma RegRead4At0(v1: bv32, v2: bv32)
    ensures ReadWord(v1, v2, 0) == RegRead(ByteSwap32(v1), ByteSwap32(v2), 0, 4)
  {
  }

  lemma RegRead4At1(v1: bv32, v2: bv32)
    ensures ReadWord(v1, v2, 1) == RegRead(ByteSwap32(v1), ByteSwap32(v2), 1, 4)
  {
  }

  lemma RegRead4At2(v1: bv32, v2: bv32)
    ensures ReadWord(v1, v2, 2) == RegRead(ByteSwap32(v1), ByteSwap32(v2), 2, 4)
  {
  }

  lemma RegRead4At3(v1: bv32, v2: bv32)
    ensures ReadWord(v1, v2, 3) == RegRead(ByteSwap32(v1), ByteSwap32(v2), 3, 4)
  {
  }

  /** The read agrees with REG_READ_HELPER on the byte-swapped words. */
  lemma ReadIsRegRead(value: bv32, value2: bv32, details: nat)
    requires ValidSize(details)
    ensures ConvRead(value, value2, details) == RegRead(ByteSwap32(value), ByteSwap32(value2), Offset(details), Size(details))
  {
    hide ReadByte, ReadHalf, ReadWord, RegRead, ByteSwap32;
    RegRead1At0(value, value2); RegRead1At1(value, value2); RegRead1At2(value, value2); RegRead1At3(value, value2);
    RegRead2At0(value, value2); RegRead2At1(value, value2); RegRead2At2(value, value2); RegRead2At3(value, value2);
    RegRead4At0(value, value2); RegRead4At1(value, value2); RegRead4At2(value, value2); RegRead4At3(value, value2);
  }

  /** So a write can be read back, byte-swapped, with extract_with_wrap_around. */
  lemma ExtractReadsBack(v1: bv32, v2: bv32, details: nat)
    requires ValidSize(details)
    ensures ExtractWrapped(ByteSwap32(ConvWrite(v1, v2, details)), Offset(details), Size(details)) == Cut(v2, Size(details))
  {
    hide ConvRead, ConvWrite, ByteSwap32, Pair, LowWord, DropBytes, Cut;
    var w := ConvWrite(v1, v2, details);
    ReadIsRegRead(w, w, details);
    RoundTrip(v1, v2, details);
  }

  // ----- The same in terms of the numbers in the access details: flags, size and offset

  function Details(flags: nat, size: nat, o: nat): nat { 32 * flags + 4 * size + o }

  lemma DetailsParts(flags: nat, size: nat, o: nat)
    requires o < 4 && size < 8
    ensures Offset(Details(flags, size, o)) == o && Size(Details(flags, size, o)) == size
  {
    var upper := 8 * flags + size;
    LastBits(upper, o);
    UpperBits(flags, size);
    assert Details(flags, size, o) == 4 * upper + o;
  }

  lemma LastBits(upper: nat, o: nat)
    requires o < 4
    ensures (4 * upper + o) / 4 == upper && (4 * upper + o) % 4 == o
  {
  }

  lemma UpperBits(flags: nat, size: nat)
    requires size < 8
    ensures (8 * flags + size) % 8 == size
  {
  }

  /** A read takes the lanes from `o` on, in that order from the most significant byte, over into the next register. */
  lemma ReadsFrom(value: bv32, value2: bv32, flags: nat, o: nat)
    requires o < 4
    ensures ConvRead(value, value2, 32 * flags + 4 * 1 + o) == LaneOf(value, value2, o)
    ensures ConvRead(value, value2, 32 * flags + 4 * 2 + o) == Two(LaneOf(value, value2, o), LaneOf(value, value2, o + 1))
    ensures ConvRead(value, value2, 32 * flags + 4 * 4 + o)
         == Four(LaneOf(value, value2, o), LaneOf(value, value2, o + 1), LaneOf(value, value2, o + 2), LaneOf(value, value2, o + 3))
  {
    hide ReadByte, ReadHalf, ReadWord, Lane, Two, Four, Size, Offset;
    DetailsParts(flags, 1, o);
    DetailsParts(flags, 2, o);
    DetailsParts(flags, 4, o);
    ByteRead(value, o);
    HalfRead(value, value2, o);
    WordRead(value, value2, o);
  }

  /** A write changes the lanes o, o + 1, ... modulo 4, and puts the value there from its most significant byte on. */
  lemma WritesFrom(v1: bv32, v2: bv32, flags: nat, size: nat, o: nat, i: nat)
    requires o < 4 && i < 4 && size in {1, 2, 4}
    ensures Lane(ConvWrite(v1, v2, 32 * flags + 4 * size + o), (o + i) % 4)
         == if i < size then Lane(v2, size - 1 - i) else Lane(v1, (o + i) % 4)
  {
    hide ConvWrite, Lane, Size, Offset;
    DetailsParts(flags, size, o);
    WriteLanes(v1, v2, Details(flags, size, o), (o + i) % 4);
  }

  /** Other sizes give all ones. */
  lemma OtherSizes(v1: bv32, v2: bv32, flags: nat, size: nat, o: nat)
    requires o < 4 && size < 8 && size !in {1, 2, 4}
    ensures ConvRead(v1, v2, 32 * flags + 4 * size + o) == 0xFFFF_FFFF == ConvWrite(v1, v2, 32 * flags + 4 * size + o)
  {
    hide ReadByte, ReadHalf, ReadWord, WriteByte, WriteHalf, WriteWord, Size, Offset;
    DetailsParts(flags, size, o);
  }

  /** What was written is read back, directly and with extract_with_wrap_around on the byte-swapped register. */
  lemma WrittenReadsBack(v1: bv32, v2: bv32, flags: nat, size: nat, o: nat)
    requires o < 4 && size in {1, 2, 4}
    ensures var w := ConvWrite(v1, v2, 32 * flags + 4 * size + o);
            && ConvRead(w, w, 32 * flags + 4 * size + o) == Cut(v2, size)
            && ExtractWrapped(ByteSwap32(w), o, size) == Cut(v2, size)
  {
    hide ConvRead, ConvWrite, Cut, ExtractWrapped, ByteSwap32, Size, Offset;
    DetailsParts(flags, size, o);
    RoundTrip(v1, v2, Details(flags, size, o));
    ExtractReadsBack(v1, v2, Details(flags, size, o));
  }

  /** A read is what REG_READ_HELPER takes from position `o` of the two byte-swapped registers. */
  lemma ReadsAsHelper(value: bv32, value2: bv32, flags: nat, size: nat, o: nat)
    requires o < 4 && size in {1, 2, 4}
    ensures ConvRead(value, value2, 32 * flags + 4 * size + o) == RegRead(ByteSwap32(value), ByteSwap32(value2), o, size)
  {
    hide ConvRead, RegRead, ByteSwap32, Size, Offset;
    DetailsParts(flags, size, o);
    ReadIsRegRead(value, value2, Details(flags, size, o));
  }

  /** Lane j is the j-th digit to the base 256, from the least significant. */
  lemma LaneDigit(w: bv32, j: nat)
    requires j < 4
    ensures Val(Lane(w, j)) == Val(w) / (if j == 0 then 1 else if j == 1 then 0x100 else if j == 2 then 0x1_0000 else 0x100_0000) % 0x100
  {
    hide Lane0, Lane1, Lane2, Lane3, Val, Shr, LowBits;
    LaneForms(w);
    DigitPowers();
    match j {
      case 0 => ValLow(w, 8);
      case 1 =>
        ValShr(w, 8);
        ValLow(Shr(w, 8), 8);
      case 2 =>
        ValShr(w, 16);
        ValLow(Shr(w, 16), 8);
      case 3 =>
        ValShr(w, 24);
        ValLow(Shr(w, 24), 8);
    }
  }

  lemma LaneForms(w: bv32)
    ensures Lane0(w) == LowBits(w, 8) && Lane1(w) == LowBits(Shr(w, 8), 8)
    ensures Lane2(w) == LowBits(Shr(w, 16), 8) && Lane3(w) == LowBits(Shr(w, 24), 8)
  {
  }

  lemma DigitPowers()
    ensures Pow2(8) == 0x100 && Pow2(16) == 0x1_0000 && Pow2(24) == 0x100_0000
  {
    assert Pow2(8) == 0x100;
    PowSum(8, 8);
    PowSum(16, 8);
  }
}
