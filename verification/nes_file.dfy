/**
 * `parseNES` (nes-file.js): decodes a .nes cartridge image in five steps —
 * magic dispatch, the common bytes 4-7, the choice of dialect, the
 * dialect's own header bytes, and slicing the image into segments.
 * Operators are JavaScript's, from module Bits; every step's contract
 * relates it to the arithmetic reference in module NesSpec.
 */
module NesFile {
  import opened Wrappers
  import opened Bits
  import opened NodeBuffer
  import opened NesTypes
  import opened NesSpec

  /** `buf.readUInt8(offset)`, its RangeError as `ShortBuffer(offset)`. */
  function ReadByte(buf: seq<byte>, offset: nat): (r: Result<byte, ParseError>)
    ensures r.Ok? <==> offset < |buf|
    ensures r.Ok? ==> r.value == buf[offset]
    ensures r.Err? ==> r.error == ShortBuffer(offset)
  {
    ReadUInt8(buf, offset).ToResult(ShortBuffer(offset))
  }

  /**
   * `exponential_size(n)`, nested in `parseNES`: 0 means no RAM, 15 is
   * reserved and throws, anything else is `1 << (6 + n)` bytes. Every
   * caller passes a nibble.
   */
  function ExponentialSize(n: nat): (r: Result<nat, ParseError>)
    requires n < 16
    ensures r.Ok? <==> n != 15
    ensures r.Err? ==> r.error == ReservedSize(15)
    ensures r.Ok? ==> r.value == RamSizeOf(n)
    ensures r.Ok? ==> (r.value == 0 <==> n == 0)
    ensures r.Ok? && n != 0 ==> 128 <= r.value <= 0x10_0000
  {
    if n == 0 then Ok(0)
    else if n == 15 then Err(ReservedSize(n))
    else
      var size := Shl(1, 6 + n);
      assert size == RamSizeOf(n) by { Pow2Add(6, n); assert Pow2(6) == 64; }
      RamSizeRange(n);
      Ok(size)
  }

  /** Bytes 4-7: ROM sizes, flags6 and flags7, and the 8-bit mapper number. */
  function DecodeCommon(buf: seq<byte>): (r: Result<Common, ParseError>)
    ensures r.Ok? <==> |buf| >= 8
    ensures r.Ok? ==> r.value == CommonOf(buf[4], buf[5], buf[6], buf[7])
    ensures r.Err? ==> r.error == ShortBuffer(if |buf| < 4 then 4 else |buf|)
  {
    var prgRom16k :- ReadByte(buf, 4);
    var chrRom8k :- ReadByte(buf, 5);
    var flags6 :- ReadByte(buf, 6);
    var flags7 :- ReadByte(buf, 7);
    Ok(CommonFields(prgRom16k, chrRom8k, flags6, flags7))
  }

  /** The fields of bytes 4-7 (nes-file.js:21-39). */
  function CommonFields(prgRom16k: byte, chrRom8k: byte, flags6: byte, flags7: byte): (r: Common)
    ensures r == CommonOf(prgRom16k, chrRom8k, flags6, flags7)
  {
    assert (And(flags6, 1) != 0) == BitSet(flags6, 0) by { BitTest(flags6, 0); }
    assert (And(flags6, 2) != 0) == BitSet(flags6, 1) by { BitTest(flags6, 1); }
    assert (And(flags6, 4) != 0) == BitSet(flags6, 2) by { BitTest(flags6, 2); }
    assert (And(flags6, 8) != 0) == BitSet(flags6, 3) by { BitTest(flags6, 3); }
    assert (And(flags7, 1) != 0) == BitSet(flags7, 0) by { BitTest(flags7, 0); }
    assert (And(flags7, 2) != 0) == BitSet(flags7, 1) by { BitTest(flags7, 1); }
    Common(
      prgRomSize := prgRom16k * 16384,
      chrRomSize := chrRom8k * 8192,
      hasChrRam := chrRom8k == 0,
      mirroring := if And(flags6, 1) != 0 then Vertical else Horizontal,
      hasBatteryBackedSram := And(flags6, 2) != 0,
      hasTrainer := And(flags6, 4) != 0,
      fourScreenMode := And(flags6, 8) != 0,
      mapper := InesMapper(flags6, flags7),
      isVsUnisystem := And(flags7, 1) != 0,
      isPlaychoice10 := And(flags7, 2) != 0)
  }

  /**
   * The mapper number from flags6 and flags7 (nes-file.js:33, 39): bits 0-3
   * are flags6's high nibble and bits 4-7 flags7's, so the OR is a sum.
   */
  function InesMapper(flags6: byte, flags7: byte): (m: nat)
    ensures m == (flags7 / 16) * 16 + flags6 / 16
    ensures m < 256
  {
    assert Pow2(4) == 16;
    AndHighNibble(flags7);
    OrDisjoint((flags7 / 16) * 16, flags6 / 16, 4);
    Or(Shr(flags6, 4), And(flags7, 0xf0))
  }

  /** Bytes 8-10 as iNES and archaic iNES read them. */
  function DecodeInes(buf: seq<byte>): (r: Result<InesFields, ParseError>)
    ensures r.Ok? <==> |buf| >= 11
    ensures r.Ok? ==> r.value == InesOf(buf[8], buf[9], buf[10])
    ensures r.Err? ==> r.error == ShortBuffer(if |buf| < 8 then 8 else |buf|)
  {
    var prgRam8k :- ReadByte(buf, 8);
    var flags9 :- ReadByte(buf, 9);
    var flags10 :- ReadByte(buf, 10);
    BitTest(flags9, 0);
    BitTest(flags10, 4);
    BitTest(flags10, 5);
    AndLowMask(flags10, 2);
    Ok(InesFields(
      prgRamSize := prgRam8k * 8192,
      tvSystem9 := if And(flags9, 1) != 0 then PAL else NTSC,
      reserved9 := Shr(flags9, 1),
      tvSystem10 := And(flags10, 3),
      hasPrgRam := And(flags10, 16) != 0,
      hasBusConflicts := And(flags10, 32) != 0))
  }

  /** Byte 8 under NES 2.0: the submapper and mapper bits 8-11 (nes-file.js:71-74). */
  function Nes2Mapper(mapper: nat, byte8: byte): (r: (nat, nat))
    requires mapper < 256
    ensures r.0 == mapper + (byte8 / 16) * 256 && r.0 < 4096
    ensures r.1 == byte8 % 16
  {
    var high := Shl(Shr(byte8, 4), 8);
    assert high == (byte8 / 16) * 256 && high % Pow2(8) == 0 by {
      assert Pow2(4) == 16 && Pow2(8) == 256;
    }
    assert Or(mapper, high) == mapper + high by {
      assert Pow2(8) == 256;
      OrDisjoint(high, mapper, 8);
    }
    assert And(byte8, 0x0f) == byte8 % 16 by {
      AndLowMask(byte8, 4);
      assert Pow2(4) == 16;
    }
    (Or(mapper, high), And(byte8, 0x0f))
  }

  /**
   * Byte 9 under NES 2.0 as nes-file.js:77-78 apply it: the low nibble of
   * byte 9, shifted left 8, is OR'd into the PRG ROM byte size, and, since
   * `byte9 & 0xf0 >> 4` parses as `byte9 & (0xf0 >> 4)`, the same low
   * nibble is OR'd into the CHR ROM byte size.
   */
  function Nes2RomSizes(prgRomSize: nat, chrRomSize: nat, byte9: byte): (r: (nat, nat))
    requires prgRomSize % 4096 == 0 && chrRomSize % 4096 == 0
    ensures r.0 == prgRomSize + (byte9 % 16) * 256
    ensures r.1 == chrRomSize + (byte9 % 16) * 256
  {
    var low := Shl(And(byte9, 0x0f), 8);
    // `byte9 & 0xf0 >> 4` in the source
    var quirk := Shl(And(byte9, Shr(0xf0, 4)), 8);
    assert low == quirk == (byte9 % 16) * 256 by {
      AndLowMask(byte9, 4);
      assert Pow2(4) == 16 && Pow2(8) == 256;
    }
    assert Or(prgRomSize, low) == prgRomSize + low by {
      assert Pow2(12) == 4096;
      OrDisjoint(prgRomSize, low, 12);
    }
    assert Or(chrRomSize, quirk) == chrRomSize + quirk by {
      assert Pow2(12) == 4096;
      OrDisjoint(chrRomSize, quirk, 12);
    }
    (Or(prgRomSize, low), Or(chrRomSize, quirk))
  }

  /**
   * Byte 10 or 11 under NES 2.0: two RAM sizes, the low nibble's first
   * (nes-file.js:87-93); a reserved nibble throws.
   */
  function RamSizes(b: byte): (r: Result<(nat, nat), ParseError>)
    ensures r.Ok? <==> !HasReservedNibble(b)
    ensures r.Err? ==> r.error == ReservedSize(15)
    ensures r.Ok? ==> r.value == (RamSizeOf(b % 16), RamSizeOf(b / 16))
  {
    assert Pow2(4) == 16;
    AndLowMask(b, 4);
    AndHighNibble(b);
    var notBatteryBacked :- ExponentialSize(And(b, 0x0f));
    var isBatteryBacked :- ExponentialSize(Shr(And(b, 0xf0), 4));
    Ok((notBatteryBacked, isBatteryBacked))
  }

  /** Byte 12 under NES 2.0: bit 1 means both regions, else bit 0 means PAL (nes-file.js:95-97). */
  function Nes2TvSystem(byte12: byte): (t: TvSystem)
    ensures t == Both <==> BitSet(byte12, 1)
    ensures t == PAL <==> !BitSet(byte12, 1) && BitSet(byte12, 0)
    ensures t == NTSC <==> !BitSet(byte12, 1) && !BitSet(byte12, 0)
  {
    BitTest(byte12, 0);
    BitTest(byte12, 1);
    var tvSystem := if And(byte12, 1) != 0 then PAL else NTSC;
    if And(byte12, 2) != 0 then Both else tvSystem
  }

  /** Byte 13 under NES 2.0: the Vs. PPU model, always in the table, and the Vs. mode (nes-file.js:99-118). */
  function VsSystem(byte13: byte): (r: (string, nat))
    ensures r.0 == VsPpuModels[byte13 % 16]
    ensures r.1 == byte13 / 16 && r.1 < 16
  {
    assert Pow2(4) == 16;
    AndLowMask(byte13, 4);
    AndHighNibble(byte13);
    (VsPpuModels[And(byte13, 0x0f)], Shr(And(byte13, 0xf0), 4))
  }

  /** Bytes 8-9 under NES 2.0 applied to the common fields, and the submapper. */
  function Nes2Extend(base: Common, byte8: byte, byte9: byte): (r: (Common, nat))
    requires base.mapper < 256 && base.prgRomSize % 4096 == 0 && base.chrRomSize % 4096 == 0
    ensures r == (Nes2Extended(base, byte8, byte9), byte8 % 16)
  {
    var (mapper, submapper) := Nes2Mapper(base.mapper, byte8);
    var (prgRomSize, chrRomSize) := Nes2RomSizes(base.prgRomSize, base.chrRomSize, byte9);
    (base.(mapper := mapper, prgRomSize := prgRomSize, chrRomSize := chrRomSize), submapper)
  }

  /** Reads bytes 8-9 under NES 2.0 and extends the common fields with them. */
  function DecodeNes2Extension(buf: seq<byte>, base: Common): (r: Result<(Common, nat), ParseError>)
    requires |buf| >= 8 && base == CommonOf(buf[4], buf[5], buf[6], buf[7])
    ensures r.Ok? <==> |buf| >= 10
    ensures r.Err? ==> r.error == ShortBuffer(|buf|)
    ensures r.Ok? ==> r.value == (Nes2Extended(base, buf[8], buf[9]), buf[8] % 16)
  {
    CommonOfBounds(buf[4], buf[5], buf[6], buf[7]);
    var byte8 :- ReadByte(buf, 8);
    var byte9 :- ReadByte(buf, 9);
    Ok(Nes2Extend(base, byte8, byte9))
  }

  /** Bytes 10-11 under NES 2.0: PRG RAM sizes, then CHR RAM sizes. */
  function DecodeNes2RamSizes(buf: seq<byte>): (r: Result<((nat, nat), (nat, nat)), ParseError>)
    requires |buf| >= 10
    ensures r.Ok? <==> |buf| >= 12 && !HasReservedNibble(buf[10]) && !HasReservedNibble(buf[11])
    ensures r.Err? ==>
      r.error == if |buf| == 10 then ShortBuffer(10)
                 else if HasReservedNibble(buf[10]) then ReservedSize(15)
                 else if |buf| == 11 then ShortBuffer(11)
                 else ReservedSize(15)
    ensures r.Ok? ==> r.value == ((RamSizeOf(buf[10] % 16), RamSizeOf(buf[10] / 16)),
                                  (RamSizeOf(buf[11] % 16), RamSizeOf(buf[11] / 16)))
  {
    var byte10 :- ReadByte(buf, 10);
    var prgRam :- RamSizes(byte10);
    var byte11 :- ReadByte(buf, 11);
    var chrRam :- RamSizes(byte11);
    Ok((prgRam, chrRam))
  }

  /** Bytes 12-15 under NES 2.0: TV system, Vs. System, extra ROMs and the reserved byte. */
  function DecodeNes2Misc(buf: seq<byte>): (r: Result<(TvSystem, string, nat, nat, byte), ParseError>)
    requires |buf| >= 12
    ensures r.Ok? <==> |buf| >= 16
    ensures r.Err? ==> r.error == ShortBuffer(|buf|)
    ensures r.Ok? ==> var f := Nes2Of(buf);
      r.value == (f.tvSystem, f.vsPpu, f.vsMode, f.extraRoms, f.reserved15)
  {
    var byte12 :- ReadByte(buf, 12);
    var byte13 :- ReadByte(buf, 13);
    var (vsPpu, vsMode) := VsSystem(byte13);
    var byte14 :- ReadByte(buf, 14);
    AndLowMask(byte14, 2);
    var byte15 :- ReadByte(buf, 15);
    Ok((Nes2TvSystem(byte12), vsPpu, vsMode, And(byte14, 3), byte15))
  }

  /** Bytes 8-15 under NES 2.0 (nes-file.js:70-125), and the common fields they extend. */
  function DecodeNes2(buf: seq<byte>, base: Common): (r: Result<(Common, Nes2Fields), ParseError>)
    requires |buf| >= 8 && base == CommonOf(buf[4], buf[5], buf[6], buf[7])
    ensures r.Ok? <==> Nes2Result(buf).Ok?
    ensures r.Err? ==> r.error == Nes2Result(buf).error
    ensures r.Ok? ==> r.value.0 == Nes2Extended(base, buf[8], buf[9]) && r.value.1 == Nes2Of(buf)
  {
    var (common, submapper) :- DecodeNes2Extension(buf, base);
    var (prgRam, chrRam) :- DecodeNes2RamSizes(buf);
    var (tvSystem, vsPpu, vsMode, extraRoms, reserved15) :- DecodeNes2Misc(buf);
    Ok((common,
        Nes2Fields(
          submapper := submapper,
          prgRamNotBatteryBacked := prgRam.0,
          prgRamIsBatteryBacked := prgRam.1,
          chrRamNotBatteryBacked := chrRam.0,
          chrRamIsBatteryBacked := chrRam.1,
          tvSystem := tvSystem,
          vsPpu := vsPpu,
          vsMode := vsMode,
          extraRoms := extraRoms,
          reserved15 := reserved15)))
  }

  /**
   * Cuts the image into header, trainer, PRG ROM, CHR ROM and trailer
   * (nes-file.js:127-146). Slices clamp, so only the two ROM length checks
   * can fail; `NesSpec.SegmentsResultShape` says what the pieces are.
   */
  function DecodeSegments(buf: seq<byte>, hasTrainer: bool, prgRomSize: nat, chrRomSize: nat): (r: Result<Segments, ParseError>)
    ensures r == SegmentsResult(buf, hasTrainer, prgRomSize, chrRomSize)
  {
    var header := Slice(buf, 0, 16);
    var trainer := if hasTrainer then Some(Slice(buf, 16, 16 + 512)) else None;
    var prgStart := 16 + (if hasTrainer then 512 else 0);
    var prgRom := Slice(buf, prgStart, prgStart + prgRomSize);
    assert |prgRom| == prgRomSize <==> (prgRomSize == 0 || prgStart + prgRomSize <= |buf|);
    if |prgRom| != prgRomSize then
      assert |prgRom| == Remaining(|buf|, prgStart);
      Err(PrgBadRead(|prgRom|, prgRomSize))
    else
      var chrStart := prgStart + prgRomSize;
      var chrRom := Slice(buf, chrStart, chrStart + chrRomSize);
      assert |chrRom| == chrRomSize <==> (chrRomSize == 0 || chrStart + chrRomSize <= |buf|);
      if |chrRom| != chrRomSize then
        assert |chrRom| == Remaining(|buf|, chrStart);
        Err(ChrBadRead(|chrRom|, chrRomSize))
      else
        Ok(Segments(header, trainer, prgRom, chrRom, SliceFrom(buf, chrStart + chrRomSize)))
  }

  /** The header's magic: a big-endian word compared with the two known values. */
  lemma MagicWord(buf: seq<byte>)
    requires |buf| >= 4
    ensures ReadUInt32BE(buf, 0).value == UnifMagic <==> buf[..4] == UnifTag
    ensures ReadUInt32BE(buf, 0).value == NesMagic <==> buf[..4] == NesTag
  {
    if buf[..4] == UnifTag || buf[..4] == NesTag {
      assert buf[0] == buf[..4][0] && buf[1] == buf[..4][1] && buf[2] == buf[..4][2] && buf[3] == buf[..4][3];
    }
    if ReadUInt32BE(buf, 0).value in {UnifMagic, NesMagic} {
      assert buf[..4] == [buf[0], buf[1], buf[2], buf[3]];
    }
  }

  /** Everything after a `NES\x1A` magic: common fields, dialect, dialect fields, segments. */
  function ParseNes(buf: seq<byte>): (r: Result<NesInfo, ParseError>)
    requires |buf| >= 4 && buf[..4] == NesTag
    ensures r.Ok? <==> Reference(buf).Ok?
    ensures r.Err? ==> Reference(buf) == Err(r.error)
    ensures r.Ok? ==> Reference(buf) == Ok(Nes(r.value))
  {
    var base :- DecodeCommon(buf);
    var flags7 := buf[7];
    var isNes2 := And(flags7, 0x0c) == 0x08;
    var isInes := And(flags7, 0x0c) == 0;
    assert isNes2 == IsNes2Header(flags7) && isInes == IsInesHeader(flags7) by {
      AndBits2To3(flags7);
    }
    if isNes2 then
      var (common, ext) :- DecodeNes2(buf, base);
      var segments :- DecodeSegments(buf, common.hasTrainer, common.prgRomSize, common.chrRomSize);
      Ok(NesInfo(common, Nes2(ext), segments))
    else
      var fields :- DecodeInes(buf);
      var segments :- DecodeSegments(buf, base.hasTrainer, base.prgRomSize, base.chrRomSize);
      Ok(NesInfo(base, if isInes then Ines(fields) else Archaic(fields), segments))
  }

  /**
   * `parseNES(buf)`: `{is_unif: true}` for a UNIF magic, an error for any
   * other magic but `NES\x1A`, else the decoded image or the first error
   * the decoding steps throw. It agrees with the reference decoder on
   * every buffer.
   */
  function Parse(buf: seq<byte>): (r: Result<Cart, ParseError>)
    ensures r == Reference(buf)
  {
    var magic :- ReadUInt32BE(buf, 0).ToResult(ShortBuffer(0));
    MagicWord(buf);
    if magic == UnifMagic then Ok(Unif)
    else if magic != NesMagic then Err(BadMagic)
    else
      var info :- ParseNes(buf);
      Ok(Nes(info))
  }
}
