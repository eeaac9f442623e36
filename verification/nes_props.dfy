/**
 * Properties of `NesFile.Parse` that the source and its test promise,
 * stated directly in terms of the input bytes.
 */
module NesProps {
  import opened Wrappers
  import opened Bits
  import opened NodeBuffer
  import opened NesTypes
  import opened NesSpec
  import opened NesFile

  // ---------------------------------------------------------------------
  // Magic dispatch (nes-file.js:7-17)

  /** A UNIF magic yields `{is_unif: true}` whatever follows it. */
  lemma UnifDetected(buf: seq<byte>)
    requires |buf| >= 4 && buf[..4] == UnifTag
    ensures Parse(buf) == Ok(Unif)
  {
  }

  /** BadMagic is reported exactly for a four-byte prefix that is neither magic. */
  lemma BadMagicIff(buf: seq<byte>)
    ensures Parse(buf) == Err(BadMagic) <==> |buf| >= 4 && buf[..4] != UnifTag && buf[..4] != NesTag
  {
    if Parse(buf).Err? {
      ReferenceErr(buf, Parse(buf).error);
    }
  }

  /** Unless the magic is `NES\x1A`, nothing after the first four bytes is read. */
  lemma MagicDecidesAlone(buf: seq<byte>)
    requires |buf| >= 4 && buf[..4] != NesTag
    ensures Parse(buf) == Parse(buf[..4])
    ensures Parse(buf).Ok? ==> Parse(buf) == Ok(Unif)
  {
    assert buf[..4][..4] == buf[..4];
  }

  /** A buffer too short for the header reads fails at the first missing byte. */
  lemma ShortBufferOffset(buf: seq<byte>, k: nat)
    requires Parse(buf) == Err(ShortBuffer(k))
    ensures |buf| < HeaderSize
    ensures k == if |buf| < 4 then 0 else |buf|
  {
    ReferenceErr(buf, ShortBuffer(k));
  }

  // ---------------------------------------------------------------------
  // When decoding succeeds

  /** Decoding succeeds exactly on the images `NesSpec.Accepted` describes. */
  lemma ParseSucceedsIff(buf: seq<byte>)
    ensures Parse(buf).Ok? <==> Accepted(buf)
  {
    ReferenceOkIff(buf);
  }

  /** A reserved RAM size nibble under NES 2.0 makes the whole parse fail. */
  lemma ReservedNibbleFails(buf: seq<byte>)
    requires |buf| >= 11 && buf[..4] == NesTag && IsNes2Header(buf[7])
    requires HasReservedNibble(buf[10]) || (|buf| >= 12 && HasReservedNibble(buf[11]))
    ensures Parse(buf) == Err(ReservedSize(15))
  {
    ReferenceNes2(buf);
  }

  // ---------------------------------------------------------------------
  // Decoded fields (nes-file.js:21-125)

  /** The dialect is chosen by bits 2-3 of flags7 alone; exactly one holds. */
  lemma DialectByFlags7(buf: seq<byte>, info: NesInfo)
    requires Parse(buf) == Ok(Nes(info))
    ensures |buf| >= 11
    ensures info.dialect.Nes2? <==> (buf[7] / 4) % 4 == 2
    ensures info.dialect.Ines? <==> (buf[7] / 4) % 4 == 0
    ensures info.dialect.Archaic? <==> (buf[7] / 4) % 4 in {1, 3}
  {
    ReferenceNes(buf, info);
  }

  /**
   * ROM sizes: 16 KiB and 8 KiB units from bytes 4 and 5, plus, under
   * NES 2.0, 256 times the LOW nibble of byte 9 added to each of them.
   * CHR RAM is signalled by byte 5 alone.
   */
  lemma RomSizes(buf: seq<byte>, info: NesInfo)
    requires Parse(buf) == Ok(Nes(info))
    ensures |buf| >= 11
    ensures var ext: nat := if info.dialect.Nes2? then (buf[9] as nat % 16) * 256 else 0;
      && info.common.prgRomSize == buf[4] as nat * 16384 + ext
      && info.common.chrRomSize == buf[5] as nat * 8192 + ext
    ensures info.common.hasChrRam <==> buf[5] == 0
  {
    ReferenceNes(buf, info);
  }

  /** Both NES 2.0 extensions come from the same nibble, so they are always equal. */
  lemma ChrExtensionEqualsPrgExtension(buf: seq<byte>, info: NesInfo)
    requires Parse(buf) == Ok(Nes(info)) && info.dialect.Nes2?
    ensures info.common.chrRomSize - buf[5] as nat * 8192 == info.common.prgRomSize - buf[4] as nat * 16384
  {
    ReferenceNes(buf, info);
  }

  /** The mapper: 8 bits from flags6 and flags7, 4 more from byte 8 under NES 2.0. */
  lemma MapperNumber(buf: seq<byte>, info: NesInfo)
    requires Parse(buf) == Ok(Nes(info))
    ensures |buf| >= 11
    ensures info.dialect.Nes2? ==>
      && info.common.mapper == buf[8] as nat / 16 * 256 + buf[7] as nat / 16 * 16 + buf[6] as nat / 16
      && info.common.mapper < 4096
      && info.dialect.ext.submapper == buf[8] % 16
    ensures !info.dialect.Nes2? ==>
      && info.common.mapper == buf[7] as nat / 16 * 16 + buf[6] as nat / 16
      && info.common.mapper < 256
  {
    ReferenceNes(buf, info);
  }

  /** flags6: bit 0 mirroring, bit 1 battery, bit 2 trainer, bit 3 four-screen; flags7: bits 0-1. */
  lemma FlagBits(buf: seq<byte>, info: NesInfo)
    requires Parse(buf) == Ok(Nes(info))
    ensures |buf| >= 11
    ensures info.common.mirroring == (if buf[6] % 2 == 1 then Vertical else Horizontal)
    ensures info.common.hasBatteryBackedSram <==> (buf[6] / 2) % 2 == 1
    ensures info.common.hasTrainer <==> (buf[6] / 4) % 2 == 1
    ensures info.common.fourScreenMode <==> (buf[6] / 8) % 2 == 1
    ensures info.common.isVsUnisystem <==> buf[7] % 2 == 1
    ensures info.common.isPlaychoice10 <==> (buf[7] / 2) % 2 == 1
  {
    ReferenceNes(buf, info);
    assert Pow2(0) == 1 && Pow2(1) == 2 && Pow2(2) == 4 && Pow2(3) == 8;
  }

  /** NES 2.0 bytes 10-15. */
  lemma Nes2Bytes(buf: seq<byte>, info: NesInfo)
    requires Parse(buf) == Ok(Nes(info)) && info.dialect.Nes2?
    ensures |buf| >= HeaderSize
    ensures var f := info.dialect.ext;
      && (f.tvSystem == Both <==> (buf[12] / 2) % 2 == 1)
      && (f.tvSystem == PAL <==> (buf[12] / 2) % 2 == 0 && buf[12] % 2 == 1)
      && f.vsPpu == VsPpuModels[buf[13] % 16]
      && f.vsMode == buf[13] / 16
      && f.extraRoms == buf[14] % 4
      && f.reserved15 == buf[15]
    ensures var f := info.dialect.ext;
      && f.prgRamNotBatteryBacked == RamSizeOf(buf[10] % 16)
      && f.prgRamIsBatteryBacked == RamSizeOf(buf[10] / 16)
      && f.chrRamNotBatteryBacked == RamSizeOf(buf[11] % 16)
      && f.chrRamIsBatteryBacked == RamSizeOf(buf[11] / 16)
      && buf[10] % 16 != 15 && buf[10] / 16 != 15 && buf[11] % 16 != 15 && buf[11] / 16 != 15
    ensures var f := info.dialect.ext;
      && PlausibleRamSize(f.prgRamNotBatteryBacked) && PlausibleRamSize(f.prgRamIsBatteryBacked)
      && PlausibleRamSize(f.chrRamNotBatteryBacked) && PlausibleRamSize(f.chrRamIsBatteryBacked)
  {
    ReferenceNes(buf, info);
    assert Pow2(0) == 1 && Pow2(1) == 2;
    NibbleRamSize(buf[10] % 16);
    NibbleRamSize(buf[10] / 16);
    NibbleRamSize(buf[11] % 16);
    NibbleRamSize(buf[11] / 16);
  }

  /** No RAM, or between 128 bytes and 1 MiB. */
  predicate PlausibleRamSize(size: nat) {
    size == 0 || 128 <= size <= 0x10_0000
  }

  lemma NibbleRamSize(n: nat)
    requires n < 15
    ensures PlausibleRamSize(RamSizeOf(n))
  {
    if n != 0 {
      RamSizeRange(n);
    }
  }

  /** iNES and archaic iNES bytes 8-10. */
  lemma InesBytes(buf: seq<byte>, info: NesInfo)
    requires Parse(buf) == Ok(Nes(info)) && !info.dialect.Nes2?
    ensures |buf| >= 11
    ensures var f := info.dialect.fields;
      && f.prgRamSize == buf[8] as nat * 8192
      && f.tvSystem9 == (if buf[9] % 2 == 1 then PAL else NTSC)
      && f.reserved9 == buf[9] / 2
      && f.tvSystem10 == buf[10] % 4
      && (f.hasPrgRam <==> (buf[10] / 16) % 2 == 1)
      && (f.hasBusConflicts <==> (buf[10] / 32) % 2 == 1)
  {
    ReferenceNes(buf, info);
    assert Pow2(0) == 1 && Pow2(4) == 16 && Pow2(5) == 32;
  }

  // ---------------------------------------------------------------------
  // Segments (nes-file.js:127-146)

  /**
   * The segments tile the buffer, the ROMs have exactly their declared
   * sizes, and PRG ROM starts at 16, or at 528 after a trainer.
   */
  lemma SegmentLayout(buf: seq<byte>, info: NesInfo)
    requires Parse(buf) == Ok(Nes(info))
    ensures var s := info.segments;
      && s.header + s.trainer.GetOr([]) + s.prgRom + s.chrRom + s.trailer == buf
      && |s.prgRom| == info.common.prgRomSize
      && |s.chrRom| == info.common.chrRomSize
    ensures var s := info.segments;
      var start := if info.common.hasTrainer then 528 else 16;
      && s.header == buf[..Min(16, |buf|)]
      && (s.trainer.Some? <==> info.common.hasTrainer)
      && (s.trainer.Some? ==> |s.trainer.value| == Min(512, |buf| - Min(16, |buf|)))
      && (s.trainer.Some? && (|buf| >= 528 || |s.prgRom| + |s.chrRom| > 0) ==> |s.trainer.value| == 512)
      && (|s.prgRom| > 0 ==> s.prgRom == buf[start..start + |s.prgRom|])
  {
    ReferenceNes(buf, info);
    SegmentsResultShape(buf, info.common.hasTrainer, info.common.prgRomSize, info.common.chrRomSize);
  }

  /** A ROM that does not fit is reported with the bytes that were there. */
  lemma BadReadReports(buf: seq<byte>, e: ParseError)
    requires Parse(buf) == Err(e) && (e.PrgBadRead? || e.ChrBadRead?)
    ensures e.got < e.want
    ensures |buf| >= 11 && buf[..4] == NesTag
  {
    ReferenceErr(buf, e);
  }

  // ---------------------------------------------------------------------
  // exponential_size (nes-file.js:81-85)

  /** Distinct RAM size nibbles give distinct sizes, so a size names its nibble. */
  lemma ExponentialSizeInjective(m: nat, n: nat)
    requires m < 16 && n < 16
    requires ExponentialSize(m).Ok? && ExponentialSize(n).Ok?
    requires ExponentialSize(m).value == ExponentialSize(n).value
    ensures m == n
  {
    if m != 0 && n != 0 && m != n {
      Pow2StrictlyMonotone(m, n);
      Pow2StrictlyMonotone(n, m);
    }
  }

  lemma ExponentialSizeExamples()
    ensures ExponentialSize(0) == Ok(0)
    ensures ExponentialSize(1) == Ok(128)
    ensures ExponentialSize(14) == Ok(0x10_0000)
    ensures ExponentialSize(15) == Err(ReservedSize(15))
  {
    assert Pow2(1) == 2 && Pow2(14) == 0x4000;
  }

  // ---------------------------------------------------------------------
  // Worked examples

  /** The header of the lj65 image that test.js:9-29 checks: one 16 KiB PRG bank, one 8 KiB CHR bank, mapper 0. */
  const Lj65Header: seq<byte> := [0x4e, 0x45, 0x53, 0x1a, 1, 1, 0, 0, 0, 0, 0, 0, 0, 0, 0, 0]

  const Lj65Common: Common := Common(
    prgRomSize := 16384, chrRomSize := 8192, hasChrRam := false,
    mirroring := Horizontal, hasBatteryBackedSram := false, hasTrainer := false,
    fourScreenMode := false, mapper := 0, isVsUnisystem := false, isPlaychoice10 := false)

  const Lj65Ines: InesFields := InesFields(
    prgRamSize := 0, tvSystem9 := NTSC, reserved9 := 0, tvSystem10 := 0,
    hasPrgRam := false, hasBusConflicts := false)

  lemma Lj65Fields()
    ensures CommonOf(1, 1, 0, 0) == Lj65Common
    ensures InesOf(0, 0, 0) == Lj65Ines
  {
    assert Pow2(0) == 1 && Pow2(1) == 2 && Pow2(2) == 4 && Pow2(3) == 8 && Pow2(4) == 16 && Pow2(5) == 32;
  }

  lemma Lj65Segments(rom: seq<byte>, trailer: seq<byte>)
    requires |rom| == 16384 + 8192
    ensures SegmentsResult(Lj65Header + rom + trailer, false, 16384, 8192)
      == Ok(Segments(Lj65Header, None, rom[..16384], rom[16384..], trailer))
  {
    var buf := Lj65Header + rom + trailer;
    assert buf[..16] == Lj65Header;
    assert buf[16..16 + 16384] == rom[..16384];
    assert buf[16 + 16384..16 + 16384 + 8192] == rom[16384..];
    assert buf[16 + 16384 + 8192..] == trailer;
  }

  lemma Lj65Reference(rom: seq<byte>, trailer: seq<byte>)
    requires |rom| == 16384 + 8192
    ensures Reference(Lj65Header + rom + trailer)
      == Ok(Nes(NesInfo(Lj65Common, Ines(Lj65Ines), Segments(Lj65Header, None, rom[..16384], rom[16384..], trailer))))
  {
    var buf := Lj65Header + rom + trailer;
    assert buf[..4] == NesTag;
    assert buf[..4] != UnifTag by {
      assert buf[..4][0] != UnifTag[0];
    }
    assert buf[4] == 1 && buf[5] == 1 && buf[6] == 0 && buf[7] == 0 && buf[8] == 0 && buf[9] == 0 && buf[10] == 0;
    var base := CommonOf(buf[4], buf[5], buf[6], buf[7]);
    assert base == Lj65Common && InesOf(buf[8], buf[9], buf[10]) == Lj65Ines by {
      Lj65Fields();
    }
    assert !IsNes2Header(buf[7]) && IsInesHeader(buf[7]);
    ReferenceInes(buf);
    assert SegmentsResult(buf, base.hasTrainer, base.prgRomSize, base.chrRomSize)
      == Ok(Segments(Lj65Header, None, rom[..16384], rom[16384..], trailer)) by {
      Lj65Segments(rom, trailer);
    }
  }

  /** What test.js:9-29 expects of the lj65 image, whatever the ROM bytes and whatever follows them. */
  lemma Lj65(rom: seq<byte>, trailer: seq<byte>)
    requires |rom| == 16384 + 8192
    ensures var r := Parse(Lj65Header + rom + trailer);
      && r.Ok? && r.value.Nes?
      && r.value.info.common == Lj65Common
      && r.value.info.dialect == Ines(Lj65Ines)
      && r.value.info.segments == Segments(Lj65Header, None, rom[..16384], rom[16384..], trailer)
  {
    Lj65Reference(rom, trailer);
  }

  /**
   * Byte 9 = 0x01 under NES 2.0: the NES 2.0 format reads its high nibble
   * (0) as CHR ROM size bits, yet the CHR ROM byte size grows by 256.
   */
  const QuirkHeader: seq<byte> := [0x4e, 0x45, 0x53, 0x1a, 0, 1, 0, 0x08, 0, 0x01, 0, 0, 0, 0, 0, 0]

  lemma QuirkReference(rom: seq<byte>)
    requires |rom| == 256 + 8192 + 256
    ensures var r := Reference(QuirkHeader + rom);
      && r.Ok? && r.value.Nes? && r.value.info.dialect.Nes2?
      && r.value.info.common.prgRomSize == 256
      && r.value.info.common.chrRomSize == 8192 + 256
      && !r.value.info.common.hasChrRam
  {
    var buf := QuirkHeader + rom;
    assert buf[..4] == NesTag && buf[..16] == QuirkHeader;
    assert buf[4] == 0 && buf[5] == 1 && buf[6] == 0 && buf[7] == 0x08 && buf[8] == 0 && buf[9] == 0x01;
    assert buf[10] == 0 && buf[11] == 0;
    assert Pow2(0) == 1 && Pow2(1) == 2 && Pow2(2) == 4;
    assert IsNes2Header(buf[7]);
    assert !BitSet(buf[6], 2);
  }

  lemma ChrExtensionFromLowNibble(rom: seq<byte>)
    requires |rom| == 256 + 8192 + 256
    ensures var r := Parse(QuirkHeader + rom);
      && r.Ok? && r.value.Nes? && r.value.info.dialect.Nes2?
      && r.value.info.common.prgRomSize == 256
      && r.value.info.common.chrRomSize == 8192 + 256
      && !r.value.info.common.hasChrRam
  {
    QuirkReference(rom);
  }
}
