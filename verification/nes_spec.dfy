/**
 * A reference decoder for the header formats, written with plain arithmetic
 * on header bytes and direct sequence slices instead of bit operators,
 * bounds-checked reads and clamping slices. `NesFile.Parse` is proved equal
 * to `Reference` on every input.
 *
 * Where `parseNES` departs from the NES 2.0 format this reference follows
 * `parseNES`: the low nibble of byte 9 extends both ROM byte sizes at bit 8.
 */
module NesSpec {
  import opened Wrappers
  import opened NodeBuffer
  import opened Bits
  import opened NesTypes

  /** Bit `k` of `b`. */
  predicate BitSet(b: byte, k: nat) {
    (b / Pow2(k)) % 2 == 1
  }

  /** Bits 2-3 of flags7 equal to binary 10 select NES 2.0 ... */
  predicate IsNes2Header(flags7: byte) {
    (flags7 / 4) % 4 == 2
  }

  /** ... and equal to 00 select iNES; any other value means archaic iNES. */
  predicate IsInesHeader(flags7: byte) {
    (flags7 / 4) % 4 == 0
  }

  /** The fields bytes 4-7 determine. */
  function CommonOf(b4: byte, b5: byte, b6: byte, b7: byte): Common {
    Common(
      prgRomSize := b4 * PrgRomUnit,
      chrRomSize := b5 * ChrRomUnit,
      hasChrRam := b5 == 0,
      mirroring := if BitSet(b6, 0) then Vertical else Horizontal,
      hasBatteryBackedSram := BitSet(b6, 1),
      hasTrainer := BitSet(b6, 2),
      fourScreenMode := BitSet(b6, 3),
      mapper := (b7 / 16) * 16 + b6 / 16,
      isVsUnisystem := BitSet(b7, 0),
      isPlaychoice10 := BitSet(b7, 1))
  }

  /** Before NES 2.0 extends them, the mapper fits in 8 bits and the ROM sizes are multiples of 4 KiB. */
  lemma CommonOfBounds(b4: byte, b5: byte, b6: byte, b7: byte)
    ensures var c := CommonOf(b4, b5, b6, b7);
      c.mapper < 256 && c.prgRomSize % 4096 == 0 && c.chrRomSize % 4096 == 0
  {
    DivModUnique(b4 * PrgRomUnit, 4096, 4 * b4, 0);
    DivModUnique(b5 * ChrRomUnit, 4096, 2 * b5, 0);
  }

  /**
   * The NES 2.0 changes to the common fields: byte 8's high nibble becomes
   * mapper bits 8-11, and the low nibble of byte 9, times 256, is added to
   * both ROM byte sizes (the unit counts and `hasChrRam` are untouched).
   */
  function Nes2Extended(c: Common, b8: byte, b9: byte): Common {
    c.(mapper := c.mapper + (b8 / 16) * 256,
       prgRomSize := c.prgRomSize + (b9 % 16) * 256,
       chrRomSize := c.chrRomSize + (b9 % 16) * 256)
  }

  /** Bytes 8-10 under iNES and archaic iNES. */
  function InesOf(b8: byte, b9: byte, b10: byte): InesFields {
    InesFields(
      prgRamSize := b8 * PrgRamUnit,
      tvSystem9 := if BitSet(b9, 0) then PAL else NTSC,
      reserved9 := b9 / 2,
      tvSystem10 := b10 % 4,
      hasPrgRam := BitSet(b10, 4),
      hasBusConflicts := BitSet(b10, 5))
  }

  /** A RAM size nibble other than 15: 0 is no RAM, n is 64 << n bytes. */
  function RamSizeOf(n: nat): nat {
    if n == 0 then 0 else 64 * Pow2(n)
  }

  /** Non-zero RAM sizes run from 128 bytes (n = 1) to 1 MiB (n = 14). */
  lemma RamSizeRange(n: nat)
    requires 1 <= n <= 14
    ensures 128 <= RamSizeOf(n) <= 0x10_0000
  {
    Pow2StrictlyMonotone(1, n);
    Pow2StrictlyMonotone(n, 14);
    assert Pow2(1) == 2 && Pow2(14) == 0x4000;
  }

  /** A byte of two RAM size nibbles, one of which is the reserved value 15. */
  predicate HasReservedNibble(b: byte) {
    b % 16 == 15 || b / 16 == 15
  }

  /** Bytes 8-15 under NES 2.0, once no RAM size nibble is reserved. */
  function Nes2Of(h: seq<byte>): Nes2Fields
    requires |h| >= HeaderSize
  {
    Nes2Fields(
      submapper := h[8] % 16,
      prgRamNotBatteryBacked := RamSizeOf(h[10] % 16),
      prgRamIsBatteryBacked := RamSizeOf(h[10] / 16),
      chrRamNotBatteryBacked := RamSizeOf(h[11] % 16),
      chrRamIsBatteryBacked := RamSizeOf(h[11] / 16),
      tvSystem := if BitSet(h[12], 1) then Both else if BitSet(h[12], 0) then PAL else NTSC,
      vsPpu := VsPpuModels[h[13] % 16],
      vsMode := h[13] / 16,
      extraRoms := h[14] % 4,
      reserved15 := h[15])
  }

  /** Where PRG ROM starts: after the header and, if present, the trainer. */
  function PrgStart(hasTrainer: bool): nat {
    HeaderSize + if hasTrainer then TrainerSize else 0
  }

  /** Bytes left in a buffer of length `len` from `start` on. */
  function Remaining(len: nat, start: nat): nat {
    if start < len then len - start else 0
  }

  /** Both ROMs fit in the buffer (an empty ROM always fits). */
  predicate Fits(len: nat, hasTrainer: bool, prg: nat, chr: nat) {
    var ps := PrgStart(hasTrainer);
    && (prg == 0 || ps + prg <= len)
    && (chr == 0 || ps + prg + chr <= len)
  }

  /** The segments of an image whose ROMs fit. */
  function SegmentsOf(buf: seq<byte>, hasTrainer: bool, prg: nat, chr: nat): Segments
    requires Fits(|buf|, hasTrainer, prg, chr)
  {
    var ps := PrgStart(hasTrainer);
    var h := Min(HeaderSize, |buf|);
    Segments(
      header := buf[..h],
      trainer := if hasTrainer then Some(buf[h..Min(ps, |buf|)]) else None,
      prgRom := if prg == 0 then [] else buf[ps..ps + prg],
      chrRom := if chr == 0 then [] else buf[ps + prg..ps + prg + chr],
      trailer := buf[Min(ps + prg + chr, |buf|)..])
  }

  /** Segment slicing, with the read that comes up short reported. */
  function SegmentsResult(buf: seq<byte>, hasTrainer: bool, prg: nat, chr: nat): Result<Segments, ParseError> {
    var ps := PrgStart(hasTrainer);
    if !(prg == 0 || ps + prg <= |buf|) then Err(PrgBadRead(Remaining(|buf|, ps), prg))
    else if !(chr == 0 || ps + prg + chr <= |buf|) then Err(ChrBadRead(Remaining(|buf|, ps + prg), chr))
    else Ok(SegmentsOf(buf, hasTrainer, prg, chr))
  }

  /** The NES 2.0 header bytes 8-15, failing on the first missing byte or reserved nibble. */
  function Nes2Result(buf: seq<byte>): Result<Nes2Fields, ParseError>
    requires |buf| >= 8
  {
    if |buf| <= 10 then Err(ShortBuffer(|buf|))
    else if HasReservedNibble(buf[10]) then Err(ReservedSize(15))
    else if |buf| == 11 then Err(ShortBuffer(11))
    else if HasReservedNibble(buf[11]) then Err(ReservedSize(15))
    else if |buf| < HeaderSize then Err(ShortBuffer(|buf|))
    else Ok(Nes2Of(buf))
  }

  /** What decoding `buf` yields, error cases included. */
  function Reference(buf: seq<byte>): Result<Cart, ParseError> {
    if |buf| < 4 then Err(ShortBuffer(0))
    else if buf[..4] == UnifTag then Ok(Unif)
    else if buf[..4] != NesTag then Err(BadMagic)
    else if |buf| < 8 then Err(ShortBuffer(|buf|))
    else
      var base := CommonOf(buf[4], buf[5], buf[6], buf[7]);
      if IsNes2Header(buf[7]) then
        var ext :- Nes2Result(buf);
        var c := Nes2Extended(base, buf[8], buf[9]);
        var segments :- SegmentsResult(buf, c.hasTrainer, c.prgRomSize, c.chrRomSize);
        Ok(Nes(NesInfo(c, Nes2(ext), segments)))
      else if |buf| < 11 then Err(ShortBuffer(|buf|))
      else
        var fields := InesOf(buf[8], buf[9], buf[10]);
        var segments :- SegmentsResult(buf, base.hasTrainer, base.prgRomSize, base.chrRomSize);
        Ok(Nes(NesInfo(base, if IsInesHeader(buf[7]) then Ines(fields) else Archaic(fields), segments)))
  }

  /** What a successful NES decode is made of, read off the reference decoder. */
  lemma ReferenceNes(buf: seq<byte>, info: NesInfo)
    requires Reference(buf) == Ok(Nes(info))
    ensures |buf| >= 11 && buf[..4] == NesTag
    ensures var base := CommonOf(buf[4], buf[5], buf[6], buf[7]);
      if IsNes2Header(buf[7]) then
        && |buf| >= HeaderSize
        && !HasReservedNibble(buf[10]) && !HasReservedNibble(buf[11])
        && info.common == Nes2Extended(base, buf[8], buf[9])
        && info.dialect == Nes2(Nes2Of(buf))
      else
        && info.common == base
        && info.dialect == (if IsInesHeader(buf[7]) then Ines(InesOf(buf[8], buf[9], buf[10]))
                            else Archaic(InesOf(buf[8], buf[9], buf[10])))
    ensures SegmentsResult(buf, info.common.hasTrainer, info.common.prgRomSize, info.common.chrRomSize)
      == Ok(info.segments)
  {
  }

  /** The reference decoder on an iNES or archaic iNES header that is long enough. */
  lemma ReferenceInes(buf: seq<byte>)
    requires |buf| >= 11 && buf[..4] == NesTag && !IsNes2Header(buf[7])
    ensures var base := CommonOf(buf[4], buf[5], buf[6], buf[7]);
      var fields := InesOf(buf[8], buf[9], buf[10]);
      var segments := SegmentsResult(buf, base.hasTrainer, base.prgRomSize, base.chrRomSize);
      Reference(buf) == if segments.Err? then Err(segments.error)
        else Ok(Nes(NesInfo(base, if IsInesHeader(buf[7]) then Ines(fields) else Archaic(fields), segments.value)))
  {
    assert buf[..4] != UnifTag by {
      assert buf[..4][0] != UnifTag[0];
    }
  }

  /** The reference decoder on a NES 2.0 header. */
  lemma ReferenceNes2(buf: seq<byte>)
    requires |buf| >= 8 && buf[..4] == NesTag && IsNes2Header(buf[7])
    ensures var ext := Nes2Result(buf);
      Reference(buf) == if ext.Err? then Err(ext.error)
        else
          var c := Nes2Extended(CommonOf(buf[4], buf[5], buf[6], buf[7]), buf[8], buf[9]);
          var segments := SegmentsResult(buf, c.hasTrainer, c.prgRomSize, c.chrRomSize);
          if segments.Err? then Err(segments.error) else Ok(Nes(NesInfo(c, Nes2(ext.value), segments.value)))
  {
    assert buf[..4] != UnifTag by {
      assert buf[..4][0] != UnifTag[0];
    }
  }

  /**
   * Which error is reported where: a short read only inside the header, at
   * the first missing byte; a bad magic exactly when the magic is unknown;
   * a reserved size only under NES 2.0; a ROM read that comes up short.
   */
  lemma ReferenceErr(buf: seq<byte>, e: ParseError)
    requires Reference(buf) == Err(e)
    ensures e.ShortBuffer? ==> |buf| < HeaderSize && e.offset == if |buf| < 4 then 0 else |buf|
    ensures e.BadMagic? <==> |buf| >= 4 && buf[..4] != UnifTag && buf[..4] != NesTag
    ensures e.ReservedSize? ==> e.n == 15 && |buf| >= 11 && buf[..4] == NesTag && IsNes2Header(buf[7])
    ensures (e.PrgBadRead? || e.ChrBadRead?) ==> e.got < e.want && |buf| >= 11 && buf[..4] == NesTag
  {
    if |buf| >= 8 && buf[..4] == NesTag {
      if IsNes2Header(buf[7]) {
        ReferenceNes2(buf);
        if Nes2Result(buf).Ok? {
          var c := Nes2Extended(CommonOf(buf[4], buf[5], buf[6], buf[7]), buf[8], buf[9]);
          SegmentsResultShape(buf, c.hasTrainer, c.prgRomSize, c.chrRomSize);
        }
      } else if |buf| >= 11 {
        ReferenceInes(buf);
        var c := CommonOf(buf[4], buf[5], buf[6], buf[7]);
        SegmentsResultShape(buf, c.hasTrainer, c.prgRomSize, c.chrRomSize);
      }
    }
  }

  /** The images `parseNES` accepts, described without its operators. */
  predicate Accepted(buf: seq<byte>) {
    && |buf| >= 4
    && (|| buf[..4] == UnifTag
        || (&& buf[..4] == NesTag
            && |buf| >= 8
            && var nes2 := IsNes2Header(buf[7]);
               && |buf| >= (if nes2 then HeaderSize else 11)
               && (nes2 ==> !HasReservedNibble(buf[10]) && !HasReservedNibble(buf[11]))
               && var ext: nat := if nes2 then (buf[9] as nat % 16) * 256 else 0;
                  Fits(|buf|, BitSet(buf[6], 2), buf[4] * PrgRomUnit + ext, buf[5] * ChrRomUnit + ext)))
  }

  lemma ReferenceOkIff(buf: seq<byte>)
    ensures Reference(buf).Ok? <==> Accepted(buf)
  {
    if |buf| >= 8 && buf[..4] == NesTag {
      var base := CommonOf(buf[4], buf[5], buf[6], buf[7]);
      if IsNes2Header(buf[7]) && |buf| >= 10 {
        ReferenceNes2(buf);
        var c := Nes2Extended(base, buf[8], buf[9]);
        SegmentsResultShape(buf, c.hasTrainer, c.prgRomSize, c.chrRomSize);
      } else if |buf| >= 11 {
        ReferenceInes(buf);
        SegmentsResultShape(buf, base.hasTrainer, base.prgRomSize, base.chrRomSize);
      }
    }
  }

  /** Four consecutive slices of a buffer, cut at `a <= b <= c`, give back the buffer. */
  lemma Tiling(buf: seq<byte>, a: nat, b: nat, c: nat)
    requires a <= b <= c <= |buf|
    ensures buf[..a] + buf[a..b] + buf[b..c] + buf[c..] == buf
  {
    assert buf[..a] + buf[a..b] == buf[..b];
    assert buf[..b] + buf[b..c] == buf[..c];
  }

  /** The segments of an image whose ROMs fit lie end to end and cover the whole buffer. */
  lemma SegmentsOfJoined(buf: seq<byte>, hasTrainer: bool, prg: nat, chr: nat)
    requires Fits(|buf|, hasTrainer, prg, chr)
    ensures SegmentsOf(buf, hasTrainer, prg, chr).Joined() == buf
  {
    var s := SegmentsOf(buf, hasTrainer, prg, chr);
    var ps := PrgStart(hasTrainer);
    // the header and trainer end at a, PRG ROM at b, CHR ROM at c
    var a := Min(ps, |buf|);
    var b := if prg == 0 then a else ps + prg;
    var c := if chr == 0 then b else ps + prg + chr;
    assert s.header + s.trainer.GetOr([]) == buf[..a] by {
      var h := Min(HeaderSize, |buf|);
      if hasTrainer {
        assert buf[..h] + buf[h..a] == buf[..a];
      }
    }
    assert a <= b <= |buf| && s.prgRom == buf[a..b] by {
      if prg > 0 {
        assert a == ps;
      }
    }
    assert b <= c <= |buf| && s.chrRom == buf[b..c] by {
      if chr > 0 {
        assert b == ps + prg;
      }
    }
    assert s.trailer == buf[c..] by {
      assert c == Min(ps + prg + chr, |buf|);
    }
    Tiling(buf, a, b, c);
  }

  /** What slicing guarantees: it succeeds exactly when both ROMs fit, and then the ROMs have their declared sizes. */
  lemma SegmentsResultShape(buf: seq<byte>, hasTrainer: bool, prg: nat, chr: nat)
    ensures var r := SegmentsResult(buf, hasTrainer, prg, chr);
      && (r.Ok? <==> Fits(|buf|, hasTrainer, prg, chr))
      && (r.Ok? ==> r.value.Joined() == buf)
      && (r.Ok? ==> |r.value.prgRom| == prg && |r.value.chrRom| == chr)
      && (r.Ok? ==> (r.value.trainer.Some? <==> hasTrainer))
      && (r.Ok? && hasTrainer ==> |r.value.trainer.value| == Min(TrainerSize, Remaining(|buf|, HeaderSize)))
      && (r.Err? ==> (r.error.PrgBadRead? || r.error.ChrBadRead?) && r.error.got < r.error.want)
  {
    if Fits(|buf|, hasTrainer, prg, chr) {
      SegmentsOfJoined(buf, hasTrainer, prg, chr);
    }
  }
}
