/**
 * The value `parseNES` returns for an iNES / NES 2.0 cartridge image (the
 * header formats described on the nesdev wiki pages "INES" and "NES 2.0"),
 * and the ways it can fail.
 */
module NesTypes {
  import opened Wrappers
  import opened NodeBuffer

  /** "UNIF" and "NES" followed by MS-DOS end-of-file, read as big-endian words. */
  const UnifMagic: nat := 0x554e4946
  const NesMagic: nat := 0x4e45531a

  /** The same two magics as byte strings. */
  const UnifTag: seq<byte> := [0x55, 0x4e, 0x49, 0x46]
  const NesTag: seq<byte> := [0x4e, 0x45, 0x53, 0x1a]

  const HeaderSize: nat := 16
  const TrainerSize: nat := 512
  const PrgRomUnit: nat := 16384
  const ChrRomUnit: nat := 8192
  const PrgRamUnit: nat := 8192

  /** The exceptions `parseNES` throws, as tags. */
  datatype ParseError =
    | ShortBuffer(offset: nat)            // a readUInt8 / readUInt32BE past the end
    | BadMagic                            // "Not a .nes file (bad magic)"
    | ReservedSize(n: nat)                // "reserved value 15 in size"
    | PrgBadRead(got: nat, want: nat)     // "PRG ROM bad read"
    | ChrBadRead(got: nat, want: nat)     // "CHR ROM bad read"

  datatype Mirroring = Horizontal | Vertical

  datatype TvSystem = NTSC | PAL | Both

  /** Vs. System PPU models, indexed by the low nibble of NES 2.0 byte 13. */
  const VsPpuModels: seq<string> := [
    "RP2C03B", "RP2C03G", "RP2C04-0001", "RP2C04-0002",
    "RP2C04-0003", "RP2C04-0004", "RC2C03B", "RC2C03C",
    "RC2C05-01", "RC2C05-02", "RC2C05-03", "RC2C05-04",
    "RC2C05-05", "not defined (13)", "not defined (14)", "not defined (15)"
  ]

  /** Fields every non-UNIF image has (bytes 4-7, extended by bytes 8-9 under NES 2.0). */
  datatype Common = Common(
    prgRomSize: nat,
    chrRomSize: nat,
    hasChrRam: bool,
    mirroring: Mirroring,
    hasBatteryBackedSram: bool,
    hasTrainer: bool,
    fourScreenMode: bool,
    mapper: nat,
    isVsUnisystem: bool,
    isPlaychoice10: bool)

  /** Bytes 8-10 as iNES and archaic iNES read them. */
  datatype InesFields = InesFields(
    prgRamSize: nat,
    tvSystem9: TvSystem,
    reserved9: nat,
    tvSystem10: nat,
    hasPrgRam: bool,
    hasBusConflicts: bool)

  /** Bytes 8-15 as NES 2.0 reads them. */
  datatype Nes2Fields = Nes2Fields(
    submapper: nat,
    prgRamNotBatteryBacked: nat,
    prgRamIsBatteryBacked: nat,
    chrRamNotBatteryBacked: nat,
    chrRamIsBatteryBacked: nat,
    tvSystem: TvSystem,
    vsPpu: string,
    vsMode: nat,
    extraRoms: nat,
    reserved15: byte)

  /**
   * Which header dialect the image uses. One tag replaces the source's
   * `is_ines`, `is_archaic` and `is_nes2_0` flags and carries exactly the
   * fields that dialect populates.
   */
  datatype Dialect =
    | Ines(fields: InesFields)
    | Archaic(fields: InesFields)
    | Nes2(ext: Nes2Fields)

  /** The raw pieces `buf.slice` cuts the image into. */
  datatype Segments = Segments(
    header: seq<byte>,
    trainer: Option<seq<byte>>,
    prgRom: seq<byte>,
    chrRom: seq<byte>,
    trailer: seq<byte>)
  {
    /** The segments laid end to end. */
    function Joined(): seq<byte> {
      header + trainer.GetOr([]) + prgRom + chrRom + trailer
    }
  }

  datatype NesInfo = NesInfo(common: Common, dialect: Dialect, segments: Segments)

  /** `{is_unif: true}` or a decoded .nes image. */
  datatype Cart = Unif | Nes(info: NesInfo)
}
