# nes-file: the `parseNES` header decoder in Dafny

`parseNES(buf)` in `nes-file.js` decodes a cartridge image in the iNES / NES 2.0
format. It performs the following steps:

1. It reads the four-byte magic. A UNIF magic yields `{is_unif: true}`, and any
   magic other than `NES\x1A` throws.
2. It reads bytes 4-7: ROM sizes, CHR RAM, mirroring, battery, trainer,
   four-screen, mapper, Vs. System and PlayChoice-10.
3. It classifies the header by bits 2-3 of byte 7. `10` is NES 2.0, `00` is iNES
   and anything else is archaic iNES.
4. For iNES and archaic iNES it decodes bytes 8-10. For NES 2.0 it decodes bytes
   8-15. That covers the submapper, mapper bits 8-11, the ROM size extension,
   four RAM sizes through `exponential_size`, the TV system, the Vs. PPU model
   and mode, extra ROMs and the reserved byte.
5. It slices the buffer into header, trainer, PRG ROM, CHR ROM and trailer. It
   throws when either ROM comes up short.

The project models this function as a pure Dafny function and proves properties
of it. It has the following modules:

- `Wrappers`: `Option` and `Result`. A thrown exception becomes an `Err`.
- `Bits`: JavaScript's `&`, `|`, `>>` and `<<` on the non-negative values the
  decoder applies them to, plus lemmas that turn masks, shifts and disjoint ORs
  into arithmetic.
- `NodeBuffer`: the three `Buffer` operations used.
  - `readUInt8` and `readUInt32BE` fail past the end, as Node's `RangeError` does.
  - `slice` clamps its bounds to the buffer.
- `NesTypes`: the result record, split into the following parts:
  - the common fields
  - the dialect as a tagged union (`Ines`, `Archaic` or `Nes2`), each case
    carrying its own fields
  - the segments
  - the error taxonomy: `ShortBuffer(offset)`, `BadMagic`, `ReservedSize(15)`,
    `PrgBadRead(got, want)` and `ChrBadRead(got, want)`
- `NesFile`: the decoder, written step by step like the source, using the
  operators from `Bits` and the reads and slices from `NodeBuffer`.
- `NesSpec`: `Reference`, an independent decoder. It uses plain arithmetic on the
  header bytes and direct sequence slices. `NesFile.Parse` is proved equal to it
  on every buffer, error cases included. The module also holds the shape lemmas
  for success, failure and segment slicing.
- `NesProps`: properties of `NesFile.Parse`, stated directly in terms of the
  input bytes. These are the magic dispatch, when decoding succeeds, every field,
  the segment layout, `exponential_size`, and worked examples. One example is the
  lj65 image that `test.js` checks.

## Quirks of the code that the model keeps

- **The CHR extension uses byte 9's low nibble.** At `nes-file.js:78` the
  expression `byte9 & 0xf0 >> 4` parses as `byte9 & (0xf0 >> 4)`, which is
  `byte9 & 0x0f`. The NES 2.0 format intends the high nibble here.
  - `NesFile.Nes2RomSizes` computes it as written.
  - `NesProps.ChrExtensionEqualsPrgExtension` shows that both extensions are
    always equal.
  - `NesProps.ChrExtensionFromLowNibble` exhibits a header with byte 9 = `0x01`
    whose CHR ROM grows by 256 bytes.
- **The extension goes into the byte sizes.** Both byte-9 extensions are OR'd,
  shifted left 8, into the byte sizes (units of 16 KiB and 8 KiB already
  applied). They are not added to the unit counts. The ROM sizes are multiples
  of 4096, so this OR is an addition of `nibble * 256`.
- **Flags 7 bits 4-7 are OR'd into the mapper.** At `nes-file.js:39`, bits 4-7
  of flags 7 are OR'd, unshifted, into the mapper. Flags 6 supplies bits 0-3,
  so this is the high nibble of an 8-bit mapper number.
- **Dialect detection uses bits 2-3 of flags 7 alone.** When those bits are
  `00` the header is iNES, not archaic iNES. The format's secondary checks are
  TODOs at `nes-file.js:47-48` and are not performed.
- **The largest RAM size is 1 MiB.** `exponential_size(14)` is `1 << 20`, so the
  largest RAM size is 1 MiB, not 64 MiB.
- **Slices clamp.** The header is `buf[0..min(16, |buf|)]`, so an iNES image of
  11 to 15 bytes whose ROM sizes are both 0 decodes successfully. A trainer is
  512 bytes whenever a ROM follows it, and otherwise whatever is left after the
  header.

## Model

| member | source | states |
|---|---|---|
| NodeBuffer.ReadUInt8 | nes-file.js:21 | `readUInt8(offset)` yields a byte exactly when the offset is inside the buffer, and that byte is `buf[offset]`. |
| NodeBuffer.ReadUInt32BE | nes-file.js:7 | The read succeeds exactly when four bytes are available. The word is below 2^32, and it splits back into those four bytes, most significant first. |
| NodeBuffer.ReadUInt32BEInjective | nes-file.js:7-17 | Two buffers give the same magic word exactly when their first four bytes agree, so the switch on the word is a switch on the four-byte prefix. |
| NodeBuffer.Slice | nes-file.js:127-140 | `buf.slice(start, end)` clamps both bounds. The length is `min(end, len) - min(start, len)`, or 0 when `end <= start`. The content is the buffer from the clamped start on. |
| NodeBuffer.SliceFrom | nes-file.js:146 | `buf.slice(start)` has length `len - min(start, len)`, and the prefix before the clamped start concatenated with it is the whole buffer. |
| Bits.BitTest | nes-file.js:29-37 | `x & 2^k` is non-zero exactly when bit k of x is set, which is how every `!!(flags & bit)` test reads a flag. |
| Bits.AndLowMask | nes-file.js:73 | `x & (2^k - 1)` is `x mod 2^k`, so `& 0x0f` and `& 3` keep the low bits. |
| Bits.AndHighNibble | nes-file.js:89 | For a byte x, `x & 0xf0` is `(x / 16) * 16`, so `(x & 0xf0) >> 4` is the high nibble. |
| Bits.AndBits2To3 | nes-file.js:46-48 | `x & 0x0c` is bits 2-3 of x times 4, so comparing it with `0x08` and `0` reads the dialect bits. |
| Bits.OrDisjoint | nes-file.js:39 | OR of a value whose low k bits are clear with a value below 2^k is their sum, both ways round. This is how the mapper pieces and the byte-9 extensions combine. |
| Bits.Pow2StrictlyMonotone | nes-file.js:84 | `1 << m < 1 << n` exactly when `m < n`. |
| NesFile.ReadByte | nes-file.js:21-24 | `readUInt8(offset)` yields `buf[offset]` exactly when the offset is inside the buffer, and otherwise fails with `ShortBuffer(offset)`. |
| NesFile.ExponentialSize | nes-file.js:81-85 | It fails with `ReservedSize(15)` exactly for 15. Otherwise it yields `64 * 2^n`, which is 0 exactly for n = 0 and lies between 128 and 1 MiB for n = 1..14. |
| NesFile.DecodeCommon | nes-file.js:21-39 | It succeeds exactly when bytes 4-7 exist, yielding the arithmetic field values of `NesSpec.CommonOf`. Otherwise it fails at the first missing byte. |
| NesFile.CommonFields | nes-file.js:21-39 | The operator-based fields equal the arithmetic ones: 16 KiB and 8 KiB units, CHR RAM iff byte 5 is 0, flag bits 0-3 of byte 6, flag bits 0-1 of byte 7, and the mapper from the two high nibbles. |
| NesFile.InesMapper | nes-file.js:33-39 | `flags6 >> 4` OR'd with `flags7 & 0xf0` is `(flags7 / 16) * 16 + flags6 / 16`, below 256. |
| NesFile.DecodeInes | nes-file.js:55-67 | It succeeds exactly when bytes 8-10 exist, yielding PRG RAM in 8 KiB units, the TV bit and reserved bits of byte 9, and the TV code, PRG RAM bit and bus-conflict bit of byte 10. Otherwise it fails at the first missing byte. |
| NesFile.Nes2Mapper | nes-file.js:71-74 | Byte 8's high nibble becomes mapper bits 8-11, so the mapper stays below 4096. The submapper is byte 8's low nibble. |
| NesFile.Nes2RomSizes | nes-file.js:76-78 | Byte 9's low nibble times 256 is added to the PRG ROM byte size, and, through the precedence at line 78, to the CHR ROM byte size as well. |
| NesFile.RamSizes | nes-file.js:87-93 | A RAM size byte decodes exactly when neither nibble is 15, low nibble first. Otherwise it fails with `ReservedSize(15)`. |
| NesFile.Nes2TvSystem | nes-file.js:95-97 | The result is `both` iff bit 1 is set. Otherwise it is PAL iff bit 0 is set, and NTSC iff neither bit is set. |
| NesFile.VsSystem | nes-file.js:99-118 | The PPU model is the table entry at the low nibble (always in range), and the Vs. mode is the high nibble. |
| NesFile.Nes2Extend | nes-file.js:70-78 | Bytes 8-9 applied to the common fields give `NesSpec.Nes2Extended`, together with the submapper. |
| NesFile.DecodeNes2Extension | nes-file.js:70-78 | It succeeds exactly when bytes 8-9 exist. Otherwise it fails at the first missing one. |
| NesFile.DecodeNes2RamSizes | nes-file.js:87-93 | It succeeds exactly when bytes 10-11 exist with no reserved nibble. Otherwise it fails with the first short read or reserved nibble, in source order. |
| NesFile.DecodeNes2Misc | nes-file.js:95-124 | It succeeds exactly when bytes 12-15 exist, yielding the TV system, Vs. PPU and mode, extra ROM count and reserved byte of `NesSpec.Nes2Of`. |
| NesFile.DecodeNes2 | nes-file.js:70-125 | It succeeds and fails exactly as `NesSpec.Nes2Result` does, with the same error, and yields the extended common fields and all NES 2.0 fields. |
| NesFile.DecodeSegments | nes-file.js:127-146 | Slicing with clamped slices and the two length checks equals the direct description `NesSpec.SegmentsResult`. |
| NesFile.MagicWord | nes-file.js:7-14 | The big-endian word equals `0x554e4946` iff the prefix is `UNIF`, and equals `0x4e45531a` iff the prefix is `NES\x1A`. |
| NesFile.ParseNes | nes-file.js:19-148 | After a `NES\x1A` magic, decoding succeeds or fails exactly as the reference decoder does, with the same result. |
| NesFile.Parse | nes-file.js:6-149 | `parseNES` equals the reference decoder `NesSpec.Reference` on every buffer, errors included. |
| NesSpec.CommonOfBounds | nes-file.js:21-39 | Before NES 2.0 extends them, the mapper is below 256 and both ROM byte sizes are multiples of 4096. |
| NesSpec.RamSizeRange | nes-file.js:81-85 | `1 << (6 + n)` for n = 1..14 lies between 128 bytes and 1 MiB. |
| NesSpec.ReferenceNes | nes-file.js:19-148 | A successful decode has at least 11 bytes and the NES magic. Under NES 2.0 it has all 16 header bytes, no reserved nibble, the extended common fields and the NES 2.0 fields. Otherwise it has the plain common fields and iNES or archaic fields by flags 7. Its segments are the slicing of the buffer. |
| NesSpec.ReferenceErr | nes-file.js:7-143 | It gives the error taxonomy. A short read happens only inside the 16-byte header, at the first missing byte (0 for the magic). `BadMagic` is reported exactly for an unknown magic. A reserved size is reported only under NES 2.0. A ROM bad read reports fewer bytes than declared. |
| NesSpec.ReferenceOkIff | nes-file.js:6-146 | The reference decoder succeeds exactly on the buffers that `NesSpec.Accepted` describes. |
| NesSpec.SegmentsOfJoined | nes-file.js:127-146 | When both ROMs fit, header, trainer, PRG ROM, CHR ROM and trailer concatenate back to the buffer. |
| NesSpec.SegmentsResultShape | nes-file.js:127-146 | Slicing succeeds iff both ROMs fit. On success the pieces tile the buffer and the ROMs have their declared lengths. A trainer is present iff flagged, and has length `min(512, len - 16)`. Errors report fewer bytes than declared. |
| NesProps.UnifDetected | nes-file.js:9-10 | A UNIF magic yields `{is_unif: true}`, whatever follows. |
| NesProps.BadMagicIff | nes-file.js:15-16 | `BadMagic` is reported iff the buffer has four bytes that are neither magic. |
| NesProps.MagicDecidesAlone | nes-file.js:6-17 | Unless the magic is `NES\x1A`, the result depends only on the first four bytes, and a success is the UNIF result. |
| NesProps.ShortBufferOffset | nes-file.js:7-124 | A short read happens only for buffers shorter than the header, and names the first missing byte. |
| NesProps.ParseSucceedsIff | nes-file.js:6-146 | `parseNES` succeeds exactly on the buffers that `NesSpec.Accepted` describes. |
| NesProps.ReservedNibbleFails | nes-file.js:83 | Under NES 2.0 a reserved nibble in byte 10, or in byte 11 when it exists, makes the whole decode fail with `ReservedSize(15)`. |
| NesProps.DialectByFlags7 | nes-file.js:46-51 | Exactly one dialect results. It is NES 2.0 iff bits 2-3 of byte 7 are `10`, iNES iff they are `00`, and archaic otherwise. |
| NesProps.RomSizes | nes-file.js:21-26 | The PRG and CHR ROM sizes are bytes 4 and 5 in 16 KiB and 8 KiB units. Under NES 2.0 both are extended by 256 times byte 9's low nibble. CHR RAM is flagged iff byte 5 is 0. |
| NesProps.ChrExtensionEqualsPrgExtension | nes-file.js:77-78 | Under NES 2.0 the CHR ROM extension always equals the PRG ROM extension. |
| NesProps.MapperNumber | nes-file.js:33-39 | The mapper is built from the high nibbles of bytes 6 and 7, and is below 256 outside NES 2.0. Under NES 2.0, byte 8's high nibble adds bits 8-11, keeping it below 4096, and the submapper is byte 8's low nibble. |
| NesProps.FlagBits | nes-file.js:28-37 | Mirroring, battery, trainer and four-screen come from bits 0-3 of byte 6. Vs. Unisystem and PlayChoice-10 come from bits 0-1 of byte 7. |
| NesProps.Nes2Bytes | nes-file.js:87-124 | Under NES 2.0 the four RAM sizes are the exponential sizes of the nibbles of bytes 10-11, none reserved, each 0 or 128 bytes to 1 MiB. The TV system, Vs. PPU and mode, extra ROMs and reserved byte come from bytes 12-15. |
| NesProps.InesBytes | nes-file.js:55-67 | Outside NES 2.0, PRG RAM is byte 8 in 8 KiB units. The TV bit and reserved bits come from byte 9. The TV code, PRG RAM bit and bus-conflict bit come from byte 10. |
| NesProps.SegmentLayout | nes-file.js:127-146 | The pieces tile the buffer and the ROMs have exactly their declared sizes. PRG ROM starts at 16, or at 528 after a trainer. The trainer is present iff flagged, and is 512 bytes whenever the buffer has 528 bytes, in particular whenever a ROM follows it. |
| NesProps.BadReadReports | nes-file.js:134-143 | A PRG or CHR bad read happens only after a full NES header, and reports fewer bytes than declared. |
| NesProps.ExponentialSizeInjective | nes-file.js:81-85 | Distinct nibbles other than 15 give distinct RAM sizes. |
| NesProps.ExponentialSizeExamples | nes-file.js:81-85 | Sizes for nibbles 0, 1, 14 and 15 are 0, 128, 1 MiB and an error. |
| NesProps.Lj65 | test.js:9-29 | The lj65 header (one 16 KiB PRG bank, one 8 KiB CHR bank, all flags 0), followed by its 24 KiB of ROM and any trailer, decodes to the field values the test expects. The ROMs and trailer are sliced out unchanged. |
| NesProps.ChrExtensionFromLowNibble | nes-file.js:76-78 | A NES 2.0 header with byte 9 = `0x01` has its CHR ROM grow by 256 bytes, and so does its PRG ROM. |

## Left out

- File reading and the directory walk in `test.js`: they are I/O. The lj65 test
  is modelled by `NesProps.Lj65` with the ROM bytes as a parameter.
- `examples/web.js` and `examples/cli.js`: they are callers that render or print
  the result and are not part of the decoder.
- Memory sharing of `Buffer.slice`: the model's slices are values.
  Only their contents and lengths are modelled.
- Exception classes and message texts: errors are the `ParseError` values.
  `ShortBuffer(offset)` stands for Node's `RangeError` from a read past the end,
  with the offset of the read. For the magic read that is offset 0.
- Object shape: the result is a typed record. It is not a JavaScript object with
  dialect-dependent keys.
  - The `is_nes2_0`, `is_ines` and `is_archaic` flags become the `Dialect`
    variant.
  - The keys set only under one dialect live in that variant's fields.
  - The `mapper` and ROM sizes as updated under NES 2.0 are the values in
    `Common`.
- The format's secondary detection checks (byte 9 sizes against the file
  length, bytes 12-15 zero): the source leaves them as TODOs and does not
  perform them.
- UNIF decoding: the source only detects the magic.
- 32-bit wrap-around of JavaScript's bitwise operators: every operand the
  decoder passes them is below 2^23, so they cannot wrap. The `Bits` operators
  are defined on non-negative integers.
- NesFile.ExponentialSize: requires `n < 16`, as every call site passes a nibble.
- NesProps.BadReadReports: states that `got < want`, not the exact count. The
  count is `NesSpec.SegmentsResult`'s, which `NesFile.DecodeSegments` is proved
  to equal.
