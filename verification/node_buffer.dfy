/**
 * The part of Node's `Buffer` API the decoder uses: bounds-checked reads
 * that throw a RangeError past the end (here: `None`), and `slice`, which
 * clamps its indices to the buffer instead of failing.
 */
module NodeBuffer {
  import opened Wrappers
  import Bits

  type byte = x: int | 0 <= x < 256

  function Min(a: nat, b: nat): nat {
    if a <= b then a else b
  }

  /** `buf.readUInt8(offset)` */
  function ReadUInt8(buf: seq<byte>, offset: nat): (r: Option<byte>)
    ensures r.Some? <==> offset < |buf|
    ensures r.Some? ==> r.value == buf[offset]
  {
    if offset < |buf| then Some(buf[offset]) else None
  }

  /** `buf.readUInt32BE(offset)`: four bytes, most significant first. */
  function ReadUInt32BE(buf: seq<byte>, offset: nat): (r: Option<nat>)
    ensures r.Some? <==> offset + 4 <= |buf|
    ensures r.Some? ==> r.value < 0x1_0000_0000
    // the word splits back into the four bytes it was read from
    ensures r.Some? ==>
      && r.value / 0x100_0000 == buf[offset]
      && (r.value / 0x1_0000) % 0x100 == buf[offset + 1]
      && (r.value / 0x100) % 0x100 == buf[offset + 2]
      && r.value % 0x100 == buf[offset + 3]
  {
    if offset + 4 <= |buf| then
      var b0: nat, b1: nat, b2: nat, b3: nat := buf[offset], buf[offset + 1], buf[offset + 2], buf[offset + 3];
      WordSplits(b0, b1, b2, b3);
      Some(b0 * 0x100_0000 + b1 * 0x1_0000 + b2 * 0x100 + b3)
    else
      None
  }

  lemma WordSplits(b0: nat, b1: nat, b2: nat, b3: nat)
    requires b0 < 0x100 && b1 < 0x100 && b2 < 0x100 && b3 < 0x100
    ensures var w := b0 * 0x100_0000 + b1 * 0x1_0000 + b2 * 0x100 + b3;
      && w / 0x100_0000 == b0
      && (w / 0x1_0000) % 0x100 == b1
      && (w / 0x100) % 0x100 == b2
      && w % 0x100 == b3
  {
    var w := b0 * 0x100_0000 + b1 * 0x1_0000 + b2 * 0x100 + b3;
    Bits.DivModUnique(w, 0x100_0000, b0, b1 * 0x1_0000 + b2 * 0x100 + b3);
    Bits.DivModUnique(w, 0x1_0000, b0 * 0x100 + b1, b2 * 0x100 + b3);
    Bits.DivModUnique(b0 * 0x100 + b1, 0x100, b0, b1);
    Bits.DivModUnique(w, 0x100, b0 * 0x1_0000 + b1 * 0x100 + b2, b3);
    Bits.DivModUnique(b0 * 0x1_0000 + b1 * 0x100 + b2, 0x100, b0 * 0x100 + b1, b2);
  }

  /** Two words read from four-byte windows are equal exactly when the windows are. */
  lemma ReadUInt32BEInjective(a: seq<byte>, b: seq<byte>)
    requires |a| >= 4 && |b| >= 4
    ensures ReadUInt32BE(a, 0) == ReadUInt32BE(b, 0) <==> a[..4] == b[..4]
  {
    if a[..4] == b[..4] {
      assert a[0] == b[0] && a[1] == b[1] && a[2] == b[2] && a[3] == b[3];
    }
  }

  /**
   * `buf.slice(start, end)`: both indices are clamped to `|buf|`, and the
   * result is empty when the clamped end does not exceed the clamped start.
   */
  function Slice(buf: seq<byte>, start: nat, end: nat): (r: seq<byte>)
    ensures start <= end ==> |r| == Min(end, |buf|) - Min(start, |buf|)
    ensures end <= start ==> r == []
    ensures r == buf[Min(start, |buf|)..Min(start, |buf|) + |r|]
  {
    var s := Min(start, |buf|);
    var e := Min(end, |buf|);
    if e <= s then [] else buf[s..e]
  }

  /** `buf.slice(start)`: everything from the clamped start on. */
  function SliceFrom(buf: seq<byte>, start: nat): (r: seq<byte>)
    ensures |r| == |buf| - Min(start, |buf|)
    ensures buf[..Min(start, |buf|)] + r == buf
  {
    buf[Min(start, |buf|)..]
  }
}
