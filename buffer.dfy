/** Node's `Buffer` as pluggit.js uses it: 16-bit holding registers written
    little-endian into a byte buffer, and little-endian unsigned reads from it. */
module Buffer {

  type Byte = x: int | 0 <= x < 0x100

  /** A Modbus holding register: sixteen bits. */
  type Register = x: int | 0 <= x < 0x1_0000

  /** The bytes of `writeUInt16LE(response[i], 2·i)` for every register in turn:
      register `i` lands low byte first at offsets `2·i` and `2·i + 1`. */
  function Pack(response: seq<Register>): (buf: seq<Byte>)
    ensures |buf| == 2 * |response|
  {
    seq(2 * |response|, k requires 0 <= k < 2 * |response| =>
      if k % 2 == 0 then response[k / 2] % 0x100 else response[k / 2] / 0x100)
  }

  /** `readUInt16LE(off)`. */
  function UInt16LE(buf: seq<Byte>, off: nat): (v: nat)
    requires off + 2 <= |buf|
    ensures v < 0x1_0000
  {
    buf[off] as int + 0x100 * buf[off + 1] as int
  }

  /** `readUInt32LE(off)`. */
  function UInt32LE(buf: seq<Byte>, off: nat): (v: nat)
    requires off + 4 <= |buf|
    ensures v < 0x1_0000_0000
    ensures v == UInt16LE(buf, off) + 0x1_0000 * UInt16LE(buf, off + 2)
  {
    buf[off] as int + 0x100 * buf[off + 1] as int + 0x1_0000 * buf[off + 2] as int + 0x100_0000 * buf[off + 3] as int
  }

  /** JavaScript's ToInt32 on an unsigned 32-bit value: the same bits read as
      two's complement. */
  function ToInt32(v: nat): (r: int)
    requires v < 0x1_0000_0000
    ensures -0x8000_0000 <= r < 0x8000_0000
    ensures (v - r) % 0x1_0000_0000 == 0
  {
    if v < 0x8000_0000 then v else v - 0x1_0000_0000
  }

  /** The registers a buffer holds, read back as `readUInt16LE(2·i)`. */
  function Unpack(buf: seq<Byte>): (response: seq<Register>)
    requires |buf| % 2 == 0
    ensures |response| == |buf| / 2
  {
    seq(|buf| / 2, i requires 0 <= i < |buf| / 2 => UInt16LE(buf, 2 * i))
  }

  /** Reading `UInt16LE` at `2·i` of the packed buffer gives back register `i`. */
  lemma PackedRegister(response: seq<Register>, i: nat)
    requires i < |response|
    ensures Pack(response)[2 * i] == response[i] % 0x100 && Pack(response)[2 * i + 1] == response[i] / 0x100
    ensures UInt16LE(Pack(response), 2 * i) == response[i]
  {
    var buf := Pack(response);
    assert buf[2 * i] == response[i] % 0x100;
    assert buf[2 * i + 1] == response[i] / 0x100;
  }

  /** Reading `UInt32LE` at `2·i` combines registers `i` (low) and `i + 1` (high). */
  lemma PackedPair(response: seq<Register>, i: nat)
    requires i + 1 < |response|
    ensures UInt32LE(Pack(response), 2 * i) == response[i] as int + 0x1_0000 * response[i + 1] as int
  {
    PackedRegister(response, i);
    PackedRegister(response, i + 1);
  }

  /** Packing loses nothing: unpacking recovers the registers. */
  lemma UnpackPack(response: seq<Register>)
    ensures Unpack(Pack(response)) == response
  {
    forall i | 0 <= i < |response|
      ensures Unpack(Pack(response))[i] == response[i]
    {
      PackedRegister(response, i);
    }
  }
}
