// The wire header of ojls_proto.h: constants, packing, unpacking.
module Proto {
  import opened Bytes

  const MAGIC: U32 := 0x4F4A_4C53
  const VERSION: U16 := 1
  const HDR_LEN: nat := 20

  const ENCODE_REQ: Byte := 1
  const ENCODE_RESP: Byte := 2
  const STREAM_REQ: Byte := 3
  const STREAM_RESP: Byte := 4

  const ST_OK: Byte := 0
  const ST_BAD_MAGIC: Byte := 1
  const ST_BAD_VERSION: Byte := 2
  const ST_BAD_TYPE: Byte := 3
  const ST_BAD_DIMS: Byte := 4
  const ST_BAD_BITNESS: Byte := 5
  const ST_SIZE_MISMATCH: Byte := 6
  const ST_TOO_LARGE: Byte := 7
  const ST_HW_ERROR: Byte := 8
  const ST_HW_TIMEOUT: Byte := 9
  const ST_BAD_READY: Byte := 10

  datatype Hdr = Hdr(
    magic: U32, version: U16, kind: Byte, status: Byte,
    width: U16, height: U16, bitness: Byte, readyPct: Byte, payloadLen: U32)

  function BytesPerPixel(bitness: Byte): nat {
    if bitness > 8 then 2 else 1
  }

  // Layout: 0 magic, 4 version, 6 type, 7 status, 8 width, 10 height, 12 bitness, 13 ready, 14 zero, 16 length.
  function PackHdr(h: Hdr): (b: seq<Byte>)
    ensures |b| == HDR_LEN
  {
    PutU32(h.magic) + PutU16(h.version) + [h.kind, h.status] + PutU16(h.width) + PutU16(h.height)
    + [h.bitness, h.readyPct, 0, 0] + PutU32(h.payloadLen)
  }

  function UnpackHdr(b: seq<Byte>): Hdr
    requires |b| == HDR_LEN
  {
    Hdr(GetU32(b[0..4]), GetU16(b[4..6]), b[6], b[7], GetU16(b[8..10]), GetU16(b[10..12]),
        b[12], b[13], GetU32(b[16..20]))
  }

  /** Every header survives the wire unchanged. */
  lemma UnpackPack(h: Hdr)
    ensures UnpackHdr(PackHdr(h)) == h
  {
    var b := PackHdr(h);
    assert b[0..4] == PutU32(h.magic) && b[4..6] == PutU16(h.version);
    assert b[8..10] == PutU16(h.width) && b[10..12] == PutU16(h.height) && b[16..20] == PutU32(h.payloadLen);
    RoundTripU32(h.magic, b[0..4]);
    RoundTripU16(h.version, b[4..6]);
    RoundTripU16(h.width, b[8..10]);
    RoundTripU16(h.height, b[10..12]);
    RoundTripU32(h.payloadLen, b[16..20]);
  }

  /** Where each field lies, in little-endian order: the layout that both ends and the sweep share. */
  lemma Layout(h: Hdr, b: seq<Byte>)
    requires b == PackHdr(h) || (|b| == HDR_LEN && h == UnpackHdr(b))
    ensures |b| == 20
    ensures h.magic as int == b[0] as int + 0x100 * b[1] as int + 0x1_0000 * b[2] as int + 0x100_0000 * b[3] as int
    ensures h.version as int == b[4] as int + 0x100 * b[5] as int && h.kind == b[6] && h.status == b[7]
    ensures h.width as int == b[8] as int + 0x100 * b[9] as int
    ensures h.height as int == b[10] as int + 0x100 * b[11] as int
    ensures h.bitness == b[12] && h.readyPct == b[13]
    ensures h.payloadLen as int ==
            b[16] as int + 0x100 * b[17] as int + 0x1_0000 * b[18] as int + 0x100_0000 * b[19] as int
  {
    hide PackHdr;
    if b == PackHdr(h) {
      UnpackPack(h);
    }
  }

  /** A received header is reproduced byte for byte exactly when its two reserved bytes are zero. */
  lemma PackUnpack(b: seq<Byte>)
    requires |b| == HDR_LEN
    ensures PackHdr(UnpackHdr(b)) == b <==> b[14] == 0 && b[15] == 0
  {
    var p := PackHdr(UnpackHdr(b));
    assert p[14] == 0 && p[15] == 0;
    RoundTripU32(0, b[0..4]);
    RoundTripU16(0, b[4..6]);
    RoundTripU16(0, b[8..10]);
    RoundTripU16(0, b[10..12]);
    RoundTripU32(0, b[16..20]);
    assert p == b[0..4] + b[4..6] + [b[6], b[7]] + b[8..10] + b[10..12] + [b[12], b[13], 0, 0] + b[16..20];
    if b[14] == 0 && b[15] == 0 {
      assert b == b[0..4] + b[4..6] + [b[6], b[7]] + b[8..10] + b[10..12] + [b[12], b[13], 0, 0] + b[16..20];
    }
  }

  lemma Fields(b: seq<Byte>, h: Hdr)
    requires |b| == HDR_LEN
    requires b[0..4] == PutU32(h.magic) && b[4..6] == PutU16(h.version) && b[6] == h.kind && b[7] == h.status
    requires b[8..10] == PutU16(h.width) && b[10..12] == PutU16(h.height) && b[12] == h.bitness && b[13] == h.readyPct
    requires b[14] == 0 && b[15] == 0 && b[16..20] == PutU32(h.payloadLen)
    ensures b == PackHdr(h)
  {
    hide PutU16, PutU32;
    assert b == b[0..4] + b[4..6] + [b[6], b[7]] + b[8..10] + b[10..12] + [b[12], b[13], b[14], b[15]] + b[16..20];
  }

  method PutU16At(buf: array<Byte>, off: nat, v: U16)
    requires off + 2 <= buf.Length
    modifies buf
    ensures buf[off..off + 2] == PutU16(v)
    ensures forall i | 0 <= i < buf.Length && !(off <= i < off + 2) :: buf[i] == old(buf[i])
  {
    buf[off] := v % 0x100;
    buf[off + 1] := v / 0x100;
  }

  method PutU32At(buf: array<Byte>, off: nat, v: U32)
    requires off + 4 <= buf.Length
    modifies buf
    ensures buf[off..off + 4] == PutU32(v)
    ensures forall i | 0 <= i < buf.Length && !(off <= i < off + 4) :: buf[i] == old(buf[i])
  {
    buf[off] := v % 0x100;
    buf[off + 1] := v / 0x100 % 0x100;
    buf[off + 2] := v / 0x1_0000 % 0x100;
    buf[off + 3] := v / 0x100_0000;
  }

  method HdrPack(buf: array<Byte>, h: Hdr)
    requires buf.Length == HDR_LEN
    modifies buf
    ensures buf[..] == PackHdr(h)
  {
    hide PutU16, PutU32;
    PutU32At(buf, 0, h.magic);
    PutU16At(buf, 4, h.version);
    buf[6] := h.kind;
    buf[7] := h.status;
    PutU16At(buf, 8, h.width);
    PutU16At(buf, 10, h.height);
    buf[12] := h.bitness;
    buf[13] := h.readyPct;
    buf[14] := 0;
    buf[15] := 0;
    PutU32At(buf, 16, h.payloadLen);
    assert buf[0..4] == PutU32(h.magic) && buf[4..6] == PutU16(h.version);
    assert buf[8..10] == PutU16(h.width) && buf[10..12] == PutU16(h.height);
    Fields(buf[..], h);
  }
}
