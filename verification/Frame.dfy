/**
 Frame layout shared by the builder and the parser: what a list of datagram requests looks like on the
 wire (src/dll/frame_builder.c), what a reader takes back from it (src/dll/frame_parser.c).
 */
module Frame {
  import opened Endian
  import opened Wrappers
  import opened Fcs

  const ETHERTYPE: u16 := 0x88A4
  const HEADER_SIZE: nat := 16
  const MIN_FRAME_SIZE: nat := 64
  const MAX_FRAME_SIZE: nat := 1518

  datatype DlStatus = Success | Error | InvalidParam

  /** The arguments of ecat_frame_builder_add_datagram; no data means a read request of that length. */
  datatype Request = Request(cmd: byte, idx: byte, address: bv32, data: Option<seq<byte>>, length: u16, more: bool)
  {
    /** The caller supplies at least length bytes. */
    predicate Valid() {
      data.Some? ==> length <= |data.value|
    }

    function Payload(): (bytes: seq<byte>)
      requires Valid()
      ensures |bytes| == length
    {
      if data.Some? then data.value[..length] else Zeros(length)
    }

    function Size(): nat {
      length + 12
    }
  }

  /** ecat_parsed_datagram_t, with the bytes its data pointer reaches. */
  datatype Parsed = Parsed(cmd: byte, idx: byte, address: bv32, data: seq<byte>, length: u16,
                           wkc: u16, more: bool, circulating: bool, irq: u16)

  // ---------- Writing ----------

  function LengthField(length: u16, more: bool): u16 {
    length % 0x800 + if more then 0x8000 else 0
  }

  function DatagramHeader(r: Request): (bytes: seq<byte>)
    ensures |bytes| == 10
  {
    [r.cmd, r.idx] + BytesOfU32(r.address) + BytesOfU16(LengthField(r.length, r.more)) + BytesOfU16(0)
  }

  function EncodeDatagram(r: Request): (bytes: seq<byte>)
    requires r.Valid()
    ensures |bytes| == r.Size()
  {
    DatagramHeader(r) + r.Payload() + BytesOfU16(0)
  }

  predicate AllValid(rs: seq<Request>) {
    forall i :: 0 <= i < |rs| ==> rs[i].Valid()
  }

  function TotalSize(rs: seq<Request>): nat {
    if rs == [] then 0 else TotalSize(rs[..|rs| - 1]) + rs[|rs| - 1].Size()
  }

  function EncodeAll(rs: seq<Request>): (bytes: seq<byte>)
    requires AllValid(rs)
    ensures |bytes| == TotalSize(rs)
  {
    if rs == [] then [] else EncodeAll(rs[..|rs| - 1]) + EncodeDatagram(rs[|rs| - 1])
  }

  function EthernetHeader(dst: seq<byte>, src: seq<byte>): (bytes: seq<byte>)
    requires |dst| == |src| == 6
    ensures |bytes| == 14
  {
    dst + src + BytesOfU16(ETHERTYPE)
  }

  /** Type DLPDU in the top four bits, eleven bits of length. */
  function EcatHeader(dataLength: nat): u16 {
    0x1000 + dataLength % 0x800
  }

  /** Everything the FCS covers. */
  function Body(dst: seq<byte>, src: seq<byte>, rs: seq<Request>): (bytes: seq<byte>)
    requires |dst| == |src| == 6 && AllValid(rs)
    ensures |bytes| == HEADER_SIZE + TotalSize(rs)
  {
    EthernetHeader(dst, src) + BytesOfU16(EcatHeader(TotalSize(rs))) + EncodeAll(rs)
  }

  function Unpadded(dst: seq<byte>, src: seq<byte>, rs: seq<Request>): (bytes: seq<byte>)
    requires |dst| == |src| == 6 && AllValid(rs)
    ensures |bytes| == HEADER_SIZE + TotalSize(rs) + 4
  {
    Body(dst, src, rs) + BytesOfU32(Crc32(Body(dst, src, rs)))
  }

  /** The frame ecat_frame_builder_finalize leaves in the buffer. */
  function FinalFrame(dst: seq<byte>, src: seq<byte>, rs: seq<Request>): (bytes: seq<byte>)
    requires |dst| == |src| == 6 && AllValid(rs)
    ensures |bytes| >= MIN_FRAME_SIZE
    ensures |bytes| == MIN_FRAME_SIZE || |bytes| == HEADER_SIZE + TotalSize(rs) + 4
  {
    var frame := Unpadded(dst, src, rs);
    if |frame| < MIN_FRAME_SIZE then frame + Zeros(MIN_FRAME_SIZE - |frame|) else frame
  }

  // ---------- Reading ----------

  /** The fields of the datagram at offset; the caller guarantees that it lies inside the frame. */
  function LengthAt(frame: seq<byte>, offset: nat): u16
    requires offset + 8 <= |frame|
  {
    ReadU16(frame, offset + 6) % 0x800
  }

  predicate DatagramInside(frame: seq<byte>, offset: nat) {
    offset + 10 <= |frame| && offset + 12 + LengthAt(frame, offset) <= |frame|
  }

  function DatagramAt(frame: seq<byte>, offset: nat): Parsed
    requires DatagramInside(frame, offset)
  {
    var field := ReadU16(frame, offset + 6);
    var length := LengthAt(frame, offset);
    Parsed(frame[offset], frame[offset + 1], ReadU32(frame, offset + 2), frame[offset + 10..offset + 10 + length], length,
           ReadU16(frame, offset + 10 + length), field / 0x8000 == 1, field / 0x4000 % 2 == 1, ReadU16(frame, offset + 8))
  }

  /** What the reader should see of a request. */
  function Expected(r: Request): Parsed
    requires r.Valid()
  {
    Parsed(r.cmd, r.idx, r.address, r.Payload(), r.length, 0, r.more, false, 0)
  }

  lemma ReadU16Inside(frame: seq<byte>, prefix: seq<byte>, part: seq<byte>, suffix: seq<byte>, at: nat)
    requires frame == prefix + part + suffix && at + 2 <= |part|
    ensures ReadU16(frame, |prefix| + at) == ReadU16(part, at)
  {
    assert frame[|prefix| + at] == part[at] && frame[|prefix| + at + 1] == part[at + 1];
  }

  lemma ReadU32Inside(frame: seq<byte>, prefix: seq<byte>, part: seq<byte>, suffix: seq<byte>, at: nat)
    requires frame == prefix + part + suffix && at + 4 <= |part|
    ensures ReadU32(frame, |prefix| + at) == ReadU32(part, at)
  {
    assert frame[|prefix| + at] == part[at] && frame[|prefix| + at + 1] == part[at + 1];
    assert frame[|prefix| + at + 2] == part[at + 2] && frame[|prefix| + at + 3] == part[at + 3];
  }

  lemma HeaderFields(r: Request)
    ensures var h := DatagramHeader(r);
      && h[0] == r.cmd && h[1] == r.idx && ReadU32(h, 2) == r.address
      && ReadU16(h, 6) == LengthField(r.length, r.more) && ReadU16(h, 8) == 0
  {
    var h := DatagramHeader(r);
    ReadU32Inside(h, [r.cmd, r.idx], BytesOfU32(r.address), BytesOfU16(LengthField(r.length, r.more)) + BytesOfU16(0), 0);
    ReadU16Inside(h, [r.cmd, r.idx] + BytesOfU32(r.address), BytesOfU16(LengthField(r.length, r.more)), BytesOfU16(0), 0);
    ReadU16Inside(h, [r.cmd, r.idx] + BytesOfU32(r.address) + BytesOfU16(LengthField(r.length, r.more)), BytesOfU16(0), [], 0);
  }

  lemma HeaderInFrame(frame: seq<byte>, prefix: seq<byte>, r: Request, rest: seq<byte>, at: nat)
    requires frame == prefix + DatagramHeader(r) + rest && at == |prefix|
    ensures frame[at] == r.cmd && frame[at + 1] == r.idx && ReadU32(frame, at + 2) == r.address
    ensures ReadU16(frame, at + 6) == LengthField(r.length, r.more) && ReadU16(frame, at + 8) == 0
  {
    var h := DatagramHeader(r);
    HeaderFields(r);
    ReadU32Inside(frame, prefix, h, rest, 2);
    ReadU16Inside(frame, prefix, h, rest, 6);
    ReadU16Inside(frame, prefix, h, rest, 8);
    assert frame[at] == h[0] && frame[at + 1] == h[1];
  }

  lemma PayloadInFrame(frame: seq<byte>, before: seq<byte>, payload: seq<byte>, suffix: seq<byte>, at: nat)
    requires frame == before + payload + BytesOfU16(0) + suffix && at == |before|
    ensures frame[at..at + |payload|] == payload && ReadU16(frame, at + |payload|) == 0
  {
    ReadU16Inside(frame, before + payload, BytesOfU16(0), suffix, 0);
  }

  lemma LengthFieldRoundTrip(length: u16, more: bool)
    requires length < 0x800
    ensures var f := LengthField(length, more); f % 0x800 == length && (f / 0x8000 == 1) == more && f / 0x4000 % 2 == 0
  {
  }

  lemma Regroup(frame: seq<byte>, prefix: seq<byte>, h: seq<byte>, p: seq<byte>, z: seq<byte>, suffix: seq<byte>)
    requires frame == prefix + (h + p + z) + suffix
    ensures frame == prefix + h + (p + z + suffix)
    ensures frame == (prefix + h) + p + z + suffix
  {
  }

  lemma FieldsMakeDatagram(frame: seq<byte>, r: Request, at: nat)
    requires r.Valid() && r.length < 0x800 && at + r.Size() <= |frame|
    requires frame[at] == r.cmd && frame[at + 1] == r.idx && ReadU32(frame, at + 2) == r.address
    requires ReadU16(frame, at + 6) == LengthField(r.length, r.more) && ReadU16(frame, at + 8) == 0
    requires frame[at + 10..at + 10 + r.length] == r.Payload() && ReadU16(frame, at + 10 + r.length) == 0
    ensures DatagramInside(frame, at) && DatagramAt(frame, at) == Expected(r)
  {
    LengthFieldRoundTrip(r.length, r.more);
  }

  /** A datagram written anywhere in a frame is read back field by field. */
  lemma DatagramRoundTrip(frame: seq<byte>, prefix: seq<byte>, r: Request, suffix: seq<byte>)
    requires r.Valid() && r.length < 0x800
    requires frame == prefix + EncodeDatagram(r) + suffix
    ensures DatagramInside(frame, |prefix|) && DatagramAt(frame, |prefix|) == Expected(r)
  {
    var h := DatagramHeader(r);
    Regroup(frame, prefix, h, r.Payload(), BytesOfU16(0), suffix);
    HeaderInFrame(frame, prefix, r, r.Payload() + BytesOfU16(0) + suffix, |prefix|);
    PayloadInFrame(frame, prefix + h, r.Payload(), suffix, |prefix| + 10);
    FieldsMakeDatagram(frame, r, |prefix|);
  }

  // ---------- Byte by byte ----------

  /** What the caller asked to be sent: the given bytes, or zeros for a read request. */
  predicate Carried(bytes: seq<byte>, r: Request) {
    |bytes| == r.length
    && forall i :: 0 <= i < |bytes| ==> if r.data.Some? then i < |r.data.value| && bytes[i] == r.data.value[i] else bytes[i] == 0
  }

  /** A datagram on the wire: command, index, little-endian address, length with the more flag, no IRQ, the bytes, no WKC. */
  predicate Spells(bytes: seq<byte>, r: Request) {
    && |bytes| == r.length + 12
    && bytes[0] == r.cmd && bytes[1] == r.idx && ReadU32(bytes, 2) == r.address
    && bytes[6] as int + 256 * (bytes[7] as int) == r.length % 2048 + (if r.more then 32768 else 0)
    && bytes[8] == bytes[9] == 0
    && Carried(bytes[10..10 + r.length], r)
    && bytes[10 + r.length] == bytes[11 + r.length] == 0
  }

  lemma EncodedIsSpelled(r: Request)
    requires r.Valid()
    ensures Spells(EncodeDatagram(r), r)
  {
    var h, z := DatagramHeader(r), BytesOfU16(0);
    var bytes := EncodeDatagram(r);
    assert bytes == [] + h + (r.Payload() + z);
    HeaderInFrame(bytes, [], r, r.Payload() + z, 0);
    PayloadInFrame(bytes, h, r.Payload(), [], 10);
    ZeroWord(bytes[8], bytes[9]);
    ZeroWord(bytes[10 + r.length], bytes[11 + r.length]);
    LengthBytes(bytes[6], bytes[7], r.length, r.more);
    CarriesPayload(r);
    hide BytesOfU16, BytesOfU32, LengthField, DatagramHeader;
  }

  lemma CarriesPayload(r: Request)
    requires r.Valid()
    ensures Carried(r.Payload(), r)
  {
  }

  lemma ZeroWord(low: byte, high: byte)
    ensures low as int + 256 * (high as int) == 0 <==> low == high == 0
  {
  }

  lemma LengthBytes(low: byte, high: byte, length: u16, more: bool)
    requires low as int + 256 * (high as int) == LengthField(length, more)
    ensures low as int + 256 * (high as int) == length % 2048 + (if more then 32768 else 0)
  {
  }

  /** A datagram as a slave sends it back, with any working counter, IRQ and circulating flag. */
  function EncodeParsed(p: Parsed): (bytes: seq<byte>)
    requires |p.data| == p.length < 0x800
    ensures |bytes| == p.length + 12
  {
    [p.cmd, p.idx] + BytesOfU32(p.address)
    + BytesOfU16(p.length + (if p.circulating then 0x4000 else 0) + (if p.more then 0x8000 else 0))
    + BytesOfU16(p.irq) + p.data + BytesOfU16(p.wkc)
  }

  lemma AnsweredFields(p: Parsed, field: u16)
    requires |p.data| == p.length < 0x800
    requires field == p.length + (if p.circulating then 0x4000 else 0) + (if p.more then 0x8000 else 0)
    ensures var bytes := EncodeParsed(p);
      && bytes[0] == p.cmd && bytes[1] == p.idx && ReadU32(bytes, 2) == p.address
      && ReadU16(bytes, 6) == field && ReadU16(bytes, 8) == p.irq
      && bytes[10..10 + p.length] == p.data && ReadU16(bytes, 10 + p.length) == p.wkc
  {
    var bytes := EncodeParsed(p);
    var address, length, irq, wkc := BytesOfU32(p.address), BytesOfU16(field), BytesOfU16(p.irq), BytesOfU16(p.wkc);
    assert bytes == [p.cmd, p.idx] + address + length + irq + p.data + wkc;
    hide *;
    FieldsOfParts(bytes, [p.cmd, p.idx], address, length, irq, p.data, wkc);
  }

  lemma FieldsOfParts(bytes: seq<byte>, ids: seq<byte>, address: seq<byte>, length: seq<byte>, irq: seq<byte>,
                      data: seq<byte>, wkc: seq<byte>)
    requires |ids| == |length| == |irq| == |wkc| == 2 && |address| == 4
    requires bytes == ids + address + length + irq + data + wkc
    ensures bytes[0] == ids[0] && bytes[1] == ids[1] && ReadU32(bytes, 2) == ReadU32(address, 0)
    ensures ReadU16(bytes, 6) == ReadU16(length, 0) && ReadU16(bytes, 8) == ReadU16(irq, 0)
    ensures bytes[10..10 + |data|] == data && ReadU16(bytes, 10 + |data|) == ReadU16(wkc, 0)
  {
    assert bytes[2..6] == address && bytes[6..8] == length && bytes[8..10] == irq && bytes[10 + |data|..] == wkc;
    hide ReadU32;
    ReadU32Inside(bytes, ids, address, length + irq + data + wkc, 0);
    assert bytes[6] == length[0] && bytes[7] == length[1] && bytes[8] == irq[0] && bytes[9] == irq[1];
    assert bytes[10 + |data|] == wkc[0] && bytes[11 + |data|] == wkc[1];
  }

  /** Whatever the slaves made of a datagram is read field by field, wherever it lies. */
  lemma AnsweredRoundTrip(frame: seq<byte>, prefix: seq<byte>, p: Parsed, suffix: seq<byte>)
    requires |p.data| == p.length < 0x800 && frame == prefix + EncodeParsed(p) + suffix
    ensures DatagramInside(frame, |prefix|) && DatagramAt(frame, |prefix|) == p
  {
    hide *;
    var bytes := EncodeParsed(p);
    var field: u16 := p.length + (if p.circulating then 0x4000 else 0) + (if p.more then 0x8000 else 0);
    AnsweredFields(p, field);
    FieldParts(field, p.length, p.circulating, p.more);
    FieldsInFrame(frame, prefix, bytes, suffix, p.length);
    FieldsMakeAnswer(frame, |prefix|, p, field);
  }

  lemma FieldsMakeAnswer(frame: seq<byte>, at: nat, p: Parsed, field: u16)
    requires at + p.length + 12 <= |frame|
    requires field % 0x800 == p.length && (field / 0x8000 == 1) == p.more && (field / 0x4000 % 2 == 1) == p.circulating
    requires frame[at] == p.cmd && frame[at + 1] == p.idx && ReadU32(frame, at + 2) == p.address
    requires ReadU16(frame, at + 6) == field && ReadU16(frame, at + 8) == p.irq
    requires frame[at + 10..at + 10 + p.length] == p.data && ReadU16(frame, at + 10 + p.length) == p.wkc
    ensures DatagramInside(frame, at) && DatagramAt(frame, at) == p
  {
    hide ReadU16, ReadU32;
  }

  lemma FieldsInFrame(frame: seq<byte>, prefix: seq<byte>, bytes: seq<byte>, suffix: seq<byte>, n: nat)
    requires frame == prefix + bytes + suffix && |bytes| == n + 12
    ensures var at := |prefix|;
      && at + n + 12 <= |frame|
      && frame[at] == bytes[0] && frame[at + 1] == bytes[1] && ReadU32(frame, at + 2) == ReadU32(bytes, 2)
      && ReadU16(frame, at + 6) == ReadU16(bytes, 6) && ReadU16(frame, at + 8) == ReadU16(bytes, 8)
      && frame[at + 10..at + 10 + n] == bytes[10..10 + n] && ReadU16(frame, at + 10 + n) == ReadU16(bytes, 10 + n)
  {
    ReadU32Inside(frame, prefix, bytes, suffix, 2);
    ReadU16Inside(frame, prefix, bytes, suffix, 6);
    ReadU16Inside(frame, prefix, bytes, suffix, 8);
    ReadU16Inside(frame, prefix, bytes, suffix, 10 + n);
    hide ReadU16, ReadU32;
    assert frame[|prefix|] == bytes[0] && frame[|prefix| + 1] == bytes[1];
  }

  lemma FieldParts(field: u16, length: nat, circulating: bool, more: bool)
    requires length < 0x800 && field == length + (if circulating then 0x4000 else 0) + (if more then 0x8000 else 0)
    ensures field % 0x800 == length && (field / 0x8000 == 1) == more && (field / 0x4000 % 2 == 1) == circulating
  {
  }
}
