/** The frame builder of src/dll/frame_builder.c, writing its caller's buffer in place. */
module FrameBuilder {
  import opened Endian
  import opened Fcs
  import opened Frame

  /** Lines 79-102: the bytes of one datagram. */
  method WriteDatagram(buffer: array<byte>, at: nat, r: Request)
    requires r.Valid() && at + r.Size() <= buffer.Length
    modifies buffer
    ensures buffer[..] == Splice(old(buffer[..]), at, EncodeDatagram(r))
  {
    hide BytesOfU16, BytesOfU32, LengthField, Splice;
    ghost var before := buffer[..];
    var field := LengthField(r.length, r.more);
    CopyInto(buffer, at, [r.cmd, r.idx]);
    WriteU32(buffer, at + 2, r.address);
    SpliceAppend(before, at, [r.cmd, r.idx], BytesOfU32(r.address));
    WriteU16(buffer, at + 6, field);
    SpliceAppend(before, at, [r.cmd, r.idx] + BytesOfU32(r.address), BytesOfU16(field));
    WriteU16(buffer, at + 8, 0);
    SpliceAppend(before, at, [r.cmd, r.idx] + BytesOfU32(r.address) + BytesOfU16(field), BytesOfU16(0));
    CopyInto(buffer, at + 10, r.Payload());
    SpliceAppend(before, at, DatagramHeader(r), r.Payload());
    WriteU16(buffer, at + 10 + r.length, 0);
    SpliceAppend(before, at, DatagramHeader(r) + r.Payload(), BytesOfU16(0));
  }

  /** Lines 41-47: addresses, EtherType and a provisional EtherCAT header. */
  method WriteHeader(buffer: array<byte>, dst: seq<byte>, src: seq<byte>)
    requires |dst| == |src| == 6 && buffer.Length >= HEADER_SIZE
    modifies buffer
    ensures buffer[..] == Splice(old(buffer[..]), 0, EthernetHeader(dst, src) + BytesOfU16(0x1000))
  {
    hide BytesOfU16, Splice;
    ghost var before := buffer[..];
    CopyInto(buffer, 0, dst);
    CopyInto(buffer, 6, src);
    SpliceAppend(before, 0, dst, src);
    WriteU16(buffer, 12, ETHERTYPE);
    SpliceAppend(before, 0, dst + src, BytesOfU16(ETHERTYPE));
    WriteU16(buffer, 14, 0x1000);
    SpliceAppend(before, 0, EthernetHeader(dst, src), BytesOfU16(0x1000));
  }

  /** Lines 126-143: declared length, FCS, padding. */
  method SealFrame(buffer: array<byte>, offset: u16, ghost dst: seq<byte>, ghost src: seq<byte>, ghost rs: seq<Request>)
    returns (frameLength: u16)
    requires |dst| == |src| == 6 && AllValid(rs)
    requires offset == HEADER_SIZE + TotalSize(rs) && offset + 4 <= 0xFFFF
    requires offset + 4 <= buffer.Length && MIN_FRAME_SIZE <= buffer.Length
    requires buffer[..14] == EthernetHeader(dst, src) && buffer[HEADER_SIZE..offset] == EncodeAll(rs)
    modifies buffer
    ensures frameLength == if offset + 4 < MIN_FRAME_SIZE then MIN_FRAME_SIZE else offset + 4
    ensures buffer[..frameLength] == FinalFrame(dst, src, rs)
    ensures buffer[frameLength..] == old(buffer[frameLength..])
    ensures buffer[..14] == EthernetHeader(dst, src) && buffer[HEADER_SIZE..offset] == EncodeAll(rs)
  {
    hide EthernetHeader, EncodeAll, TotalSize, BytesOfU16, BytesOfU32, Crc32, Splice;
    var dataLength := offset - HEADER_SIZE;
    ghost var original := buffer[..];
    WriteU16(buffer, 14, EcatHeader(dataLength));
    HeaderSpliced(original, EthernetHeader(dst, src), BytesOfU16(EcatHeader(dataLength)), EncodeAll(rs), offset);
    var fcs := CalculateFcs(buffer, offset);
    ghost var before := buffer[..];
    WriteU32(buffer, offset, fcs);
    SpliceEnds(before, offset, BytesOfU32(fcs));
    assert before[..offset] == Body(dst, src, rs);
    SameTail(before, original, offset, offset + 4);
    frameLength := offset + 4;
    assert buffer[frameLength..] == original[frameLength..];
    if frameLength < MIN_FRAME_SIZE {
      before := buffer[..];
      CopyInto(buffer, frameLength, Zeros(MIN_FRAME_SIZE - frameLength));
      SpliceEnds(before, frameLength, Zeros(MIN_FRAME_SIZE - frameLength));
      SameTail(before, original, frameLength, MIN_FRAME_SIZE);
      frameLength := MIN_FRAME_SIZE;
    }
    BodySlices(buffer[..], EthernetHeader(dst, src), BytesOfU16(EcatHeader(dataLength)), EncodeAll(rs), offset);
  }

  lemma SameTail(a: seq<byte>, b: seq<byte>, i: nat, j: nat)
    requires i <= j <= |a| == |b| && a[i..] == b[i..]
    ensures a[j..] == b[j..]
  {
    assert a[j..] == a[i..][j - i..] && b[j..] == b[i..][j - i..];
  }

  lemma HeaderSpliced(s: seq<byte>, eth: seq<byte>, length: seq<byte>, all: seq<byte>, offset: nat)
    requires |eth| == 14 && |length| == 2 && HEADER_SIZE + |all| == offset <= |s|
    requires s[..14] == eth && s[HEADER_SIZE..offset] == all
    ensures Splice(s, 14, length)[..offset] == eth + length + all
    ensures Splice(s, 14, length)[offset..] == s[offset..]
  {
  }

  lemma BodySlices(s: seq<byte>, eth: seq<byte>, length: seq<byte>, all: seq<byte>, offset: nat)
    requires |eth| == 14 && |length| == 2 && HEADER_SIZE + |all| == offset <= |s|
    requires s[..offset] == eth + length + all
    ensures s[..14] == eth && s[HEADER_SIZE..offset] == all
  {
    assert s[..14] == s[..offset][..14] && s[HEADER_SIZE..offset] == s[..offset][HEADER_SIZE..];
  }

  lemma EncodeAllAppend(rs: seq<Request>, r: Request)
    requires AllValid(rs) && r.Valid()
    ensures AllValid(rs + [r]) && EncodeAll(rs + [r]) == EncodeAll(rs) + EncodeDatagram(r)
    ensures TotalSize(rs + [r]) == TotalSize(rs) + r.Size()
  {
    assert (rs + [r])[..|rs|] == rs;
  }

  // ---------- The fit check, in the 16 bits of datagram_size ----------

  /** The longest data for which header, data and WKC fit a uint16_t: 2^16 - 13. */
  const SAFE_LENGTH := 65523

  /** datagram_size */
  function DatagramSize(length: u16): u16 {
    (10 + length + 2) % 0x1_0000
  }

  /** Line 72: datagram and FCS fit, by the computed size. */
  predicate PassesFitCheck(offset: u16, length: u16, bufferSize: u16) {
    offset + DatagramSize(length) + 4 <= bufferSize
  }

  /** Whatever the offset and the buffer, a datagram that passes ends with its FCS inside the buffer. */
  ghost predicate NeverPastBuffer(length: u16) {
    forall offset: u16, bufferSize: u16 :: PassesFitCheck(offset, length, bufferSize) ==> offset + 10 + length + 2 + 4 <= bufferSize
  }

  /** Below that, a datagram is accepted exactly if it ends with the FCS inside the buffer, to the last byte. */
  lemma AcceptedIffFits(offset: u16, length: u16, bufferSize: u16)
    requires length <= 65523
    ensures PassesFitCheck(offset, length, bufferSize) <==> offset + 10 + length + 2 + 4 <= bufferSize
  {
  }

  /** A frame of the usual size takes every datagram whose size wraps, and the data alone is longer than the buffer. */
  lemma WrappedSizePasses(length: u16)
    requires length > SAFE_LENGTH
    ensures PassesFitCheck(HEADER_SIZE, length, MAX_FRAME_SIZE) && HEADER_SIZE + 10 + length > MAX_FRAME_SIZE
  {
  }

  /** The fit check keeps every accepted datagram and its FCS inside the buffer exactly up to a length of 65523. */
  lemma NeverPastBufferIff(length: u16)
    ensures NeverPastBuffer(length) <==> length <= SAFE_LENGTH
  {
    if length > SAFE_LENGTH {
      WrappedSizePasses(length);
      assert PassesFitCheck(HEADER_SIZE, length, MAX_FRAME_SIZE);
    }
  }

  class Builder {
    var buffer: array<byte>
    var bufferSize: u16
    var currentOffset: u16
    var datagramCount: int
    /** The requests accepted since the last init, and the addresses of the frame. */
    ghost var requests: seq<Request>
    ghost var dst: seq<byte>
    ghost var src: seq<byte>

    /** The buffer holds the Ethernet header and, after the sixteen header bytes, the accepted requests. */
    ghost predicate Valid()
      reads this, buffer
    {
      && |dst| == |src| == 6 && AllValid(requests)
      && MIN_FRAME_SIZE <= bufferSize <= buffer.Length
      && currentOffset == HEADER_SIZE + TotalSize(requests)
      && currentOffset + 4 <= bufferSize
      && datagramCount == |requests| % 0x100
      && buffer[..14] == EthernetHeader(dst, src)
      && buffer[HEADER_SIZE..currentOffset] == EncodeAll(requests)
    }

    constructor ()
      ensures fresh(buffer)
    {
      buffer := new byte[0];
      bufferSize, currentOffset, datagramCount := 0, 0, 0;
      requests, dst, src := [], [], [];
    }

    /** ecat_frame_builder_init */
    method Init(target: array<byte>, size: u16, srcMac: seq<byte>, dstMac: seq<byte>) returns (status: DlStatus)
      requires size <= target.Length && |srcMac| == |dstMac| == 6
      modifies this, target
      ensures status == if size < 64 then InvalidParam else Success
      ensures status.InvalidParam? ==> unchanged(this) && unchanged(target)
      ensures status.Success? ==> Valid() && requests == [] && buffer == target && bufferSize == size
      ensures status.Success? ==> dst == dstMac && src == srcMac
    {
      hide EthernetHeader, Splice, BytesOfU16;
      if size < MIN_FRAME_SIZE {
        return InvalidParam;
      }
      buffer, bufferSize, currentOffset, datagramCount := target, size, HEADER_SIZE, 0;
      requests, dst, src := [], dstMac, srcMac;
      ghost var header, before := EthernetHeader(dstMac, srcMac) + BytesOfU16(0x1000), target[..];
      WriteHeader(target, dstMac, srcMac);
      SpliceEnds(before, 0, header);
      assert target[..14] == target[..HEADER_SIZE][..14];
      status := Success;
    }

    /** ecat_frame_builder_add_datagram; a call whose wrapped size passes has no defined outcome and is left out. */
    method AddDatagram(r: Request) returns (status: DlStatus)
      requires Valid() && r.Valid()
      requires PassesFitCheck(currentOffset, r.length, bufferSize) ==> r.length <= SAFE_LENGTH
      modifies this, buffer
      ensures Valid() && buffer == old(buffer) && bufferSize == old(bufferSize) && dst == old(dst) && src == old(src)
      ensures status == if PassesFitCheck(old(currentOffset), r.length, bufferSize) then Success else Error
      ensures requests == if status.Success? then old(requests) + [r] else old(requests)
      ensures status.Success? ==> currentOffset == old(currentOffset) + r.length + 12
                                  && Spells(buffer[old(currentOffset)..currentOffset], r)
      ensures status.Error? ==> unchanged(this) && unchanged(buffer)
    {
      hide EthernetHeader, EncodeAll, EncodeDatagram, TotalSize, Spells;
      var datagramSize := DatagramSize(r.length);
      if currentOffset + datagramSize + 4 > bufferSize {
        return Error;
      }
      assert datagramSize == r.Size();
      WriteDatagram(buffer, currentOffset, r);
      EncodedIsSpelled(r);
      assert buffer[currentOffset..currentOffset + datagramSize] == EncodeDatagram(r);
      EncodeAllAppend(requests, r);
      currentOffset := currentOffset + datagramSize;
      datagramCount := (datagramCount + 1) % 0x100;
      requests := requests + [r];
      status := Success;
    }

    /** ecat_frame_builder_finalize */
    method Finalize() returns (status: DlStatus, frameLength: u16)
      requires Valid()
      modifies buffer
      ensures Valid()
      ensures status == if |requests| % 256 == 0 then Error else Success
      ensures status.Error? ==> unchanged(buffer)
      ensures status.Success? ==> frameLength <= bufferSize && buffer[..frameLength] == FinalFrame(dst, src, requests)
      ensures status.Success? ==> buffer[frameLength..] == old(buffer[frameLength..])
    {
      hide EthernetHeader, EncodeAll, FinalFrame;
      if datagramCount == 0 {
        return Error, 0;
      }
      frameLength := SealFrame(buffer, currentOffset, dst, src, requests);
      status := Success;
    }
  }
}
