/** The frame parser of src/dll/frame_parser.c: a cursor over a received frame. */
module FrameParser {
  import opened Wrappers
  import opened Endian
  import opened Frame
  import opened FrameRoundTrip

  class Parser {
    var buffer: array<byte>
    var bufferSize: u16
    var currentOffset: nat
    var datagramCount: int
    var ecatDataLength: nat

    ghost predicate Valid()
      reads this
    {
      MIN_FRAME_SIZE <= bufferSize <= buffer.Length
    }

    ghost function FrameBytes(): (frame: seq<byte>)
      requires Valid()
      reads this, buffer
      ensures |frame| == bufferSize
    {
      buffer[..bufferSize]
    }

    /** What is still to be read, by the reference reader. */
    ghost function Remaining(): ReadResult
      requires Valid()
      reads this, buffer
    {
      ReadFrom(FrameBytes(), currentOffset, HEADER_SIZE + ecatDataLength)
    }

    constructor ()
    {
      buffer := new byte[0];
      bufferSize, currentOffset, datagramCount, ecatDataLength := 0, 0, 0, 0;
    }

    /** ecat_frame_parser_init */
    method Init(source: array<byte>, size: u16) returns (status: DlStatus)
      requires size <= source.Length
      modifies this
      ensures status == if size < 64 then InvalidParam else Success
      ensures status.InvalidParam? ==> unchanged(this)
      ensures status.Success? ==> Valid() && buffer == source && bufferSize == size
      ensures status.Success? ==> currentOffset == HEADER_SIZE && datagramCount == 0 && ecatDataLength == 0
    {
      if size < MIN_FRAME_SIZE {
        return InvalidParam;
      }
      buffer, bufferSize, currentOffset, datagramCount, ecatDataLength := source, size, HEADER_SIZE, 0, 0;
      status := Success;
    }

    /** ecat_frame_parser_validate; right after init, what it leaves to read is what the reference reader reads. */
    method Validate() returns (status: DlStatus)
      requires Valid()
      modifies this`ecatDataLength
      ensures Valid()
      ensures status == if Validates(FrameBytes()) then Success else Error
      ensures status.Success? ==> ecatDataLength == DeclaredLength(FrameBytes())
      ensures currentOffset == HEADER_SIZE ==>
                ReadAll(FrameBytes()) == if status.Success? then Remaining() else Rejected
    {
      var frame := buffer[..bufferSize];
      if ReadU16(frame, 12) != ETHERTYPE {
        return Error;
      }
      var header := ReadU16(frame, 14);
      if header / 0x1000 != 1 {
        return Error;
      }
      ecatDataLength := header % 0x800;
      if HEADER_SIZE + ecatDataLength + 4 > bufferSize {
        return Error;
      }
      status := Success;
    }

    /** ecat_frame_parser_has_more */
    predicate HasMore()
      reads this
    {
      currentOffset < HEADER_SIZE + ecatDataLength
    }

    /** ecat_frame_parser_next_datagram, on a next datagram that lies in memory; the frame may be declared shorter. */
    method NextDatagram() returns (status: DlStatus, datagram: Option<Parsed>)
      requires Valid() && (HasMore() ==> DatagramInside(buffer[..], currentOffset))
      modifies this`currentOffset, this`datagramCount
      ensures Valid() && currentOffset >= old(currentOffset)
      ensures old(HasMore()) ==> status == Success && datagram == Some(DatagramAt(buffer[..], old(currentOffset)))
                                 && currentOffset == old(currentOffset) + 12 + datagram.value.length
                                 && datagramCount == (old(datagramCount) + 1) % 0x100
      ensures old(HasMore()) && old(Remaining()).Datagrams? ==>
                Remaining().Datagrams? && old(Remaining()) == Datagrams([datagram.value] + Remaining().list)
      ensures !old(HasMore()) ==> status == Error && datagram == None && unchanged(this)
      ensures !old(HasMore()) ==> Remaining() == Datagrams([])
    {
      hide ReadU16, ReadU32;
      if currentOffset >= HEADER_SIZE + ecatDataLength {
        return Error, None;
      }
      ghost var before := currentOffset;
      var d := DatagramAt(buffer[..], currentOffset);
      SameDatagram(buffer[..], bufferSize, before);
      currentOffset := currentOffset + 12 + d.length;
      datagramCount := (datagramCount + 1) % 0x100;
      return Success, Some(d);
    }
  }

  lemma SameWord(memory: seq<byte>, size: nat, at: nat)
    requires at + 2 <= size <= |memory|
    ensures ReadU16(memory[..size], at) == ReadU16(memory, at)
  {
  }

  lemma SameDoubleWord(memory: seq<byte>, size: nat, at: nat)
    requires at + 4 <= size <= |memory|
    ensures ReadU32(memory[..size], at) == ReadU32(memory, at)
  {
  }

  /** A datagram inside the frame is the same read from the memory around it. */
  lemma SameDatagram(memory: seq<byte>, size: nat, at: nat)
    requires size <= |memory|
    ensures DatagramInside(memory[..size], at) ==>
      DatagramInside(memory, at) && DatagramAt(memory, at) == DatagramAt(memory[..size], at)
      && LengthAt(memory, at) == LengthAt(memory[..size], at)
  {
    hide ReadU16, ReadU32;
    if DatagramInside(memory[..size], at) {
      SameDoubleWord(memory, size, at + 2);
      SameWord(memory, size, at + 6);
      SameWord(memory, size, at + 8);
      SameWord(memory, size, at + 10 + LengthAt(memory, at));
      var length := LengthAt(memory, at);
      assert memory[..size][at + 10..at + 10 + length] == memory[at + 10..at + 10 + length];
    }
  }

  /** What a receiver does with a frame: init, validate, and next_datagram for as long as has_more says so. */
  method ReadDatagrams(source: array<byte>, size: u16) returns (result: ReadResult)
    requires size <= source.Length && !ReadAll(source[..size]).OutOfBounds?
    ensures result == ReadAll(source[..size])
  {
    hide ReadFrom, DatagramAt;
    var parser := new Parser();
    var status := parser.Init(source, size);
    if status != Success {
      return Rejected;
    }
    status := parser.Validate();
    if status != Success {
      return Rejected;
    }
    var list: seq<Parsed> := [];
    assert [] + parser.Remaining().list == parser.Remaining().list;
    while parser.HasMore()
      invariant parser.Valid() && parser.buffer == source && parser.bufferSize == size
      invariant parser.Remaining().Datagrams? && ReadAll(source[..size]) == Datagrams(list + parser.Remaining().list)
      decreases HEADER_SIZE + parser.ecatDataLength - parser.currentOffset
    {
      DatagramsInside(source[..size], parser.currentOffset, HEADER_SIZE + parser.ecatDataLength);
      SameDatagram(source[..], size, parser.currentOffset);
      var datagram;
      status, datagram := parser.NextDatagram();
      list := list + [datagram.value];
    }
    NothingLeft(source[..size], parser.currentOffset, HEADER_SIZE + parser.ecatDataLength);
    assert list + [] == list;
    result := Datagrams(list);
  }

  lemma DatagramsInside(frame: seq<byte>, offset: nat, end: nat)
    requires offset < end && ReadFrom(frame, offset, end).Datagrams?
    ensures DatagramInside(frame, offset)
  {
  }

  lemma NothingLeft(frame: seq<byte>, offset: nat, end: nat)
    requires offset >= end
    ensures ReadFrom(frame, offset, end) == Datagrams([])
  {
  }

  /** The parser, run over a finished frame, hands out exactly the requests in order, with the caller's bytes. */
  method ReadFinishedFrame(source: array<byte>, size: u16, ghost dst: seq<byte>, ghost src: seq<byte>, ghost rs: seq<Request>)
    returns (list: seq<Parsed>)
    requires size <= source.Length && |dst| == |src| == 6 && AllValid(rs) && Readable(rs)
    requires source[..size] == FinalFrame(dst, src, rs)
    ensures |list| == |rs| && forall i :: 0 <= i < |rs| ==> ReadsAs(list[i], rs[i])
  {
    hide ReadAll, FinalFrame, Readable, ReadsAs;
    DataComesBack(dst, src, rs);
    var result := ReadDatagrams(source, size);
    list := result.list;
  }
}
