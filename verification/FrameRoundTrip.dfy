/** The reader undoes the writer: whole frames, and the frame check sequence of a finished frame. */
module FrameRoundTrip {
  import opened Endian
  import opened Fcs
  import opened Frame

  /** ecat_frame_parser_validate: EtherType, protocol type and declared length. */
  predicate Validates(frame: seq<byte>)
    requires |frame| >= MIN_FRAME_SIZE
  {
    && ReadU16(frame, 12) == ETHERTYPE
    && ReadU16(frame, 14) / 0x1000 == 1
    && HEADER_SIZE + DeclaredLength(frame) + 4 <= |frame|
  }

  function DeclaredLength(frame: seq<byte>): nat
    requires |frame| >= MIN_FRAME_SIZE
  {
    ReadU16(frame, 14) % 0x800
  }

  datatype ReadResult = Rejected | OutOfBounds | Datagrams(list: seq<Parsed>)

  /** Call ecat_frame_parser_next_datagram for as long as ecat_frame_parser_has_more holds. */
  function ReadFrom(frame: seq<byte>, offset: nat, end: nat): (r: ReadResult)
    ensures !r.Rejected?
    decreases |frame| + 12 - offset
  {
    if offset >= end then Datagrams([])
    else if !DatagramInside(frame, offset) then OutOfBounds
    else
      match ReadFrom(frame, offset + 12 + LengthAt(frame, offset), end)
      case Datagrams(rest) => Datagrams([DatagramAt(frame, offset)] + rest)
      case other => other
  }

  /** init, validate, then every datagram. */
  function ReadAll(frame: seq<byte>): ReadResult {
    if |frame| < MIN_FRAME_SIZE || !Validates(frame) then Rejected
    else ReadFrom(frame, HEADER_SIZE, HEADER_SIZE + DeclaredLength(frame))
  }

  function ExpectedAll(rs: seq<Request>): (list: seq<Parsed>)
    requires AllValid(rs)
    ensures |list| == |rs| && forall i :: 0 <= i < |rs| ==> list[i] == Expected(rs[i])
  {
    seq(|rs|, i requires 0 <= i < |rs| => Expected(rs[i]))
  }

  ghost predicate LengthsFit(rs: seq<Request>) {
    forall i :: 0 <= i < |rs| ==> rs[i].length < 0x800
  }

  /** Every length fits its 11 bits, and the truncated total still covers the start of the last datagram. */
  ghost predicate Readable(rs: seq<Request>) {
    && |rs| > 0
    && LengthsFit(rs)
    && TotalSize(rs[..|rs| - 1]) < TotalSize(rs) % 0x800
  }

  // ---------- Where each datagram starts ----------

  lemma {:induction false} PrefixSizes(rs: seq<Request>, k: nat)
    requires k < |rs|
    ensures TotalSize(rs[..k + 1]) == TotalSize(rs[..k]) + rs[k].Size()
    ensures TotalSize(rs[..k + 1]) <= TotalSize(rs)
    decreases |rs| - k
  {
    assert rs[..k + 1][..k] == rs[..k];
    if k + 1 == |rs| {
      assert rs[..k + 1] == rs;
    } else {
      PrefixSizes(rs, k + 1);
    }
  }

  lemma {:induction false} EncodeAllSplits(rs: seq<Request>, k: nat) returns (suffix: seq<byte>)
    requires k < |rs| && AllValid(rs)
    ensures EncodeAll(rs) == EncodeAll(rs[..k]) + EncodeDatagram(rs[k]) + suffix
    decreases |rs|
  {
    hide EncodeDatagram;
    var n := |rs| - 1;
    if k == n {
      suffix := [];
    } else {
      var inner := EncodeAllSplits(rs[..n], k);
      assert rs[..n][..k] == rs[..k];
      suffix := inner + EncodeDatagram(rs[n]);
      RegroupTail(EncodeAll(rs[..k]), EncodeDatagram(rs[k]), inner, EncodeDatagram(rs[n]));
    }
  }

  lemma RegroupTail(a: seq<byte>, b: seq<byte>, c: seq<byte>, d: seq<byte>)
    ensures (a + b + c) + d == a + b + (c + d)
  {
  }

  lemma RegroupFrame(h: seq<byte>, a: seq<byte>, b: seq<byte>, c: seq<byte>, d: seq<byte>)
    ensures h + (a + b + c) + d == (h + a) + b + (c + d)
  {
  }

  /** A frame that starts with sixteen header bytes and the encoded requests. */
  ghost predicate Carries(frame: seq<byte>, rs: seq<Request>) {
    && AllValid(rs)
    && HEADER_SIZE + TotalSize(rs) <= |frame|
    && frame[HEADER_SIZE..HEADER_SIZE + TotalSize(rs)] == EncodeAll(rs)
  }

  lemma DatagramInFrame(frame: seq<byte>, rs: seq<Request>, k: nat)
    requires Carries(frame, rs) && k < |rs| && rs[k].length < 0x800
    ensures var at := HEADER_SIZE + TotalSize(rs[..k]);
      DatagramInside(frame, at) && DatagramAt(frame, at) == Expected(rs[k])
      && at + 12 + LengthAt(frame, at) == HEADER_SIZE + TotalSize(rs[..k + 1])
  {
    hide EncodeDatagram, EncodeAll;
    var suffix := EncodeAllSplits(rs, k);
    var h, e := frame[..HEADER_SIZE], HEADER_SIZE + TotalSize(rs);
    assert frame == h + EncodeAll(rs) + frame[e..];
    RegroupFrame(h, EncodeAll(rs[..k]), EncodeDatagram(rs[k]), suffix, frame[e..]);
    DatagramRoundTrip(frame, h + EncodeAll(rs[..k]), rs[k], suffix + frame[e..]);
    PrefixSizes(rs, k);
  }

  // ---------- Reading the datagrams back ----------

  lemma ReadStep(frame: seq<byte>, at: nat, end: nat, p: Parsed, next: nat)
    requires at < end && DatagramInside(frame, at) && DatagramAt(frame, at) == p
    requires at + 12 + LengthAt(frame, at) == next
    ensures ReadFrom(frame, next, end).Datagrams? ==>
      ReadFrom(frame, at, end) == Datagrams([p] + ReadFrom(frame, next, end).list)
  {
    hide DatagramInside, DatagramAt, LengthAt;
  }

  ghost function Start(rs: seq<Request>, k: nat): nat
    requires k <= |rs|
  {
    HEADER_SIZE + TotalSize(rs[..k])
  }

  lemma ReadStepAt(frame: seq<byte>, rs: seq<Request>, k: nat, end: nat)
    requires Carries(frame, rs) && k < |rs| && rs[k].length < 0x800 && Start(rs, k) < end
    ensures ReadFrom(frame, Start(rs, k + 1), end).Datagrams? ==>
      ReadFrom(frame, Start(rs, k), end) == Datagrams([Expected(rs[k])] + ReadFrom(frame, Start(rs, k + 1), end).list)
  {
    DatagramInFrame(frame, rs, k);
    ReadStep(frame, Start(rs, k), end, Expected(rs[k]), Start(rs, k + 1));
  }

  lemma ReadStops(frame: seq<byte>, at: nat, end: nat)
    requires end <= at
    ensures ReadFrom(frame, at, end) == Datagrams([])
  {
  }

  lemma ExpectedSplits(rs: seq<Request>, k: nat)
    requires AllValid(rs) && k < |rs|
    ensures AllValid(rs[k..]) && AllValid(rs[k + 1..])
    ensures ExpectedAll(rs[k..]) == [Expected(rs[k])] + ExpectedAll(rs[k + 1..])
  {
  }

  lemma {:induction false} ReadsRest(frame: seq<byte>, rs: seq<Request>, k: nat, end: nat)
    requires Carries(frame, rs) && k <= |rs| && 0 < |rs|
    requires LengthsFit(rs)
    requires HEADER_SIZE + TotalSize(rs[..|rs| - 1]) < end <= HEADER_SIZE + TotalSize(rs)
    ensures ReadFrom(frame, Start(rs, k), end) == Datagrams(ExpectedAll(rs[k..]))
    decreases |rs| - k
  {
    if k == |rs| {
      assert rs[..k] == rs;
      ReadStops(frame, Start(rs, k), end);
    } else {
      ReadsRest(frame, rs, k + 1, end);
      MonotoneSizes(rs, k, |rs| - 1);
      ReadStepAt(frame, rs, k, end);
      ExpectedSplits(rs, k);
    }
  }

  lemma {:induction false} MonotoneSizes(rs: seq<Request>, i: nat, j: nat)
    requires i <= j <= |rs|
    ensures TotalSize(rs[..i]) <= TotalSize(rs[..j])
    decreases j - i
  {
    if i < j {
      PrefixSizes(rs, j - 1);
      MonotoneSizes(rs, i, j - 1);
    }
  }

  lemma {:induction false} StopsEarly(frame: seq<byte>, rs: seq<Request>, k: nat, end: nat)
    requires Carries(frame, rs) && k < |rs| && LengthsFit(rs)
    requires end <= Start(rs, |rs| - 1)
    ensures ReadFrom(frame, Start(rs, k), end).Datagrams?
    ensures |ReadFrom(frame, Start(rs, k), end).list| < |rs| - k
    decreases |rs| - k
  {
    if Start(rs, k) < end {
      assert k != |rs| - 1;
      StopsEarly(frame, rs, k + 1, end);
      ReadStepAt(frame, rs, k, end);
    } else {
      ReadStops(frame, Start(rs, k), end);
    }
  }

  lemma {:induction false} ReadLengthsFit(frame: seq<byte>, offset: nat, end: nat)
    ensures var r := ReadFrom(frame, offset, end);
      r.Datagrams? ==> forall i :: 0 <= i < |r.list| ==> r.list[i].length < 0x800
    decreases |frame| + 12 - offset
  {
    if offset < end && DatagramInside(frame, offset) {
      ReadLengthsFit(frame, offset + 12 + LengthAt(frame, offset), end);
    }
  }

  // ---------- The finished frame ----------

  lemma TwoFields(frame: seq<byte>, macs: seq<byte>, type': seq<byte>, length: seq<byte>, rest: seq<byte>)
    requires |macs| == 12 && |type'| == |length| == 2 && frame == macs + type' + length + rest
    ensures ReadU16(frame, 12) == ReadU16(type', 0) && ReadU16(frame, 14) == ReadU16(length, 0)
  {
    assert frame == macs + type' + (length + rest);
    ReadU16Inside(frame, macs, type', length + rest, 0);
    ReadU16Inside(frame, macs + type', length, rest, 0);
  }

  lemma Middle(frame: seq<byte>, head: seq<byte>, middle: seq<byte>, tail: seq<byte>)
    requires frame == head + middle + tail
    ensures frame[|head|..|head| + |middle|] == middle
  {
  }

  /** A finished frame is the header, the datagrams, and at least four more bytes. */
  lemma FinalFrameParts(dst: seq<byte>, src: seq<byte>, rs: seq<Request>) returns (tail: seq<byte>)
    requires |dst| == |src| == 6 && AllValid(rs)
    ensures FinalFrame(dst, src, rs) == Body(dst, src, rs) + tail && |tail| >= 4
  {
    var frame := Unpadded(dst, src, rs);
    var fcs := BytesOfU32(Crc32(Body(dst, src, rs)));
    tail := if |frame| < MIN_FRAME_SIZE then fcs + Zeros(MIN_FRAME_SIZE - |frame|) else fcs;
  }

  ghost predicate WellShaped(frame: seq<byte>, rs: seq<Request>) {
    && Carries(frame, rs)
    && |frame| >= MIN_FRAME_SIZE && HEADER_SIZE + TotalSize(rs) + 4 <= |frame|
    && ReadU16(frame, 12) == ETHERTYPE
    && ReadU16(frame, 14) == EcatHeader(TotalSize(rs))
  }

  lemma BodyParts(dst: seq<byte>, src: seq<byte>, rs: seq<Request>, macs: seq<byte>, type': seq<byte>, length: seq<byte>)
    requires |dst| == |src| == 6 && AllValid(rs)
    requires macs == dst + src && type' == BytesOfU16(ETHERTYPE) && length == BytesOfU16(EcatHeader(TotalSize(rs)))
    ensures Body(dst, src, rs) == macs + type' + length + EncodeAll(rs)
  {
  }

  lemma PartsAreWellShaped(frame: seq<byte>, rs: seq<Request>, macs: seq<byte>, type': seq<byte>, length: seq<byte>,
                           all: seq<byte>, tail: seq<byte>)
    requires AllValid(rs) && |macs| == 12 && |tail| >= 4 && all == EncodeAll(rs)
    requires |type'| == |length| == 2 && ReadU16(type', 0) == ETHERTYPE && ReadU16(length, 0) == EcatHeader(TotalSize(rs))
    requires frame == macs + type' + length + all + tail && |frame| >= MIN_FRAME_SIZE
    ensures WellShaped(frame, rs)
  {
    hide EncodeAll, EcatHeader;
    assert frame == macs + type' + length + (all + tail);
    TwoFields(frame, macs, type', length, all + tail);
    Middle(frame, macs + type' + length, all, tail);
  }

  lemma FinalFrameShape(dst: seq<byte>, src: seq<byte>, rs: seq<Request>)
    requires |dst| == |src| == 6 && AllValid(rs)
    ensures WellShaped(FinalFrame(dst, src, rs), rs)
  {
    var tail := FinalFrameParts(dst, src, rs);
    BodyParts(dst, src, rs, dst + src, BytesOfU16(ETHERTYPE), BytesOfU16(EcatHeader(TotalSize(rs))));
    PartsAreWellShaped(FinalFrame(dst, src, rs), rs, dst + src, BytesOfU16(ETHERTYPE),
                       BytesOfU16(EcatHeader(TotalSize(rs))), EncodeAll(rs), tail);
  }

  lemma EcatHeaderFields(n: nat)
    ensures EcatHeader(n) / 0x1000 == 1 && EcatHeader(n) % 0x800 == n % 0x800 < 0x800
  {
  }

  lemma ReadAllStarts(frame: seq<byte>, header: u16, n: nat)
    requires |frame| >= MIN_FRAME_SIZE && ReadU16(frame, 12) == ETHERTYPE && ReadU16(frame, 14) == header
    requires header / 0x1000 == 1 && header % 0x800 == n && HEADER_SIZE + n + 4 <= |frame|
    ensures ReadAll(frame) == ReadFrom(frame, HEADER_SIZE, HEADER_SIZE + n)
  {
    hide ReadFrom;
  }

  lemma WellShapedRoundTrip(frame: seq<byte>, rs: seq<Request>)
    requires WellShaped(frame, rs) && |rs| > 0
    ensures ReadAll(frame) == Datagrams(ExpectedAll(rs)) <==> Readable(rs)
  {
    hide EncodeAll, ReadFrom;
    var end := HEADER_SIZE + TotalSize(rs) % 0x800;
    EcatHeaderFields(TotalSize(rs));
    ReadAllStarts(frame, EcatHeader(TotalSize(rs)), TotalSize(rs) % 0x800);
    assert rs[..0] == [] && rs[0..] == rs && Start(rs, 0) == HEADER_SIZE;
    if Readable(rs) {
      ReadsRest(frame, rs, 0, end);
    } else if i :| 0 <= i < |rs| && rs[i].length >= 0x800 {
      ReadLengthsFit(frame, HEADER_SIZE, end);
      assert ExpectedAll(rs)[i].length == rs[i].length;
    } else {
      StopsEarly(frame, rs, 0, end);
    }
  }

  /** Reading a finished frame gives back exactly the requests, in order, if and only if they are readable. */
  lemma FrameRoundTrip(dst: seq<byte>, src: seq<byte>, rs: seq<Request>)
    requires |dst| == |src| == 6 && AllValid(rs) && |rs| > 0
    ensures ReadAll(FinalFrame(dst, src, rs)) == Datagrams(ExpectedAll(rs)) <==> Readable(rs)
  {
    FinalFrameShape(dst, src, rs);
    WellShapedRoundTrip(FinalFrame(dst, src, rs), rs);
  }

  /** Frames up to the Ethernet maximum are always readable. */
  lemma FramesUpToMaximumReadable(rs: seq<Request>)
    requires AllValid(rs) && |rs| > 0 && HEADER_SIZE + TotalSize(rs) + 4 <= MAX_FRAME_SIZE
    ensures Readable(rs)
  {
    forall i | 0 <= i < |rs|
      ensures rs[i].length < 0x800
    {
      PrefixSizes(rs, i);
    }
    PrefixSizes(rs, |rs| - 1);
    assert rs[..|rs|] == rs;
  }

  /** The parser's cursor after k calls of ecat_frame_parser_next_datagram. */
  function CursorAfter(frame: seq<byte>, k: nat): nat {
    if k == 0 then HEADER_SIZE
    else
      var at := CursorAfter(frame, k - 1);
      if DatagramInside(frame, at) then at + 12 + LengthAt(frame, at) else at
  }

  lemma {:induction false} CursorIsStart(frame: seq<byte>, rs: seq<Request>, k: nat)
    requires Carries(frame, rs) && LengthsFit(rs) && k <= |rs|
    ensures CursorAfter(frame, k) == Start(rs, k)
    decreases k
  {
    hide Carries, DatagramInside, DatagramAt, LengthAt, Start;
    if k == 0 {
      StartOfFirst(rs);
    } else {
      CursorIsStart(frame, rs, k - 1);
      NextStart(frame, rs, k - 1);
    }
  }

  lemma StartOfFirst(rs: seq<Request>)
    ensures Start(rs, 0) == HEADER_SIZE
  {
  }

  lemma NextStart(frame: seq<byte>, rs: seq<Request>, k: nat)
    requires Carries(frame, rs) && LengthsFit(rs) && k < |rs|
    ensures DatagramInside(frame, Start(rs, k)) && Start(rs, k) + 12 + LengthAt(frame, Start(rs, k)) == Start(rs, k + 1)
  {
    hide Carries, DatagramInside, DatagramAt, LengthAt;
    DatagramInFrame(frame, rs, k);
  }

  /** On a finished frame ecat_frame_parser_has_more is true before each datagram and false exactly after the last. */
  lemma HasMoreUntilLast(dst: seq<byte>, src: seq<byte>, rs: seq<Request>, k: nat)
    requires |dst| == |src| == 6 && AllValid(rs) && Readable(rs) && k <= |rs|
    ensures var frame := FinalFrame(dst, src, rs);
      CursorAfter(frame, k) < HEADER_SIZE + DeclaredLength(frame) <==> k < |rs|
  {
    var frame := FinalFrame(dst, src, rs);
    hide FinalFrame, EcatHeader, CursorAfter, Carries, TotalSize;
    FinalFrameShape(dst, src, rs);
    EcatHeaderFields(TotalSize(rs));
    CursorIsStart(frame, rs, k);
    StartsBelow(rs, k);
  }

  lemma StartsBelow(rs: seq<Request>, k: nat)
    requires Readable(rs) && k <= |rs|
    ensures Start(rs, k) < HEADER_SIZE + TotalSize(rs) % 0x800 <==> k < |rs|
  {
    if k < |rs| {
      MonotoneSizes(rs, k, |rs| - 1);
    } else {
      assert rs[..k] == rs;
    }
  }

  /** ecat_verify_fcs accepts a finished frame exactly when no padding was needed. */
  lemma FinalFrameFcs(dst: seq<byte>, src: seq<byte>, rs: seq<Request>)
    requires |dst| == |src| == 6 && AllValid(rs) && |rs| > 0
    ensures FcsHolds(FinalFrame(dst, src, rs)) <==> HEADER_SIZE + TotalSize(rs) + 4 >= MIN_FRAME_SIZE
  {
    var body := Body(dst, src, rs);
    var frame := Unpadded(dst, src, rs);
    FcsHoldsMeans(body, BytesOfU32(Crc32(body)));
    if |frame| < MIN_FRAME_SIZE {
      PrefixSizes(rs, 0);
      PaddingBreaksFcs(frame, MIN_FRAME_SIZE - |frame|);
    }
  }

  // ---------- Byte by byte ----------

  /** What the caller of the builder asked for, as the caller of the parser sees it. */
  predicate ReadsAs(p: Parsed, r: Request) {
    && p.cmd == r.cmd && p.idx == r.idx && p.address == r.address && p.length == r.length && Carried(p.data, r)
    && p.wkc == 0 && p.more == r.more && !p.circulating && p.irq == 0
  }

  /** Every datagram of a readable frame comes back with the bytes that were given for it, or zeros for a read request. */
  lemma DataComesBack(dst: seq<byte>, src: seq<byte>, rs: seq<Request>)
    requires |dst| == |src| == 6 && AllValid(rs) && Readable(rs)
    ensures var r := ReadAll(FinalFrame(dst, src, rs));
      r.Datagrams? && |r.list| == |rs| && forall i :: 0 <= i < |rs| ==> ReadsAs(r.list[i], rs[i])
  {
    FrameRoundTrip(dst, src, rs);
    hide ReadAll, FinalFrame;
    forall i | 0 <= i < |rs|
      ensures ReadsAs(ExpectedAll(rs)[i], rs[i])
    {
      CarriesPayload(rs[i]);
    }
  }

  /** The finished frame: addresses, EtherType 0x88A4, type 1 with eleven bits of length, the datagrams, the FCS of all
      that, and zeros up to 64 bytes. */
  lemma FinalFrameBytes(dst: seq<byte>, src: seq<byte>, rs: seq<Request>)
    requires |dst| == |src| == 6 && AllValid(rs)
    ensures var frame, end := FinalFrame(dst, src, rs), 16 + TotalSize(rs);
      && |frame| == (if end + 4 < 64 then 64 else end + 4)
      && frame[..6] == dst && frame[6..12] == src && frame[12] == 0xA4 && frame[13] == 0x88
      && frame[14] as int + 256 * (frame[15] as int) == 4096 + TotalSize(rs) % 2048
      && frame[16..end] == EncodeAll(rs)
      && ReadU32(frame, end) == Crc32(frame[..end])
      && forall i :: end + 4 <= i < |frame| ==> frame[i] == 0
  {
    hide *;
    var body, end := Body(dst, src, rs), 16 + TotalSize(rs);
    var fcs, type', length := BytesOfU32(Crc32(body)), BytesOfU16(ETHERTYPE), BytesOfU16(EcatHeader(TotalSize(rs)));
    var padding := FinalFrameIs(dst, src, rs, body, fcs);
    BodyIs(dst, src, rs, type', length);
    TypeBytes();
    HeaderIs(TotalSize(rs));
    FinalParts(FinalFrame(dst, src, rs), dst, src, type', length, EncodeAll(rs), fcs, padding);
  }

  lemma FinalFrameIs(dst: seq<byte>, src: seq<byte>, rs: seq<Request>, body: seq<byte>, fcs: seq<byte>) returns (padding: seq<byte>)
    requires |dst| == |src| == 6 && AllValid(rs)
    requires body == Body(dst, src, rs) && fcs == BytesOfU32(Crc32(body))
    ensures FinalFrame(dst, src, rs) == body + fcs + padding
    ensures |padding| == (if |body| + 4 < 64 then 60 - |body| else 0) && forall i :: 0 <= i < |padding| ==> padding[i] == 0
  {
    padding := if |body| + 4 < 64 then Zeros(60 - |body|) else [];
    hide Body, BytesOfU32, Crc32;
  }

  lemma BodyIs(dst: seq<byte>, src: seq<byte>, rs: seq<Request>, type': seq<byte>, length: seq<byte>)
    requires |dst| == |src| == 6 && AllValid(rs)
    requires type' == BytesOfU16(ETHERTYPE) && length == BytesOfU16(EcatHeader(TotalSize(rs)))
    ensures Body(dst, src, rs) == dst + src + type' + length + EncodeAll(rs)
  {
    hide BytesOfU16, EcatHeader, EncodeAll, TotalSize;
  }

  lemma TypeBytes()
    ensures BytesOfU16(ETHERTYPE)[0] == 0xA4 && BytesOfU16(ETHERTYPE)[1] == 0x88
  {
    LeastSignificantFirst(ETHERTYPE);
    hide BytesOfU16;
  }

  lemma HeaderIs(n: nat)
    ensures var bytes := BytesOfU16(EcatHeader(n)); bytes[0] as int + 256 * (bytes[1] as int) == 4096 + n % 2048
  {
    LeastSignificantFirst(EcatHeader(n));
    hide BytesOfU16;
  }

  lemma FinalParts(frame: seq<byte>, dst: seq<byte>, src: seq<byte>, type': seq<byte>, length: seq<byte>, all: seq<byte>,
                   fcs: seq<byte>, padding: seq<byte>)
    requires |dst| == |src| == 6 && |type'| == |length| == 2 && |fcs| == 4
    requires frame == (dst + src + type' + length + all) + fcs + padding
    ensures var end := 16 + |all|;
      && frame[..6] == dst && frame[6..12] == src && frame[12] == type'[0] && frame[13] == type'[1]
      && frame[14] == length[0] && frame[15] == length[1] && frame[16..end] == all
      && frame[..end] == dst + src + type' + length + all && ReadU32(frame, end) == ReadU32(fcs, 0)
      && |frame| == end + 4 + |padding| && frame[end + 4..] == padding
  {
    var body := dst + src + type' + length + all;
    assert frame[..|body|] == body && frame[|body| + 4..] == padding;
    ReadU32Inside(frame, body, fcs, padding, 0);
    hide ReadU32;
  }

  /** The reader refuses exactly the frames below 64 bytes, of another EtherType or type, or whose declared length leaves no
      room for the FCS. */
  lemma RejectedIff(frame: seq<byte>)
    ensures ReadAll(frame) == Rejected <==>
      || |frame| < 64
      || frame[12] != 0xA4 || frame[13] != 0x88 || frame[15] as int / 16 != 1
      || 16 + frame[14] as int + 256 * (frame[15] as int % 8) + 4 > |frame|
  {
    if |frame| >= 64 {
      HeaderWord(frame[14] as int, frame[15] as int);
      TypeWord(frame[12], frame[13]);
    }
    hide ReadFrom;
  }

  lemma HeaderWord(low: nat, high: nat)
    requires low < 256 && high < 256
    ensures (low + 256 * high) / 0x1000 == high / 16 && (low + 256 * high) % 0x800 == low + 256 * (high % 8)
  {
  }

  lemma TypeWord(low: byte, high: byte)
    ensures low as int + 256 * (high as int) == 0x88A4 <==> low == 0xA4 && high == 0x88
  {
    assert low as int + 256 * (high as int) == 0x88A4 ==> high as int == 0x88;
  }
}
