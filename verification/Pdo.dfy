/** The PDO category decoder of src/master/config.c: headers with a variable number of entries behind each. */
module Pdo {
  import opened Endian
  import opened Wrappers

  const HEADER_SIZE := 8
  const ENTRY_SIZE := 8

  /** config_read_pdos reads the category into a buffer of this size. */
  const CATEGORY_BUFFER := 512

  /** sii_pdo_t */
  datatype Header = Header(index: u16, entryCount: byte, syncManager: byte, dcSync: byte, nameIdx: byte, flags: u16)

  /** A PDO record in the SII: the header and its entries. */
  datatype Record = Record(header: Header, entries: seq<byte>)
  {
    predicate Valid() {
      |entries| == 8 * (header.entryCount as int)
    }
  }

  function EncodeHeader(h: Header): (bytes: seq<byte>)
    ensures |bytes| == 8
  {
    BytesOfU16(h.index) + [h.entryCount, h.syncManager, h.dcSync, h.nameIdx] + BytesOfU16(h.flags)
  }

  function HeaderAt(data: seq<byte>, at: nat): Header
    requires at + HEADER_SIZE <= |data|
  {
    Header(ReadU16(data, at), data[at + 2], data[at + 3], data[at + 4], data[at + 5], ReadU16(data, at + 6))
  }

  /** A record's bytes: its header and its entries. */
  function Head(r: Record): (bytes: seq<byte>)
    ensures |bytes| == HEADER_SIZE + |r.entries|
  {
    EncodeHeader(r.header) + r.entries
  }

  function EncodeAll(records: seq<Record>): seq<byte> {
    if records == [] then [] else Head(records[0]) + EncodeAll(records[1..])
  }

  function RecordSize(h: Header): nat {
    HEADER_SIZE + ENTRY_SIZE * (h.entryCount as int)
  }

  /** The headers found in the bytes, at most room of them; a header cut short ends them. */
  function Decoded(data: seq<byte>, room: nat): (headers: seq<Header>)
    ensures |headers| <= room
    decreases room
  {
    if room == 0 || |data| < HEADER_SIZE then []
    else
      var h := HeaderAt(data, 0);
      [h] + Decoded(From(data, RecordSize(h)), room - 1)
  }

  /** What is left from an offset on, nothing if the offset is beyond the end. */
  function From(data: seq<byte>, offset: nat): seq<byte> {
    if offset <= |data| then data[offset..] else []
  }

  lemma DecodedNext(data: seq<byte>, offset: nat, room: nat)
    requires room > 0 && offset + HEADER_SIZE <= |data|
    ensures var h := HeaderAt(data, offset);
      Decoded(From(data, offset), room) == [h] + Decoded(From(data, offset + RecordSize(h)), room - 1)
  {
    var rest := data[offset..];
    var h := HeaderAt(data, offset);
    assert HeaderAt(rest, 0) == h;
    assert From(rest, RecordSize(h)) == From(data, offset + RecordSize(h));
  }

  /** Lines 426-442: the decoding loop, into the caller's array of max_count records. */
  method DecodePdos(data: seq<byte>, pdos: array<Header>) returns (count: nat)
    requires |data| <= CATEGORY_BUFFER
    modifies pdos
    ensures var headers := Decoded(data, pdos.Length);
      count == |headers| && pdos[..count] == headers && pdos[count..] == old(pdos[count..])
  {
    var offset: nat := 0;
    count := 0;
    ghost var all := Decoded(data, pdos.Length);
    assert From(data, 0) == data;
    hide HeaderAt, From, Decoded;
    while offset < |data| && count < pdos.Length
      invariant 0 <= count <= pdos.Length
      invariant all == pdos[..count] + Decoded(From(data, offset), pdos.Length - count)
      invariant pdos[count..] == old(pdos[..])[count..]
      decreases pdos.Length - count
    {
      if offset + HEADER_SIZE > |data| {
        break;
      }
      DecodedNext(data, offset, pdos.Length - count);
      ghost var before, h := pdos[..count], HeaderAt(data, offset);
      pdos[count] := HeaderAt(data, offset);
      offset := offset + HEADER_SIZE;
      var entryCount := pdos[count].entryCount;
      offset := offset + ENTRY_SIZE * (entryCount as int);
      count := count + 1;
      assert pdos[..count] == before + [h];
      Regroup(before, h, Decoded(From(data, offset), pdos.Length - count));
    }
    ShortRest(data, offset, pdos.Length - count);
  }

  lemma Regroup(before: seq<Header>, h: Header, rest: seq<Header>)
    ensures before + ([h] + rest) == before + [h] + rest
  {
  }

  lemma ShortRest(data: seq<byte>, offset: nat, room: nat)
    requires room == 0 || offset + HEADER_SIZE > |data|
    ensures Decoded(From(data, offset), room) == []
  {
  }

  // ---------- Decoding undoes encoding ----------

  lemma HeaderRoundTrip(h: Header, rest: seq<byte>)
    ensures HeaderAt(EncodeHeader(h) + rest, 0) == h
  {
    var bytes := EncodeHeader(h) + rest;
    var index, flags := BytesOfU16(h.index), BytesOfU16(h.flags);
    hide BytesOfU16;
    assert bytes[0] == index[0] && bytes[1] == index[1] && bytes[6] == flags[0] && bytes[7] == flags[1];
    assert bytes[2] == h.entryCount && bytes[3] == h.syncManager && bytes[4] == h.dcSync && bytes[5] == h.nameIdx;
  }

  /** How many records have their header within the first n bytes. */
  function HeadersWithin(records: seq<Record>, n: int): (k: nat)
    ensures k <= |records|
  {
    if records == [] || n < 8 then 0
    else 1 + HeadersWithin(records[1..], n - 8 - |records[0].entries|)
  }

  function Headers(records: seq<Record>): (headers: seq<Header>)
    ensures |headers| == |records|
  {
    seq(|records|, i requires 0 <= i < |records| => records[i].header)
  }

  lemma HeadersStep(records: seq<Record>, m: nat)
    requires 1 <= m <= |records|
    ensures Headers(records[..m]) == [records[0].header] + Headers(records[1..][..m - 1])
  {
    assert records[..m][0] == records[0] && records[..m][1..] == records[1..][..m - 1];
  }

  /** A cut behind the header leaves the header readable. */
  lemma CutHeader(r: Record, rest: seq<byte>, n: nat)
    requires HEADER_SIZE <= n <= |Head(r)| + |rest|
    ensures HeaderAt((Head(r) + rest)[..n], 0) == r.header
  {
    var data := (Head(r) + rest)[..n];
    var tail := data[HEADER_SIZE..];
    assert data == EncodeHeader(r.header) + tail;
    HeaderRoundTrip(r.header, tail);
  }

  lemma CutRest(head: seq<byte>, rest: seq<byte>, n: nat)
    requires n <= |head| + |rest|
    ensures From((head + rest)[..n], |head|) == if n >= |head| then rest[..n - |head|] else []
  {
  }

  /** The first header is decoded, and the decoding goes on behind its record, if the cut reaches that far. */
  lemma FirstDecoded(r: Record, rest: seq<byte>, n: nat, room: nat)
    requires r.Valid() && room > 0 && HEADER_SIZE <= n <= |Head(r)| + |rest|
    ensures Decoded((Head(r) + rest)[..n], room) == [r.header] + Decoded(if n >= |Head(r)| then rest[..n - |Head(r)|] else [], room - 1)
  {
    assert RecordSize(r.header) == |Head(r)|;
    hide *;
    CutHeader(r, rest, n);
    CutRest(Head(r), rest, n);
    DecodedUnrolled((Head(r) + rest)[..n], room);
  }

  lemma DecodedUnrolled(data: seq<byte>, room: nat)
    requires room > 0 && |data| >= HEADER_SIZE
    ensures var h := HeaderAt(data, 0); Decoded(data, room) == [h] + Decoded(From(data, RecordSize(h)), room - 1)
  {
  }

  lemma NothingDecoded(records: seq<Record>, n: nat, room: nat)
    requires n <= |EncodeAll(records)| && (room == 0 || n < HEADER_SIZE || records == [])
    ensures Decoded(EncodeAll(records)[..n], room) == []
    ensures Headers(records[..Smaller(HeadersWithin(records, n), room)]) == []
  {
  }

  lemma NoMore(records: seq<Record>, n: int, room: nat)
    requires n < 0
    ensures HeadersWithin(records, n) == 0 && Headers(records[..Smaller(HeadersWithin(records, n), room)]) == []
  {
  }

  /** The category cut to its first n bytes decodes to the headers of the records whose header lies within them, as
      many as there is room for, in order; entries cut off do not matter. */
  lemma {:induction false} DecodedAreHeaders(records: seq<Record>, n: nat, room: nat)
    requires (forall i :: 0 <= i < |records| ==> records[i].Valid()) && n <= |EncodeAll(records)|
    ensures Decoded(EncodeAll(records)[..n], room) == Headers(records[..Smaller(HeadersWithin(records, n), room)])
    decreases |records|
  {
    hide Decoded, EncodeAll, Headers, HeadersWithin, Head;
    if room == 0 || n < HEADER_SIZE || records == [] {
      NothingDecoded(records, n, room);
    } else {
      assert records[0].Valid();
      Unroll(records, n);
      var head, rest, k := Head(records[0]), EncodeAll(records[1..]), HeadersWithin(records, n);
      FirstDecoded(records[0], rest, n, room);
      var m := Smaller(k, room);
      HeadersStep(records, m);
      var m' := Smaller(HeadersWithin(records[1..], n - |head|), room - 1);
      assert m == m' + 1;
      if n >= |head| {
        DecodedAreHeaders(records[1..], n - |head|, room - 1);
        assert Decoded(rest[..n - |head|], room - 1) == Headers(records[1..][..m - 1]);
      } else {
        NoMore(records[1..], n - |head|, room - 1);
        ShortDecoded([], room - 1);
        assert Decoded([], room - 1) == Headers(records[1..][..m - 1]);
      }
    }
  }

  lemma Unroll(records: seq<Record>, n: nat)
    requires records != [] && n >= HEADER_SIZE
    ensures EncodeAll(records) == Head(records[0]) + EncodeAll(records[1..])
    ensures HeadersWithin(records, n) == 1 + HeadersWithin(records[1..], n - |Head(records[0])|)
  {
  }

  lemma ShortDecoded(data: seq<byte>, room: nat)
    requires |data| < HEADER_SIZE
    ensures Decoded(data, room) == []
  {
  }

  lemma {:induction false} AllWithin(records: seq<Record>)
    ensures HeadersWithin(records, |EncodeAll(records)|) == |records|
    decreases |records|
  {
    if records != [] {
      AllWithin(records[1..]);
    }
  }

  /** A category that fits is decoded completely. */
  lemma {:induction false} DecodeEncode(records: seq<Record>, room: nat)
    requires (forall i :: 0 <= i < |records| ==> records[i].Valid()) && |records| <= room
    ensures Decoded(EncodeAll(records), room) == Headers(records)
  {
    var bytes := EncodeAll(records);
    AllWithin(records);
    DecodedAreHeaders(records, |bytes|, room);
    assert bytes[..|bytes|] == bytes && records[..|records|] == records;
  }
}
