/** config_read_pdos of src/master/config.c: the PDO category of the EEPROM, decoded into the caller's records. */
module PdoConfig {
  import opened Endian
  import opened Wrappers
  import opened Sii
  import opened SiiCategories
  import Pdo

  const CAT_TXPDO: u16 := 0x32
  const CAT_RXPDO: u16 := 0x33

  function PdoCategory(isTxPdo: bool): u16 {
    if isTxPdo then CAT_TXPDO else CAT_RXPDO
  }

  function ClearBuffer(): (b: seq<byte>)
    ensures |b| == Pdo.CATEGORY_BUFFER
  {
    seq(Pdo.CATEGORY_BUFFER, _ => 0)
  }

  /** What is decoded: nothing if the category could not be read, else the bytes that were read. */
  function PdosRead(rom: Rom, isTxPdo: bool, script: seq<Access>, room: nat): (bool, seq<Pdo.Header>) {
    var (status, n, data) := CategoryRead(rom, PdoCategory(isTxPdo), script, ClearBuffer());
    if status != Success then (false, []) else (true, Pdo.Decoded(data[..n], room))
  }

  /** config_read_pdos; max_count is the length of the array. */
  method ReadPdos(device: Device, isTxPdo: bool, pdos: array<Pdo.Header>) returns (ok: bool, count: nat)
    modifies device, pdos
    ensures var (read, headers) := PdosRead(device.rom, isTxPdo, old(device.script), pdos.Length);
      ok == read && count == |headers| && pdos[..count] == headers && pdos[count..] == old(pdos[count..])
  {
    hide Pdo.Decoded, Walk, WordsRead, WordBytes;
    var buffer := new byte[Pdo.CATEGORY_BUFFER](_ => 0);
    assert buffer[..] == ClearBuffer();
    var status, bytesRead := ReadCategory(device, PdoCategory(isTxPdo), buffer);
    if status != Success {
      return false, 0;
    }
    count := Pdo.DecodePdos(buffer[..bytesRead], pdos);
    ok := true;
  }

  /** From the EEPROM to the records: if the first category of the kind, within the first 256, holds these PDOs and the
      word reads are answered, the headers that lie in its first 512 bytes come out in order, as many as there is room
      for. The 16-bit byte count cuts a category of 32768 words or more. */
  lemma PdosAreRead(rom: Rom, cats: seq<Category>, isTxPdo: bool, records: seq<Pdo.Record>, script: seq<Access>, room: nat)
    requires var kind: u16 := if isTxPdo then 0x32 else 0x33;
      && Encodes(rom, cats) && Answers(WordsNeeded(cats, kind, 512), script)
      && HasCategory(cats, kind) && BytesOf(cats[FirstMatch(cats, kind, 0)].words) == Pdo.EncodeAll(records)
    requires forall i :: 0 <= i < |records| ==> records[i].Valid()
    ensures var n := Smaller(|Pdo.EncodeAll(records)| % 0x1_0000, 512);
      PdosRead(rom, isTxPdo, script, room) == (true, Pdo.Headers(records[..Smaller(Pdo.HeadersWithin(records, n), room)]))
  {
    assert Pdo.CATEGORY_BUFFER == 512;
    assert PdoCategory(isTxPdo) == if isTxPdo then 0x32 else 0x33;
    hide *;
    var kind := PdoCategory(isTxPdo);
    CategoryIsFound(rom, cats, kind, ClearBuffer(), script);
    MatchFacts(cats, kind);
    var words := cats[FirstMatch(cats, kind, 0)].words;
    IsPrefix(words);
    EvenCount(|words|);
    WrappedLength(words);
    DecodesFront(rom, isTxPdo, script, records, FirstBytes(cats, kind), room);
  }

  /** The call succeeds if and only if the category is there and the words it needs can be read; else there are no records. */
  lemma PdosAreReadIff(rom: Rom, cats: seq<Category>, isTxPdo: bool, script: seq<Access>, room: nat)
    requires Encodes(rom, cats)
    ensures var kind: u16 := if isTxPdo then 0x32 else 0x33;
      PdosRead(rom, isTxPdo, script, room).0 <==> HasCategory(cats, kind) && Answers(WordsNeeded(cats, kind, 512), script)
    ensures !PdosRead(rom, isTxPdo, script, room).0 ==> PdosRead(rom, isTxPdo, script, room).1 == []
  {
    SuccessMeansCategory(rom, cats, PdoCategory(isTxPdo), ClearBuffer(), script);
    hide Encodes, HasCategory, Answers, WordsNeeded, CategoryRead, FirstBytes, Stored, Pdo.Decoded;
  }

  lemma WrappedLength(words: seq<u16>)
    ensures |Reachable(words)| == |BytesOf(words)| % 0x1_0000
  {
    hide BytesOf;
  }

  /** The front of the category, read into a clear buffer and decoded. */
  lemma DecodesFront(rom: Rom, isTxPdo: bool, script: seq<Access>, records: seq<Pdo.Record>, bytes: seq<byte>, room: nat)
    requires (forall i :: 0 <= i < |records| ==> records[i].Valid()) && bytes <= Pdo.EncodeAll(records)
    requires |bytes| < 0x1_0000 && |bytes| % 2 == 0
    requires CategoryRead(rom, PdoCategory(isTxPdo), script, ClearBuffer())
      == (Success, Smaller(|bytes|, Pdo.CATEGORY_BUFFER), Stored(bytes, ClearBuffer()))
    ensures var n := Smaller(|bytes|, Pdo.CATEGORY_BUFFER);
      PdosRead(rom, isTxPdo, script, room) == (true, Pdo.Headers(records[..Smaller(Pdo.HeadersWithin(records, n), room)]))
  {
    hide CategoryRead, Stored, Pdo.Decoded, Pdo.EncodeAll, Pdo.HeadersWithin, Pdo.Headers;
    var n := Smaller(|bytes|, Pdo.CATEGORY_BUFFER);
    StoredFront(bytes, ClearBuffer(), n);
    assert bytes[..n] == Pdo.EncodeAll(records)[..n];
    Pdo.DecodedAreHeaders(records, n, room);
  }

  lemma StoredFront(bytes: seq<byte>, before: seq<byte>, n: nat)
    requires n == Smaller(|bytes|, |before|) && n % 2 == 0
    ensures |Stored(bytes, before)| >= n && Stored(bytes, before)[..n] == bytes[..n]
  {
  }
}
