/**
 SII access of src/master/scan.c: scan_read_eeprom_word as a register handshake, scan_read_eeprom_category as a
 walk over the category list (SII: section 5.4 of ETG.1000.6).
 */
module Sii {
  import opened Endian
  import opened Wrappers

  const REG_CONTROL: u16 := 0x0502
  const REG_ADDRESS: u16 := 0x0504
  const REG_DATA: u16 := 0x0508
  const CTRL_READ: u16 := 0x0100
  const CATEGORY_START: u16 := 0x0040
  const CAT_END: u16 := 0xFFFF
  const MAX_HEADERS: nat := 256

  datatype Status = Success | Error | Timeout | EepromError

  /** The EEPROM: one word for every 16-bit word address. */
  type Rom = s: seq<u16> | |s| == 0x1_0000 witness seq(0x1_0000, _ => 0)

  /** One register access: the deadline has passed before it, it fails, or it works; the status word a poll shows. */
  datatype Access = Access(late: bool, result: Status, siiStatus: u16)

  /** Bits 11 to 14. */
  predicate HasError(siiStatus: u16) {
    siiStatus / 0x800 % 16 != 0
  }

  /** Bit 15. */
  predicate IsBusy(siiStatus: u16) {
    siiStatus >= 0x8000
  }

  /** 16-bit addition. */
  function Plus(a: u16, b: nat): u16 {
    (a + b) % 0x1_0000
  }

  // ---------- What the accesses of one word read meet ----------

  /** One access; with no more of them it times out. */
  function Take(script: seq<Access>): (Status, seq<Access>) {
    if script == [] then (Timeout, []) else (script[0].result, script[1..])
  }

  /** The polls of the control register until neither busy nor an error shows. */
  function Polled(script: seq<Access>): (r: (Status, seq<Access>))
    ensures |r.1| <= |script|
    decreases |script|
  {
    if script == [] then (Timeout, [])
    else if script[0].late then (Timeout, script)
    else if script[0].result != Success then (script[0].result, script[1..])
    else if HasError(script[0].siiStatus) then (EepromError, script[1..])
    else if IsBusy(script[0].siiStatus) then Polled(script[1..])
    else (Success, script[1..])
  }

  /** How one word read ends, and the accesses left: two writes, the polls, the data. */
  function WordRead(script: seq<Access>): (r: (Status, seq<Access>))
    ensures |r.1| <= |script|
  {
    var (s1, rest1) := Take(script);
    if s1 != Success then (s1, rest1)
    else
      var (s2, rest2) := Take(rest1);
      if s2 != Success then (s2, rest2)
      else
        var (s3, rest3) := Polled(rest2);
        if s3 != Success then (s3, rest3) else Take(rest3)
  }

  /**
   A slave's SII interface behind the register reads and writes of the scan module. A read command takes as many
   polls as the script says; when a poll first shows neither busy nor error, the data register holds the word at
   the address that was set when the command was given.
   */
  class Device {
    const rom: Rom
    var address: u16
    var reading: Option<u16>
    var data: u16
    /** What the coming accesses meet. */
    var script: seq<Access>

    constructor (rom: Rom, script: seq<Access>)
      ensures this.rom == rom && this.script == script && reading == None
    {
      this.rom, this.script, address, reading, data := rom, script, 0, None, 0;
    }

    /** The clock, before a poll. */
    method IsLate() returns (late: bool)
      ensures late == (script != [] && script[0].late)
    {
      late := script != [] && script[0].late;
    }

    /** fpwr_register of two bytes. */
    method WriteRegister(register: u16, bytes: seq<byte>) returns (status: Status)
      requires |bytes| == 2
      modifies this
      ensures (status, script) == Take(old(script))
      ensures data == old(data)
      ensures address == if status == Success && register == 0x0504 then ReadU16(bytes, 0) else old(address)
      ensures reading == if status == Success && register == 0x0502 && ReadU16(bytes, 0) == 0x0100 then Some(old(address))
                         else old(reading)
    {
      if script == [] {
        return Timeout;
      }
      status := script[0].result;
      script := script[1..];
      if status == Success {
        if register == 0x0504 {
          address := ReadU16(bytes, 0);
        } else if register == 0x0502 && ReadU16(bytes, 0) == 0x0100 {
          reading := Some(address);
        }
      }
    }

    /** fprd_register; the bytes of a register that is not an SII one are zero. */
    method ReadRegister(register: u16, length: nat) returns (status: Status, bytes: seq<byte>)
      requires length == 2 || length == 4
      modifies this
      ensures |bytes| == length && (status, script) == Take(old(script)) && address == old(address)
      ensures status == Success && register == 0x0502 ==>
        var shown := old(script)[0].siiStatus;
        && ReadU16(bytes, 0) == shown
        && (if old(reading).Some? && shown < 0x8000 && shown / 0x800 % 16 == 0 then reading == None && data == rom[old(reading).value]
            else reading == old(reading) && data == old(data))
      ensures status == Success && register == 0x0508 ==> ReadU16(bytes, 0) == data == old(data) && reading == old(reading)
    {
      bytes := seq(length, _ => 0);
      if script == [] {
        return Timeout, bytes;
      }
      status := script[0].result;
      var shown := script[0].siiStatus;
      script := script[1..];
      if status == Success {
        if register == 0x0502 {
          WordAtFront(shown, bytes[2..]);
          bytes := BytesOfU16(shown) + bytes[2..];
          if reading.Some? && shown < 0x8000 && shown / 0x800 % 16 == 0 {
            data := rom[reading.value];
            reading := None;
          }
        } else if register == 0x0508 {
          WordAtFront(data, bytes[2..]);
          bytes := BytesOfU16(data) + bytes[2..];
        }
      }
    }
  }

  lemma WordAtFront(value: u16, rest: seq<byte>)
    ensures ReadU16(BytesOfU16(value) + rest, 0) == value
  {
    var b := BytesOfU16(value);
    assert (b + rest)[0] == b[0] && (b + rest)[1] == b[1];
  }

  /** scan_read_eeprom_word: it ends as its accesses say, and a word that is returned is the one at the address. */
  method ReadWord(device: Device, wordAddress: u16) returns (status: Status, word: u16)
    modifies device
    ensures (status, device.script) == WordRead(old(device.script))
    ensures status == Success ==> word == device.rom[wordAddress]
  {
    hide BytesOfU16, ReadU16;
    word := 0;
    status := device.WriteRegister(REG_ADDRESS, BytesOfU16(wordAddress));
    if status != Success {
      return;
    }
    status := device.WriteRegister(REG_CONTROL, BytesOfU16(CTRL_READ));
    if status != Success {
      return;
    }
    ghost var polls := device.script;
    while true
      invariant device.reading == Some(wordAddress) && Polled(polls) == Polled(device.script)
      decreases |device.script|
    {
      var late := device.IsLate();
      if late {
        return Timeout, word;
      }
      var statusBytes;
      status, statusBytes := device.ReadRegister(REG_CONTROL, 2);
      if status != Success {
        return;
      }
      var siiStatus := ReadU16(statusBytes, 0);
      if HasError(siiStatus) {
        return EepromError, word;
      }
      if !IsBusy(siiStatus) {
        break;
      }
    }
    var dataBytes;
    status, dataBytes := device.ReadRegister(REG_DATA, 4);
    if status != Success {
      return;
    }
    word := ReadU16(dataBytes, 0);
  }

  // ---------- When a word read succeeds ----------

  /** A poll in time that shows busy and no error. */
  predicate ShowsBusy(a: Access) {
    !a.late && a.result == Success && a.siiStatus >= 0x8000 && a.siiStatus / 0x800 % 16 == 0
  }

  predicate ShowsReady(a: Access) {
    !a.late && a.result == Success && a.siiStatus < 0x8000 && a.siiStatus / 0x800 % 16 == 0
  }

  /** Two accepted writes, n busy polls, a ready one, and the data. */
  predicate AnswersAfter(script: seq<Access>, n: nat) {
    && |script| >= n + 4 && script[0].result == Success && script[1].result == Success
    && (forall i :: 2 <= i < n + 2 ==> ShowsBusy(script[i]))
    && ShowsReady(script[n + 2]) && script[n + 3].result == Success
  }

  lemma {:induction false} BusyPolls(script: seq<Access>, n: nat)
    requires n <= |script| && forall i :: 0 <= i < n ==> ShowsBusy(script[i])
    ensures Polled(script) == Polled(script[n..])
    decreases n
  {
    if n > 0 {
      BusyPolls(script[1..], n - 1);
      assert script[1..][n - 1..] == script[n..];
    } else {
      assert script[0..] == script;
    }
  }

  lemma {:induction false} PollsEnd(script: seq<Access>) returns (n: nat)
    requires Polled(script).0 == Success
    ensures n < |script| && (forall i :: 0 <= i < n ==> ShowsBusy(script[i])) && ShowsReady(script[n])
    decreases |script|
  {
    if ShowsReady(script[0]) {
      n := 0;
    } else {
      var m := PollsEnd(script[1..]);
      n := m + 1;
      forall i | 0 <= i < n
        ensures ShowsBusy(script[i])
      {
        assert i > 0 ==> script[i] == script[1..][i - 1];
      }
    }
  }

  /** A word is read if and only if both writes are accepted, some polls show busy in time, one shows ready, and the data
      register can be read; what is left of the accesses is behind that. */
  lemma WordIsReadIff(script: seq<Access>)
    ensures WordRead(script).0 == Success <==> exists n: nat :: AnswersAfter(script, n)
    ensures forall n: nat :: AnswersAfter(script, n) ==> WordRead(script) == (Success, script[n + 4..])
  {
    forall n: nat | AnswersAfter(script, n)
      ensures WordRead(script) == (Success, script[n + 4..])
    {
      var polls := script[1..][1..];
      assert polls == script[2..];
      BusyPolls(polls, n);
      assert polls[n..][0] == script[n + 2] && polls[n..][1..] == script[n + 3..] && script[n + 3..][1..] == script[n + 4..];
    }
    if WordRead(script).0 == Success {
      var polls := script[1..][1..];
      assert polls == script[2..];
      var n := PollsEnd(polls);
      BusyPolls(polls, n);
      assert polls[n..][1..] == script[n + 3..];
      forall i | 2 <= i < n + 2
        ensures ShowsBusy(script[i])
      {
        assert script[i] == polls[i - 2];
      }
      assert AnswersAfter(script, n);
    }
  }

  /** How a word read fails: a refused write with its status, a late or unanswered poll with TIMEOUT, a poll with error bits
      with EEPROM_ERROR, and a failing access with its status. */
  lemma WordFailsAs(script: seq<Access>, n: nat)
    requires |script| >= 1
    ensures script[0].result != Success ==> WordRead(script).0 == script[0].result
    ensures |script| >= 2 && script[0].result == Success && script[1].result != Success ==> WordRead(script).0 == script[1].result
    ensures |script| > n + 2 && script[0].result == Success && script[1].result == Success
            && (forall i :: 2 <= i < n + 2 ==> ShowsBusy(script[i])) ==>
      var p := script[n + 2];
      && (p.late ==> WordRead(script).0 == Timeout)
      && (!p.late && p.result != Success ==> WordRead(script).0 == p.result)
      && (!p.late && p.result == Success && p.siiStatus / 0x800 % 16 != 0 ==> WordRead(script).0 == EepromError)
      && (ShowsReady(p) && |script| > n + 3 ==> WordRead(script).0 == script[n + 3].result)
  {
    if |script| > n + 2 && script[0].result == Success && script[1].result == Success
       && (forall i :: 2 <= i < n + 2 ==> ShowsBusy(script[i])) {
      var polls := script[1..][1..];
      assert polls == script[2..];
      BusyPolls(polls, n);
      assert polls[n..][0] == script[n + 2] && polls[n..][1..] == script[n + 3..];
    }
  }

  // ---------- The walk ----------

  /** A category header: where it is and how many words it announces. */
  datatype Header = Header(at: u16, size: u16)

  /** How the walk ends: a word could not be read, no category found, or found with these accesses left. */
  datatype WalkEnd = Broken(status: Status, rest: seq<Access>) | Absent(rest: seq<Access>) | Found(header: Header, rest: seq<Access>)

  /** The word address behind the category at this address. */
  function Next(at: u16, size: nat): u16 {
    Plus(at, 2 + size)
  }

  /** The walk from a header on, when visited headers have been looked at. */
  function Walk(rom: Rom, category: u16, at: u16, visited: nat, script: seq<Access>): WalkEnd
    requires visited <= MAX_HEADERS
    decreases MAX_HEADERS - visited
  {
    if visited == MAX_HEADERS then Absent(script)
    else
      var (s1, rest1) := WordRead(script);
      if s1 != Success then Broken(s1, rest1)
      else
        var (s2, rest2) := WordRead(rest1);
        if s2 != Success then Broken(s2, rest2)
        else if rom[at] == CAT_END then Absent(rest2)
        else if rom[at] == category then Found(Header(at, rom[Plus(at, 1)]), rest2)
        else Walk(rom, category, Next(at, rom[Plus(at, 1)]), visited + 1, rest2)
  }

  /** How many of n words are read, and how the last read ended. */
  function WordsRead(n: nat, script: seq<Access>): (r: (nat, Status, seq<Access>))
    ensures r.0 <= n && (r.1 == Success <==> r.0 == n)
  {
    if n == 0 then (0, Success, script)
    else
      var (s, rest) := WordRead(script);
      if s != Success then (0, s, rest)
      else
        var (k, s', rest') := WordsRead(n - 1, rest);
        (k + 1, s', rest')
  }

  /** n words from a word address on, as little-endian bytes. */
  function WordBytes(rom: Rom, from: u16, n: nat): (bytes: seq<byte>)
    ensures |bytes| == 2 * n
  {
    if n == 0 then [] else WordBytes(rom, from, n - 1) + BytesOfU16(rom[Plus(from, n - 1)])
  }

  /** bytes_to_read: the size in bytes as a uint16_t, cut to the buffer. */
  function BytesToRead(size: nat, bufferSize: u16): (n: u16)
    ensures n <= bufferSize
  {
    var bytes := (size * 2) % 0x1_0000;
    if bytes > bufferSize then bufferSize else bytes
  }

  /** What scan_read_eeprom_category leaves: the status, *bytes_read, and the buffer. */
  function CategoryRead(rom: Rom, category: u16, script: seq<Access>, before: seq<byte>): (r: (Status, u16, seq<byte>))
    requires |before| < 0x1_0000
    ensures r.1 <= |r.2| == |before|
  {
    match Walk(rom, category, CATEGORY_START, 0, script)
    case Broken(status, _) => (status, 0, before)
    case Absent(_) => (Error, 0, before)
    case Found(h, rest) =>
      var n := BytesToRead(h.size, |before|);
      var (k, status, _) := WordsRead(n / 2, rest);
      (status, if status == Success then n else 0, Splice(before, 0, WordBytes(rom, Plus(h.at, 2), k)))
  }

  /** scan_read_eeprom_category */
  method ReadCategory(device: Device, category: u16, buffer: array<byte>) returns (status: Status, bytesRead: u16)
    requires buffer.Length < 0x1_0000
    modifies device, buffer
    ensures (status, bytesRead, buffer[..]) == CategoryRead(device.rom, category, old(device.script), old(buffer[..]))
  {
    hide WordRead, WordsRead, WordBytes, BytesOfU16, Splice;
    var wordAddr: u16 := CATEGORY_START;
    ghost var rom, before, script := device.rom, buffer[..], device.script;
    bytesRead := 0;
    for i := 0 to MAX_HEADERS
      invariant buffer[..] == before && bytesRead == 0
      invariant Walk(rom, category, CATEGORY_START, 0, script) == Walk(rom, category, wordAddr, i, device.script)
    {
      var catType, catSize;
      status, catType := ReadWord(device, wordAddr);
      if status != Success {
        return;
      }
      status, catSize := ReadWord(device, Plus(wordAddr, 1));
      if status != Success {
        return;
      }
      if catType == CAT_END {
        return Error, 0;
      }
      if catType == category {
        var bytesToRead := BytesToRead(catSize, buffer.Length);
        status := ReadWords(device, Plus(wordAddr, 2), bytesToRead / 2, buffer);
        if status != Success {
          return;
        }
        bytesRead := bytesToRead;
        return;
      }
      wordAddr := Next(wordAddr, catSize);
    }
    return Error, 0;
  }

  /** After j words one more is read, or the reading ends there. */
  lemma {:induction false} WordsReadStep(j: nat, n: nat, script: seq<Access>)
    requires j < n && WordsRead(j, script).1 == Success
    ensures var (s, rest) := WordRead(WordsRead(j, script).2);
      if s == Success then WordsRead(j + 1, script) == (j + 1, Success, rest) else WordsRead(n, script) == (j, s, rest)
    decreases j
  {
    hide WordRead;
    if j == 0 {
      var (s, rest) := WordRead(script);
      assert WordsRead(0, rest) == (0, Success, rest);
    } else {
      WordsReadStep(j - 1, n - 1, WordRead(script).1);
    }
  }

  /** Lines 630-638: the data words of a category. */
  method ReadWords(device: Device, from: u16, n: nat, buffer: array<byte>) returns (status: Status)
    requires 2 * n <= buffer.Length
    modifies device, buffer
    ensures var (k, end, rest) := WordsRead(n, old(device.script));
      status == end && device.script == rest && buffer[..] == Splice(old(buffer[..]), 0, WordBytes(device.rom, from, k))
  {
    hide WordRead, BytesOfU16, Splice;
    ghost var before, script := buffer[..], device.script;
    status := Success;
    assert Splice(before, 0, []) == before by {
      SpliceEnds(before, 0, []);
    }
    for j := 0 to n
      invariant status == Success && WordsRead(j, script) == (j, Success, device.script)
      invariant buffer[..] == Splice(before, 0, WordBytes(device.rom, from, j))
    {
      WordsReadStep(j, n, script);
      var word;
      status, word := ReadWord(device, Plus(from, j));
      if status != Success {
        return;
      }
      WriteU16(buffer, 2 * j, word);
      SpliceAppend(before, 0, WordBytes(device.rom, from, j), BytesOfU16(word));
    }
  }
}
