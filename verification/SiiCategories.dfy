/** What scan_read_eeprom_category returns from an EEPROM that holds a well-formed category list. */
module SiiCategories {
  import opened Endian
  import opened Wrappers
  import opened Sii

  datatype Category = Category(kind: u16, words: seq<u16>)

  /** The word address of header k, and behind the list for k == |cats|. */
  function StartOf(cats: seq<Category>, k: nat): nat
    requires k <= |cats|
  {
    if k == 0 then 0x40 else StartOf(cats, k - 1) + 2 + |cats[k - 1].words|
  }

  /** Category k is in its place, within the 16-bit word space. */
  ghost predicate HoldsAt(rom: Rom, cats: seq<Category>, k: nat)
    requires k < |cats|
  {
    var at, size := StartOf(cats, k), |cats[k].words|;
    && at + 2 + size < 0x1_0000 && cats[k].kind != 0xFFFF
    && rom[at] == cats[k].kind && rom[at + 1] == size && rom[at + 2..at + 2 + size] == cats[k].words
  }

  /** The list ends with the end marker. */
  ghost predicate Encodes(rom: Rom, cats: seq<Category>) {
    && StartOf(cats, |cats|) < 0x1_0000 && rom[StartOf(cats, |cats|)] == 0xFFFF
    && forall k :: 0 <= k < |cats| ==> HoldsAt(rom, cats, k)
  }

  /** The first category of a kind from index k on, or the end of the list. */
  function FirstMatch(cats: seq<Category>, kind: u16, k: nat): (m: nat)
    requires k <= |cats|
    ensures k <= m <= |cats| && (m < |cats| ==> cats[m].kind == kind)
    ensures forall i :: k <= i < m ==> cats[i].kind != kind
    decreases |cats| - k
  {
    if k == |cats| || cats[k].kind == kind then k else FirstMatch(cats, kind, k + 1)
  }

  /** Words as little-endian bytes. */
  function BytesOf(words: seq<u16>): (bytes: seq<byte>)
    ensures |bytes| == 2 * |words|
  {
    if words == [] then [] else BytesOf(words[..|words| - 1]) + BytesOfU16(words[|words| - 1])
  }

  // ---------- Word reads one after the other ----------

  /** The first n word reads succeed. */
  predicate Answers(n: nat, script: seq<Access>) {
    WordsRead(n, script).1 == Success
  }

  lemma {:induction false} WordsReadInTwo(n: nat, more: nat, script: seq<Access>)
    ensures var (k, status, rest) := WordsRead(n, script);
      var (k', status', rest') := WordsRead(more, rest);
      WordsRead(n + more, script) == if status != Success then (k, status, rest) else (n + k', status', rest')
    decreases n
  {
    hide WordRead;
    if n > 0 {
      WordsReadInTwo(n - 1, more, WordRead(script).1);
    }
  }

  lemma TwoWords(script: seq<Access>)
    ensures var (s1, rest1) := WordRead(script);
      var (s2, rest2) := WordRead(rest1);
      WordsRead(2, script) ==
        if s1 != Success then (0, s1, rest1) else if s2 != Success then (1, s2, rest2) else (2, Success, rest2)
  {
    hide WordRead;
    var rest1 := WordRead(script).1;
    var rest2 := WordRead(rest1).1;
    assert WordsRead(0, rest2) == (0, Success, rest2);
    assert WordsRead(1, rest1) == if WordRead(rest1).0 != Success then (0, WordRead(rest1).0, rest2) else (1, Success, rest2);
  }

  // ---------- The walk finds the first match ----------

  /** What the walk makes of the header at the start of category k. */
  lemma HeaderPasses(rom: Rom, cats: seq<Category>, kind: u16, k: nat, script: seq<Access>)
    requires k < |cats| && k < MAX_HEADERS && HoldsAt(rom, cats, k)
    ensures StartOf(cats, k + 1) < 0x1_0000
    ensures var (_, status, rest) := WordsRead(2, script);
      Walk(rom, kind, StartOf(cats, k), k, script) ==
        if status != Success then Broken(status, rest)
        else if cats[k].kind == kind then Found(Header(StartOf(cats, k), |cats[k].words|), rest)
        else Walk(rom, kind, StartOf(cats, k + 1), k + 1, rest)
  {
    TwoWords(script);
    hide WordRead, WordsRead;
    var at := StartOf(cats, k);
    assert Plus(at, 1) == at + 1;
    assert Next(at, |cats[k].words|) == StartOf(cats, k + 1);
  }

  lemma EndStops(rom: Rom, kind: u16, at: u16, visited: nat, script: seq<Access>)
    requires visited < MAX_HEADERS && rom[at] == CAT_END
    ensures var (_, status, rest) := WordsRead(2, script);
      Walk(rom, kind, at, visited, script) == if status != Success then Broken(status, rest) else Absent(rest)
  {
    TwoWords(script);
    hide WordRead, WordsRead;
  }

  lemma FirstMatchStep(cats: seq<Category>, kind: u16, k: nat)
    requires k < |cats|
    ensures FirstMatch(cats, kind, k) == if cats[k].kind == kind then k else FirstMatch(cats, kind, k + 1)
  {
  }

  /** The walk has ended at category m, or without a match if that is beyond the list or the first 256. */
  ghost predicate EndsAt(end: WalkEnd, cats: seq<Category>, m: nat, met: (nat, Status, seq<Access>)) {
    if met.1 != Success then end == Broken(met.1, met.2)
    else if m < |cats| && m < MAX_HEADERS then
      && StartOf(cats, m) < 0x1_0000 && |cats[m].words| < 0x1_0000
      && end == Found(Header(StartOf(cats, m), |cats[m].words|), met.2)
    else end == Absent(met.2)
  }

  /** How many headers are looked at from header k on. */
  function HeadersRead(cats: seq<Category>, kind: u16, k: nat): nat
    requires k <= |cats| && k <= MAX_HEADERS
  {
    Smaller(FirstMatch(cats, kind, k) + 1, MAX_HEADERS) - k
  }

  /** Whatever the accesses meet: the walk reads two words for every header up to the first match, and ends there unless
      one of these reads fails. */
  lemma {:induction false} WalkFinds(rom: Rom, cats: seq<Category>, kind: u16, k: nat, script: seq<Access>)
    requires Encodes(rom, cats) && k <= |cats| && k <= MAX_HEADERS && StartOf(cats, k) < 0x1_0000
    ensures EndsAt(Walk(rom, kind, StartOf(cats, k), k, script), cats, FirstMatch(cats, kind, k),
                   WordsRead(2 * HeadersRead(cats, kind, k), script))
    decreases MAX_HEADERS - k
  {
    if k == MAX_HEADERS {
    } else if k == |cats| {
      EndStops(rom, kind, StartOf(cats, k), k, script);
    } else {
      assert HoldsAt(rom, cats, k);
      hide *;
      HeaderPasses(rom, cats, kind, k, script);
      if cats[k].kind == kind {
        MatchEnds(rom, cats, kind, k, script);
      } else {
        WalkFinds(rom, cats, kind, k + 1, WordsRead(2, script).2);
        WalkGoesOn(rom, cats, kind, k, script);
      }
    }
  }

  lemma MatchEnds(rom: Rom, cats: seq<Category>, kind: u16, k: nat, script: seq<Access>)
    requires k < |cats| && k < MAX_HEADERS && cats[k].kind == kind && HoldsAt(rom, cats, k)
    ensures EndsAt(Walk(rom, kind, StartOf(cats, k), k, script), cats, FirstMatch(cats, kind, k),
                   WordsRead(2 * HeadersRead(cats, kind, k), script))
  {
    HeaderPasses(rom, cats, kind, k, script);
    FirstMatchStep(cats, kind, k);
    hide Walk, WordsRead, StartOf, FirstMatch;
  }

  lemma HeadersReadStep(cats: seq<Category>, kind: u16, k: nat)
    requires k < |cats| && k < MAX_HEADERS && cats[k].kind != kind
    ensures FirstMatch(cats, kind, k) == FirstMatch(cats, kind, k + 1)
    ensures HeadersRead(cats, kind, k) == 1 + HeadersRead(cats, kind, k + 1)
  {
    FirstMatchStep(cats, kind, k);
    hide FirstMatch;
  }

  /** How many words were read does not matter. */
  lemma SameEnd(end: WalkEnd, cats: seq<Category>, m: nat, met: (nat, Status, seq<Access>), met': (nat, Status, seq<Access>))
    requires EndsAt(end, cats, m, met) && met.1 == met'.1 && met.2 == met'.2
    ensures EndsAt(end, cats, m, met')
  {
    hide StartOf;
  }

  lemma BrokenEnds(cats: seq<Category>, m: nat, met: (nat, Status, seq<Access>))
    requires met.1 != Success
    ensures EndsAt(Broken(met.1, met.2), cats, m, met)
  {
    hide StartOf;
  }

  /** From one header to the next. */
  lemma WalkGoesOn(rom: Rom, cats: seq<Category>, kind: u16, k: nat, script: seq<Access>)
    requires k < |cats| && k < MAX_HEADERS && cats[k].kind != kind && HoldsAt(rom, cats, k) && StartOf(cats, k + 1) < 0x1_0000
    requires var rest := WordsRead(2, script).2;
      EndsAt(Walk(rom, kind, StartOf(cats, k + 1), k + 1, rest), cats, FirstMatch(cats, kind, k + 1),
             WordsRead(2 * HeadersRead(cats, kind, k + 1), rest))
    ensures EndsAt(Walk(rom, kind, StartOf(cats, k), k, script), cats, FirstMatch(cats, kind, k),
                   WordsRead(2 * HeadersRead(cats, kind, k), script))
  {
    hide *;
    WordsHeld(rom, cats, k);
    HeaderPasses(rom, cats, kind, k, script);
    HeadersReadStep(cats, kind, k);
    var more, m := 2 * HeadersRead(cats, kind, k + 1), FirstMatch(cats, kind, k);
    WordsReadInTwo(2, more, script);
    var (_, status, rest) := WordsRead(2, script);
    if status == Success {
      SameEnd(Walk(rom, kind, StartOf(cats, k), k, script), cats, m, WordsRead(more, rest), WordsRead(2 + more, script));
    } else {
      BrokenEnds(cats, m, WordsRead(2 + more, script));
    }
  }

  lemma {:induction false} WordBytesAre(rom: Rom, from: u16, n: nat)
    requires from + n <= 0x1_0000
    ensures WordBytes(rom, from, n) == BytesOf(rom[from..from + n])
    decreases n
  {
    if n > 0 {
      var words := rom[from..from + n];
      WordBytesAre(rom, from, n - 1);
      assert words[..n - 1] == rom[from..from + (n - 1)];
      assert Plus(from, n - 1) == from + (n - 1);
    }
  }

  lemma {:induction false} BytesOfPrefix(words: seq<u16>, n: nat)
    requires n <= |words|
    ensures BytesOf(words[..n]) == BytesOf(words)[..2 * n]
    decreases |words|
  {
    if n == |words| {
      assert words[..n] == words;
    } else {
      BytesOfPrefix(words[..|words| - 1], n);
      assert words[..|words| - 1][..n] == words[..n];
    }
  }

  /** The buffer after k words of these bytes have been stored. */
  function StoredWords(bytes: seq<byte>, before: seq<byte>, k: nat): (after: seq<byte>)
    requires 2 * k <= |bytes| && 2 * k <= |before|
    ensures |after| == |before|
  {
    bytes[..2 * k] + before[2 * k..]
  }

  /** The buffer after bytes have been stored as words: of an odd number of them the last one is not stored. */
  function Stored(bytes: seq<byte>, before: seq<byte>): (after: seq<byte>)
    ensures |after| == |before|
  {
    StoredWords(bytes, before, Smaller(|bytes|, |before|) / 2)
  }

  /** The 16-bit byte count of so many words. */
  function ByteCount(words: nat): (n: u16)
    ensures n <= 2 * words
  {
    2 * words % 0x1_0000
  }

  lemma EvenCount(words: nat)
    ensures ByteCount(words) % 2 == 0
  {
  }

  /** The bytes of a category that this count reaches: all of them below 32768 words. */
  function Reachable(words: seq<u16>): (bytes: seq<byte>)
    ensures |bytes| == ByteCount(|words|)
  {
    BytesOf(words)[..ByteCount(|words|)]
  }

  lemma IsPrefix(words: seq<u16>)
    ensures Reachable(words) <= BytesOf(words)
  {
  }

  /** The first category of the kind is among the first 256. */
  predicate HasCategory(cats: seq<Category>, kind: u16) {
    FirstMatch(cats, kind, 0) < |cats| && FirstMatch(cats, kind, 0) < 256
  }

  /** The bytes of that category which can be returned. */
  function FirstBytes(cats: seq<Category>, kind: u16): (bytes: seq<byte>)
    requires HasCategory(cats, kind)
    ensures |bytes| == ByteCount(|cats[FirstMatch(cats, kind, 0)].words|)
  {
    Reachable(cats[FirstMatch(cats, kind, 0)].words)
  }

  /** The words that a call with a buffer of this size reads. */
  function WordsNeeded(cats: seq<Category>, kind: u16, size: nat): (n: nat)
    ensures n <= 2 * MAX_HEADERS + 0x8000
  {
    2 * HeadersRead(cats, kind, 0) + if HasCategory(cats, kind) then Smaller(|FirstBytes(cats, kind)|, size) / 2 else 0
  }

  /** What a call leaves when k of the needed word reads succeeded and they ended with this status. */
  function Outcome(cats: seq<Category>, kind: u16, before: seq<byte>, k: nat, status: Status): (Status, nat, seq<byte>)
    requires k <= WordsNeeded(cats, kind, |before|)
  {
    var headers := 2 * HeadersRead(cats, kind, 0);
    if !HasCategory(cats, kind) then (if status == Success then Error else status, 0, before)
    else
      var bytes := FirstBytes(cats, kind);
      (status, if status == Success then Smaller(|bytes|, |before|) else 0,
       StoredWords(bytes, before, if k > headers then k - headers else 0))
  }

  /** For every script of accesses: the call is decided by the word reads it needs. Up to the first that fails, the
      words of the first category of the kind are in the buffer. */
  lemma CategoryIsRead(rom: Rom, cats: seq<Category>, kind: u16, before: seq<byte>, script: seq<Access>)
    requires Encodes(rom, cats) && |before| < 0x1_0000
    ensures var (k, status, _) := WordsRead(WordsNeeded(cats, kind, |before|), script);
      CategoryRead(rom, kind, script, before) == Outcome(cats, kind, before, k, status)
  {
    var m := FirstMatch(cats, kind, 0);
    var headers := 2 * HeadersRead(cats, kind, 0);
    WalkFinds(rom, cats, kind, 0, script);
    if HasCategory(cats, kind) {
      assert HoldsAt(rom, cats, m);
      hide *;
      MatchIsRead(rom, cats, kind, before, script);
    } else {
      hide Walk, WordsRead, FirstMatch, BytesOf, StoredWords, WordBytes, Splice, Encodes;
    }
  }

  lemma MatchIsRead(rom: Rom, cats: seq<Category>, kind: u16, before: seq<byte>, script: seq<Access>)
    requires HasCategory(cats, kind) && HoldsAt(rom, cats, FirstMatch(cats, kind, 0)) && |before| < 0x1_0000
    requires EndsAt(Walk(rom, kind, CATEGORY_START, 0, script), cats, FirstMatch(cats, kind, 0),
                    WordsRead(2 * HeadersRead(cats, kind, 0), script))
    ensures var (k, status, _) := WordsRead(WordsNeeded(cats, kind, |before|), script);
      CategoryRead(rom, kind, script, before) == Outcome(cats, kind, before, k, status)
  {
    hide *;
    MatchFacts(cats, kind);
    var headers := 2 * HeadersRead(cats, kind, 0);
    var half := Smaller(|FirstBytes(cats, kind)|, |before|) / 2;
    NeededIs(cats, kind, |before|);
    WordsReadInTwo(headers, half, script);
    EndsAtMatch(cats, kind, Walk(rom, kind, CATEGORY_START, 0, script), WordsRead(headers, script));
    if WordsRead(headers, script).1 == Success {
      DataOfMatch(rom, cats, kind, before, script, WordsRead(headers, script).2, half);
    } else {
      var (k, status, rest) := WordsRead(headers, script);
      BrokenIsRead(rom, kind, before, script, status, rest);
      HeaderOutcome(cats, kind, before, k, status);
    }
  }

  lemma DataOfMatch(rom: Rom, cats: seq<Category>, kind: u16, before: seq<byte>, script: seq<Access>, rest: seq<Access>, half: nat)
    requires HasCategory(cats, kind) && HoldsAt(rom, cats, FirstMatch(cats, kind, 0)) && |before| < 0x1_0000
    requires var m := FirstMatch(cats, kind, 0);
      StartOf(cats, m) < 0x1_0000 && |cats[m].words| < 0x1_0000
      && Walk(rom, kind, CATEGORY_START, 0, script) == Found(Header(StartOf(cats, m), |cats[m].words|), rest)
    requires half == Smaller(|FirstBytes(cats, kind)|, |before|) / 2
    ensures var (k, status, _) := WordsRead(half, rest);
      var headers := 2 * HeadersRead(cats, kind, 0);
      headers + k <= WordsNeeded(cats, kind, |before|)
      && CategoryRead(rom, kind, script, before) == Outcome(cats, kind, before, headers + k, status)
  {
    hide *;
    var m := FirstMatch(cats, kind, 0);
    MatchFacts(cats, kind);
    FoundIsRead(rom, cats, kind, before, script, m, rest);
    var (k, status, _) := WordsRead(half, rest);
    DataOutcome(cats, kind, before, k, status);
  }

  lemma MatchFacts(cats: seq<Category>, kind: u16)
    requires HasCategory(cats, kind)
    ensures FirstMatch(cats, kind, 0) < |cats| && FirstBytes(cats, kind) == Reachable(cats[FirstMatch(cats, kind, 0)].words)
  {
  }

  lemma NeededIs(cats: seq<Category>, kind: u16, size: nat)
    requires HasCategory(cats, kind)
    ensures WordsNeeded(cats, kind, size) == 2 * HeadersRead(cats, kind, 0) + Smaller(|FirstBytes(cats, kind)|, size) / 2
  {
    hide FirstBytes, HeadersRead;
  }

  lemma EndsAtMatch(cats: seq<Category>, kind: u16, end: WalkEnd, met: (nat, Status, seq<Access>))
    requires HasCategory(cats, kind) && EndsAt(end, cats, FirstMatch(cats, kind, 0), met)
    ensures var m := FirstMatch(cats, kind, 0);
      if met.1 != Success then end == Broken(met.1, met.2)
      else StartOf(cats, m) < 0x1_0000 && |cats[m].words| < 0x1_0000
           && end == Found(Header(StartOf(cats, m), |cats[m].words|), met.2)
  {
    hide StartOf, FirstMatch;
  }

  lemma BrokenIsRead(rom: Rom, kind: u16, before: seq<byte>, script: seq<Access>, status: Status, rest: seq<Access>)
    requires |before| < 0x1_0000 && Walk(rom, kind, CATEGORY_START, 0, script) == Broken(status, rest)
    ensures CategoryRead(rom, kind, script, before) == (status, 0, before)
  {
    hide Walk;
  }

  /** The reads failed at a header. */
  lemma HeaderOutcome(cats: seq<Category>, kind: u16, before: seq<byte>, k: nat, status: Status)
    requires HasCategory(cats, kind) && k < 2 * HeadersRead(cats, kind, 0) && status != Success
    ensures k <= WordsNeeded(cats, kind, |before|) && Outcome(cats, kind, before, k, status) == (status, 0, before)
  {
    NeededIs(cats, kind, |before|);
    hide FirstBytes, HeadersRead, WordsNeeded;
    NoneStored(FirstBytes(cats, kind), before);
  }

  /** The reads went on to the data. */
  lemma DataOutcome(cats: seq<Category>, kind: u16, before: seq<byte>, k: nat, status: Status)
    requires HasCategory(cats, kind)
    requires k <= Smaller(|FirstBytes(cats, kind)|, |before|) / 2
    ensures var bytes := Reachable(cats[FirstMatch(cats, kind, 0)].words);
      var headers := 2 * HeadersRead(cats, kind, 0);
      && bytes == FirstBytes(cats, kind) && headers + k <= WordsNeeded(cats, kind, |before|)
      && 2 * k <= |bytes| && 2 * k <= |before|
      && Outcome(cats, kind, before, headers + k, status)
          == (status, if status == Success then Smaller(|bytes|, |before|) else 0, StoredWords(bytes, before, k))
  {
    NeededIs(cats, kind, |before|);
    SmallerHalf(|FirstBytes(cats, kind)|, |before|, k);
    hide Reachable, HeadersRead, WordsNeeded, StoredWords;
  }

  lemma NoneStored(bytes: seq<byte>, before: seq<byte>)
    ensures StoredWords(bytes, before, 0) == before
  {
  }

  /** The data words behind the header of the match. */
  lemma FoundIsRead(rom: Rom, cats: seq<Category>, kind: u16, before: seq<byte>, script: seq<Access>, m: nat, rest: seq<Access>)
    requires m < |cats| && HoldsAt(rom, cats, m) && |before| < 0x1_0000
    requires Walk(rom, kind, CATEGORY_START, 0, script) == Found(Header(StartOf(cats, m), |cats[m].words|), rest)
    ensures |cats[m].words| < 0x1_0000
    ensures var bytes := Reachable(cats[m].words);
      var n := Smaller(|bytes|, |before|);
      var (k, status, _) := WordsRead(n / 2, rest);
      CategoryRead(rom, kind, script, before) == (status, if status == Success then n else 0, StoredWords(bytes, before, k))
  {
    hide *;
    var words := cats[m].words;
    WordsHeld(rom, cats, m);
    var at := Plus(StartOf(cats, m), 2);
    var bytes := Reachable(words);
    var n := Smaller(|bytes|, |before|);
    CountIs(words, |before|);
    var k := WordsRead(n / 2, rest).0;
    SmallerHalf(|bytes|, |before|, k);
    DataBytes(rom, at, words, k);
    IsPrefix(words);
    StoredIsSplice(bytes, BytesOf(words), before, k);
    DataIsRead(rom, kind, script, before, Header(StartOf(cats, m), |words|), at, n, rest);
  }

  lemma WordsHeld(rom: Rom, cats: seq<Category>, m: nat)
    requires m < |cats| && HoldsAt(rom, cats, m)
    ensures |cats[m].words| < 0x1_0000 && StartOf(cats, m) + 2 + |cats[m].words| < 0x1_0000
    ensures Plus(StartOf(cats, m), 2) == StartOf(cats, m) + 2
    ensures rom[StartOf(cats, m) + 2..StartOf(cats, m) + 2 + |cats[m].words|] == cats[m].words
  {
  }

  lemma CountIs(words: seq<u16>, bufferSize: u16)
    requires |words| < 0x1_0000
    ensures BytesToRead(|words|, bufferSize) == Smaller(|Reachable(words)|, bufferSize)
  {
    hide BytesOf;
  }

  lemma SmallerHalf(size: nat, room: nat, k: nat)
    requires k <= Smaller(size, room) / 2
    ensures 2 * k <= size && 2 * k <= room
  {
  }

  lemma DataIsRead(rom: Rom, kind: u16, script: seq<Access>, before: seq<byte>, h: Header, at: u16, n: nat, rest: seq<Access>)
    requires |before| < 0x1_0000 && Walk(rom, kind, CATEGORY_START, 0, script) == Found(h, rest)
    requires Plus(h.at, 2) == at && BytesToRead(h.size, |before|) == n
    ensures var (k, status, _) := WordsRead(n / 2, rest);
      2 * k <= |before|
      && CategoryRead(rom, kind, script, before)
          == (status, if status == Success then n else 0, Splice(before, 0, WordBytes(rom, at, k)))
  {
    hide Walk, WordsRead, WordBytes, Splice, BytesToRead;
  }

  lemma StoredIsSplice(bytes: seq<byte>, all: seq<byte>, before: seq<byte>, k: nat)
    requires 2 * k <= |bytes| && 2 * k <= |before| && bytes <= all
    ensures Splice(before, 0, all[..k * 2]) == StoredWords(bytes, before, k)
  {
  }

  lemma DataBytes(rom: Rom, at: u16, words: seq<u16>, n: nat)
    requires at + |words| <= 0x1_0000 && rom[at..at + |words|] == words && n <= |words|
    ensures WordBytes(rom, at, n) == BytesOf(words)[..n * 2]
  {
    WordBytesAre(rom, at, n);
    assert rom[at..at + n] == rom[at..at + |words|][..n];
    BytesOfPrefix(words, n);
  }

  /** Success means the first matching category, whatever the accesses met, and comes exactly if there is one and every
      word read that the call needs succeeds. */
  lemma SuccessMeansCategory(rom: Rom, cats: seq<Category>, kind: u16, before: seq<byte>, script: seq<Access>)
    requires Encodes(rom, cats) && |before| < 0x1_0000
    ensures var r := CategoryRead(rom, kind, script, before);
      && (r.0 == Success <==> HasCategory(cats, kind) && Answers(WordsNeeded(cats, kind, |before|), script))
      && (r.0 == Success ==>
            r == (Success, Smaller(|FirstBytes(cats, kind)|, |before|), Stored(FirstBytes(cats, kind), before)))
  {
    hide Encodes, FirstMatch, CategoryRead, FirstBytes, HeadersRead, StoredWords;
    CategoryIsRead(rom, cats, kind, before, script);
  }

  /** With every needed word read answered, the call returns the first category of the kind among the first 256, as
      little-endian bytes cut to the buffer, and ERROR if there is none. */
  lemma CategoryIsFound(rom: Rom, cats: seq<Category>, kind: u16, before: seq<byte>, script: seq<Access>)
    requires Encodes(rom, cats) && |before| < 0x1_0000 && Answers(WordsNeeded(cats, kind, |before|), script)
    ensures CategoryRead(rom, kind, script, before) ==
      if HasCategory(cats, kind) then
        (Success, Smaller(|FirstBytes(cats, kind)|, |before|), Stored(FirstBytes(cats, kind), before))
      else (Error, 0, before)
  {
    hide Encodes, FirstMatch, CategoryRead, FirstBytes, HeadersRead, StoredWords;
    CategoryIsRead(rom, cats, kind, before, script);
  }

  /** The whole category, cut only to the buffer, is returned if and only if it is smaller than 32768 words or what the
      wrapped byte count leaves of it still fills the buffer. */
  lemma WholeCategoryIff(rom: Rom, cats: seq<Category>, kind: u16, before: seq<byte>, script: seq<Access>)
    requires Encodes(rom, cats) && |before| < 0x1_0000 && HasCategory(cats, kind)
    requires Answers(WordsNeeded(cats, kind, |before|), script)
    ensures var words := cats[FirstMatch(cats, kind, 0)].words;
      (CategoryRead(rom, kind, script, before) == (Success, Smaller(2 * |words|, |before|), Stored(BytesOf(words), before)))
      <==> |words| < 0x8000 || |before| <= 2 * |words| - 0x1_0000
  {
    var m := FirstMatch(cats, kind, 0);
    assert HoldsAt(rom, cats, m);
    WordsHeld(rom, cats, m);
    var words, bytes := cats[m].words, FirstBytes(cats, kind);
    hide *;
    CategoryIsFound(rom, cats, kind, before, script);
    WrappedIff(|words|, |before|);
    if Smaller(|bytes|, |before|) == Smaller(2 * |words|, |before|) {
      MatchFacts(cats, kind);
      IsPrefix(words);
      SameStored(bytes, BytesOf(words), before);
    }
  }

  lemma WrappedIff(words: u16, room: u16)
    ensures Smaller(ByteCount(words), room) == Smaller(2 * words, room) <==> words < 0x8000 || room <= 2 * words - 0x1_0000
  {
  }

  lemma SameStored(bytes: seq<byte>, all: seq<byte>, before: seq<byte>)
    requires bytes <= all && Smaller(|bytes|, |before|) == Smaller(|all|, |before|)
    ensures Stored(bytes, before) == Stored(all, before)
  {
  }

  // ---------- When the counted bytes are all stored ----------

  /** The counted bytes are the first of these. */
  ghost predicate Delivers(r: (Status, u16, seq<byte>), bytes: seq<byte>) {
    r.1 <= |bytes| && r.1 <= |r.2| && r.2[..r.1] == bytes[..r.1]
  }

  /** Whatever a buffer of this size held before, the bytes counted in *bytes_read are the category's. */
  ghost predicate CountedAreStored(rom: Rom, kind: u16, script: seq<Access>, bytes: seq<byte>, size: u16) {
    forall before: seq<byte> :: |before| == size ==> Delivers(CategoryRead(rom, kind, script, before), bytes)
  }

  /** A value that a byte does not have. */
  function Another(b: byte): (c: byte)
    ensures c != b
  {
    if b == 0 then 1 else 0
  }

  lemma StoredDelivers(bytes: seq<byte>, before: seq<byte>)
    requires |bytes| % 2 == 0 && |before| < 0x1_0000 && (|before| % 2 == 0 || |bytes| <= |before|)
    ensures Delivers((Success, Smaller(|bytes|, |before|), Stored(bytes, before)), bytes)
  {
  }

  lemma StoredMissesLast(bytes: seq<byte>, before: seq<byte>)
    requires |bytes| % 2 == 0 && |before| % 2 == 1 && |before| < |bytes| && |before| < 0x1_0000
    requires before[|before| - 1] != bytes[|before| - 1]
    ensures !Delivers((Success, Smaller(|bytes|, |before|), Stored(bytes, before)), bytes)
  {
    var n := |before|;
    var after := Stored(bytes, before);
    assert after[n - 1] == before[n - 1];
    assert after[..n][n - 1] != bytes[..n][n - 1];
  }

  /** The counted bytes are the category's, whatever the buffer held before, if and only if the buffer is even or at
      least as long as what the call returns of the category. */
  lemma CountedAreStoredIff(rom: Rom, cats: seq<Category>, kind: u16, size: u16, script: seq<Access>)
    requires Encodes(rom, cats) && HasCategory(cats, kind) && Answers(WordsNeeded(cats, kind, size), script)
    ensures CountedAreStored(rom, kind, script, FirstBytes(cats, kind), size)
        <==> size % 2 == 0 || |FirstBytes(cats, kind)| <= size
  {
    hide Encodes, FirstMatch, FirstBytes, CategoryRead, Stored, Delivers, WordsNeeded, Answers;
    var bytes := FirstBytes(cats, kind);
    EvenCount(|cats[FirstMatch(cats, kind, 0)].words|);
    if size % 2 == 0 || |bytes| <= size {
      forall before: seq<byte> | |before| == size
        ensures Delivers(CategoryRead(rom, kind, script, before), bytes)
      {
        CategoryIsFound(rom, cats, kind, before, script);
        StoredDelivers(bytes, before);
      }
    } else {
      var before: seq<byte> := seq(size, _ => Another(bytes[size - 1]));
      CategoryIsFound(rom, cats, kind, before, script);
      StoredMissesLast(bytes, before);
    }
  }

  /** An EEPROM with one category of one word, 0x1234. */
  function OneWordRom(): Rom {
    seq(0x1_0000, i => if i == 0x40 then 0x29 else if i == 0x41 then 1 else if i == 0x42 then 0x1234 else 0xFFFF)
  }

  /** A buffer of one byte: when both header words are answered, one byte is counted, and the buffer still holds what it
      held before. */
  lemma OneByteBufferStoresNothing(before: byte, script: seq<Access>)
    requires Answers(2, script)
    ensures CategoryRead(OneWordRom(), 0x29, script, [before]) == (Success, 1, [before])
    ensures BytesOf([0x1234])[0] == 0x34
  {
    var cats := [Category(0x29, [0x1234])];
    OneWordRomEncodes(cats);
    FirstByte(0x1234);
    hide BytesOf, CategoryRead, OneWordRom, Encodes, FirstMatch, StoredWords;
    assert |FirstBytes(cats, 0x29)| == 2;
    CategoryIsFound(OneWordRom(), cats, 0x29, [before], script);
    NoneStored(FirstBytes(cats, 0x29), [before]);
  }

  lemma OneWordRomEncodes(cats: seq<Category>)
    requires cats == [Category(0x29, [0x1234])]
    ensures Encodes(OneWordRom(), cats) && FirstMatch(cats, 0x29, 0) == 0
  {
    var rom := OneWordRom();
    assert StartOf(cats, 0) == 0x40;
    assert StartOf(cats, 1) == 0x43;
    assert rom[0x42..0x43] == [0x1234];
    assert HoldsAt(rom, cats, 0);
  }

  lemma FirstByte(word: u16)
    ensures |BytesOf([word])| == 2 && BytesOf([word])[0] == ToByte(word % 0x100)
  {
    assert BytesOf([word]) == BytesOf([]) + BytesOfU16(word);
  }
}
