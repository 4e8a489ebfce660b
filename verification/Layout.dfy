/** Process data sizes and offsets: config_configure_slave and config_calculate_process_data of src/master/config.c. */
module Layout {
  import opened Endian
  import opened Sums

  const PROCESS_DATA_WRITE := 2
  const PROCESS_DATA_READ := 3

  /** A sync manager as read from the SII: its type and its length in bytes. */
  datatype SyncManager = SyncManager(kind: nat, length: u16)

  /** The process data fields of slave_config_t, and with them of pd_slave_mapping_t. */
  datatype Slave = Slave(inputSize: u32, outputSize: u32, inputOffset: u32, outputOffset: u32)

  function LengthsOf(sms: seq<SyncManager>, kind: nat): seq<nat> {
    seq(|sms|, i requires 0 <= i < |sms| => if sms[i].kind == kind then sms[i].length else 0)
  }

  /** One more sync manager counts with its length in its own direction, and not at all in others. */
  lemma SizeGrows(sms: seq<SyncManager>, sm: SyncManager, kind: nat)
    ensures Sum(LengthsOf(sms + [sm], kind)) == Sum(LengthsOf(sms, kind)) + (if sm.kind == kind then sm.length else 0)
    ensures Sum(LengthsOf([], kind)) == 0
  {
    var lengths := LengthsOf(sms, kind);
    assert LengthsOf(sms + [sm], kind) == lengths + [if sm.kind == kind then sm.length else 0];
    SumAppend(lengths, if sm.kind == kind then sm.length else 0);
  }

  /** Lines 616-624: what a slave's sync managers add up to in each direction. */
  method SizesOf(sms: seq<SyncManager>) returns (input: u32, output: u32)
    ensures input == Sum(LengthsOf(sms, 3)) % WORD && output == Sum(LengthsOf(sms, 2)) % WORD
  {
    input, output := 0, 0;
    ghost var ins, outs := 0, 0;
    for i := 0 to |sms|
      invariant ins == Sum(LengthsOf(sms, PROCESS_DATA_READ)[..i]) && input == ins % WORD
      invariant outs == Sum(LengthsOf(sms, PROCESS_DATA_WRITE)[..i]) && output == outs % WORD
    {
      NextPrefix(LengthsOf(sms, PROCESS_DATA_READ), i);
      NextPrefix(LengthsOf(sms, PROCESS_DATA_WRITE), i);
      if sms[i].kind == PROCESS_DATA_READ {
        AddWraps(ins, sms[i].length);
        input := (input + sms[i].length) % WORD;
        ins := ins + sms[i].length;
      } else if sms[i].kind == PROCESS_DATA_WRITE {
        AddWraps(outs, sms[i].length);
        output := (output + sms[i].length) % WORD;
        outs := outs + sms[i].length;
      }
    }
    WholePrefix(LengthsOf(sms, PROCESS_DATA_READ));
    WholePrefix(LengthsOf(sms, PROCESS_DATA_WRITE));
  }

  lemma NextPrefix(s: seq<nat>, i: nat)
    requires i < |s|
    ensures Sum(s[..i + 1]) == Sum(s[..i]) + s[i]
  {
    assert s[..i + 1] == s[..i] + [s[i]];
    SumAppend(s[..i], s[i]);
  }

  lemma WholePrefix(s: seq<nat>)
    ensures Sum(s[..|s|]) == Sum(s)
  {
    assert s[..|s|] == s;
  }

  lemma AddWraps(a: nat, b: nat)
    ensures (a % WORD + b) % WORD == (a + b) % WORD
  {
    var q := a / 0x1_0000_0000;
    assert a == q * 0x1_0000_0000 + a % 0x1_0000_0000;
    var t := a % 0x1_0000_0000 + b;
    assert a + b == q * 0x1_0000_0000 + t;
  }

  function InputSizes(slaves: seq<Slave>): (sizes: seq<nat>)
    ensures |sizes| == |slaves|
  {
    seq(|slaves|, i requires 0 <= i < |slaves| => slaves[i].inputSize)
  }

  function OutputSizes(slaves: seq<Slave>): (sizes: seq<nat>)
    ensures |sizes| == |slaves|
  {
    seq(|slaves|, i requires 0 <= i < |slaves| => slaves[i].outputSize)
  }

  /** Where slave i starts when the slaves before it are laid end to end. */
  function Offset(sizes: seq<nat>, i: nat): nat
    requires i <= |sizes|
  {
    Sum(sizes[..i])
  }

  /** Each slave with its 32-bit offsets. */
  function LaidOut(slaves: seq<Slave>): (laid: seq<Slave>)
    ensures |laid| == |slaves|
  {
    seq(|slaves|, i requires 0 <= i < |slaves| =>
      slaves[i].(inputOffset := Offset(InputSizes(slaves), i) % WORD, outputOffset := Offset(OutputSizes(slaves), i) % WORD))
  }

  lemma LaidOutAt(slaves: seq<Slave>, i: nat)
    requires i < |slaves|
    ensures InputSizes(slaves)[i] == slaves[i].inputSize && OutputSizes(slaves)[i] == slaves[i].outputSize
    ensures LaidOut(slaves)[i] == slaves[i].(inputOffset := Offset(InputSizes(slaves), i) % WORD,
                                             outputOffset := Offset(OutputSizes(slaves), i) % WORD)
  {
  }

  lemma NextOffset(sizes: seq<nat>, i: nat, offset: u32)
    requires i < |sizes| && offset == Offset(sizes, i) % WORD
    ensures (offset + sizes[i]) % WORD == Offset(sizes, i + 1) % WORD
  {
    NextPrefix(sizes, i);
    AddWraps(Offset(sizes, i), sizes[i]);
  }

  /** config_calculate_process_data */
  method CalculateProcessData(slaves: array<Slave>) returns (totalInput: u32, totalOutput: u32)
    modifies slaves
    ensures slaves[..] == LaidOut(old(slaves[..]))
    ensures totalInput == Sum(InputSizes(old(slaves[..]))) % WORD
    ensures totalOutput == Sum(OutputSizes(old(slaves[..]))) % WORD
  {
    ghost var before := slaves[..];
    ghost var ins, outs := InputSizes(before), OutputSizes(before);
    totalInput, totalOutput := 0, 0;
    assert Offset(ins, 0) == Offset(outs, 0) == 0;
    hide InputSizes, OutputSizes, LaidOut, Offset, Sum;
    for i := 0 to slaves.Length
      invariant totalInput == Offset(ins, i) % WORD && totalOutput == Offset(outs, i) % WORD
      invariant forall j :: 0 <= j < i ==> slaves[j] == LaidOut(before)[j]
      invariant forall j :: i <= j < slaves.Length ==> slaves[j] == before[j]
    {
      LaidOutAt(before, i);
      NextOffset(ins, i, totalInput);
      NextOffset(outs, i, totalOutput);
      slaves[i] := slaves[i].(inputOffset := totalInput);
      totalInput := (totalInput + slaves[i].inputSize) % WORD;
      slaves[i] := slaves[i].(outputOffset := totalOutput);
      totalOutput := (totalOutput + slaves[i].outputSize) % WORD;
    }
    LastOffset(ins);
    LastOffset(outs);
  }

  lemma LastOffset(sizes: seq<nat>)
    ensures Offset(sizes, |sizes|) == Sum(sizes)
  {
    WholePrefix(sizes);
  }

  // ---------- How many slaves never overflow the 32-bit sums ----------

  /** The exact sizes, slave by slave, of these sync managers in one direction. */
  function SizesOfAll(all: seq<seq<SyncManager>>, kind: nat): (sizes: seq<nat>)
    ensures |sizes| == |all|
  {
    seq(|all|, i requires 0 <= i < |all| => Sum(LengthsOf(all[i], kind)))
  }

  /** No sum of n slaves with at most 16 sync managers each reaches 2^32: not of one slave, not of all. */
  ghost predicate NeverOverflows(n: nat) {
    forall all: seq<seq<SyncManager>>, kind: nat ::
      |all| == n && (forall i :: 0 <= i < n ==> |all[i]| <= 16) ==> Sum(SizesOfAll(all, kind)) < WORD
  }

  lemma SlaveFits(sms: seq<SyncManager>, kind: nat)
    requires |sms| <= 16
    ensures Sum(LengthsOf(sms, kind)) <= 1048560
  {
    SumBound(LengthsOf(sms, kind), 0xFFFF);
  }

  function LargestSlave(): seq<SyncManager> {
    seq(16, _ => SyncManager(PROCESS_DATA_READ, 0xFFFF))
  }

  lemma {:induction false} ConstantSum(x: nat, n: nat)
    ensures Sum(seq(n, _ => x)) == x * n
    decreases n
  {
    if n > 0 {
      var s := seq(n, _ => x);
      assert s[..n - 1] == seq(n - 1, _ => x);
      ConstantSum(x, n - 1);
      assert x * n == x * (n - 1) + x;
    }
  }

  lemma LargestSlaveSize()
    ensures Sum(LengthsOf(LargestSlave(), PROCESS_DATA_READ)) == 1048560
  {
    assert LengthsOf(LargestSlave(), PROCESS_DATA_READ) == seq(16, _ => 0xFFFF);
    ConstantSum(0xFFFF, 16);
  }

  /** The 32-bit offsets and totals are exact for every configuration exactly up to 4096 slaves. */
  lemma NeverOverflowsIff(n: nat)
    ensures NeverOverflows(n) <==> n <= 4096
  {
    if n <= 4096 {
      forall all: seq<seq<SyncManager>>, kind: nat
        | |all| == n && (forall i :: 0 <= i < n ==> |all[i]| <= 16)
        ensures Sum(SizesOfAll(all, kind)) < WORD
      {
        forall i | 0 <= i < n
          ensures SizesOfAll(all, kind)[i] <= 1048560
        {
          SlaveFits(all[i], kind);
        }
        SumBound(SizesOfAll(all, kind), 1048560);
      }
    } else {
      var all := seq(n, _ => LargestSlave());
      LargestSlaveSize();
      assert SizesOfAll(all, PROCESS_DATA_READ) == seq(n, _ => 1048560);
      ConstantSum(1048560, n);
      assert Sum(SizesOfAll(all, PROCESS_DATA_READ)) >= WORD;
    }
  }

  // ---------- The windows tile the image ----------

  /** Byte p of the image belongs to slave i. */
  ghost predicate Owns(sizes: seq<nat>, i: nat, p: nat) {
    i < |sizes| && Offset(sizes, i) <= p < Offset(sizes, i) + sizes[i]
  }

  lemma WindowEnds(sizes: seq<nat>, i: nat)
    requires i < |sizes|
    ensures Offset(sizes, i) + sizes[i] <= Sum(sizes)
  {
    SumPrefix(sizes, i, |sizes|);
    WholePrefix(sizes);
  }

  lemma {:induction false} OwnerExists(sizes: seq<nat>, p: nat) returns (i: nat)
    requires p < Sum(sizes)
    ensures Owns(sizes, i, p)
    decreases |sizes|
  {
    var n := |sizes| - 1;
    var front := sizes[..n];
    if p < Sum(front) {
      i := OwnerExists(front, p);
      assert front[..i] == sizes[..i];
    } else {
      i := n;
    }
  }

  ghost predicate HasOwner(sizes: seq<nat>, p: nat) {
    exists i: nat :: Owns(sizes, i, p)
  }

  /** Every byte below the total has exactly one owner, and no byte beyond it has one. */
  lemma WindowsTile(sizes: seq<nat>)
    ensures forall p: nat :: HasOwner(sizes, p) <==> p < Sum(sizes)
    ensures forall i: nat, j: nat, p: nat :: Owns(sizes, i, p) && Owns(sizes, j, p) ==> i == j
  {
    forall p: nat
      ensures HasOwner(sizes, p) <==> p < Sum(sizes)
    {
      if p < Sum(sizes) {
        var i := OwnerExists(sizes, p);
      } else if HasOwner(sizes, p) {
        var i: nat :| Owns(sizes, i, p);
        WindowEnds(sizes, i);
      }
    }
    forall i: nat, j: nat, p: nat | Owns(sizes, i, p) && Owns(sizes, j, p)
      ensures i == j
    {
      if i < j {
        SumPrefix(sizes, i, j);
      } else if j < i {
        SumPrefix(sizes, j, i);
      }
    }
  }

  // ---------- What 4096 slaves leave exact ----------

  /** Each slave's sizes are what at most 16 sync managers can give. */
  ghost predicate Configured(slaves: seq<Slave>) {
    && |slaves| <= 4096
    && forall i :: 0 <= i < |slaves| ==> slaves[i].inputSize <= 1048560 && slaves[i].outputSize <= 1048560
  }

  /** The 32-bit layout is the exact one: offsets end to end, windows inside the exact totals. */
  lemma LayoutIsExact(slaves: seq<Slave>)
    requires Configured(slaves)
    ensures var ins, outs := InputSizes(slaves), OutputSizes(slaves);
      && Sum(ins) < WORD && Sum(outs) < WORD
      && forall i :: 0 <= i < |slaves| ==>
           && LaidOut(slaves)[i].inputOffset == Offset(ins, i) && Offset(ins, i) + ins[i] <= Sum(ins)
           && LaidOut(slaves)[i].outputOffset == Offset(outs, i) && Offset(outs, i) + outs[i] <= Sum(outs)
  {
    var ins, outs := InputSizes(slaves), OutputSizes(slaves);
    SumBound(ins, 1048560);
    SumBound(outs, 1048560);
    hide InputSizes, OutputSizes, LaidOut, Offset, Sum;
    forall i | 0 <= i < |slaves|
      ensures LaidOut(slaves)[i].inputOffset == Offset(ins, i) && Offset(ins, i) + ins[i] <= Sum(ins)
      ensures LaidOut(slaves)[i].outputOffset == Offset(outs, i) && Offset(outs, i) + outs[i] <= Sum(outs)
    {
      WindowEnds(ins, i);
      WindowEnds(outs, i);
      LaidOutAt(slaves, i);
    }
  }
}
