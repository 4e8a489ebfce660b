/**
 The flat process image: pd_map_slave of src/master/process_data.c, and master_write_slave_output and
 master_read_slave_input of src/master/master.c.
 */
module ProcessImage {
  import opened Endian
  import opened Sums
  import opened Copies
  import opened Layout

  datatype Status = Success | Error | InvalidParam | BufferOverflow

  // ---------- pd_map_slave ----------

  /** The 32-bit end of the window does not exceed the image; an empty window is not looked at. */
  predicate Passes(offset: u32, size: u32, total: u32) {
    size > 0 ==> (offset + size) % WORD <= total
  }

  predicate SlavePasses(s: Slave, inputTotal: u32, outputTotal: u32) {
    Passes(s.inputOffset, s.inputSize, inputTotal) && Passes(s.outputOffset, s.outputSize, outputTotal)
  }

  method MapSlaves(mappings: seq<Slave>, inputTotal: u32, outputTotal: u32) returns (status: Status)
    ensures status == InvalidParam <==> mappings == []
    ensures status == Success <==> mappings != [] && forall i :: 0 <= i < |mappings| ==> SlavePasses(mappings[i], inputTotal, outputTotal)
    ensures status != Error
  {
    if |mappings| == 0 {
      return InvalidParam;
    }
    for i := 0 to |mappings|
      invariant forall j :: 0 <= j < i ==> SlavePasses(mappings[j], inputTotal, outputTotal)
    {
      var m := mappings[i];
      if m.inputSize > 0 {
        if (m.inputOffset + m.inputSize) % WORD > inputTotal {
          return BufferOverflow;
        }
      }
      if m.outputSize > 0 {
        if (m.outputOffset + m.outputSize) % WORD > outputTotal {
          return BufferOverflow;
        }
      }
    }
    return Success;
  }

  /** A window whose end does not wrap passes exactly if it is empty or lies in the image. */
  lemma PassesIff(offset: u32, size: u32, total: u32)
    requires offset + size < WORD
    ensures Passes(offset, size, total) <==> size == 0 || offset + size <= total
  {
  }

  /** The check lets a window through that leaves the image exactly when its 32-bit end wraps. */
  lemma PassingIsInsideIff(offset: u32, size: u32, total: u32)
    requires size > 0 && Passes(offset, size, total)
    ensures offset + size <= total <==> offset + size < WORD
  {
  }

  /** Mappings made from the calculated layout always pass, for an image of the calculated totals. */
  lemma LayoutPasses(slaves: seq<Slave>)
    requires Configured(slaves)
    ensures Sum(InputSizes(slaves)) < WORD && Sum(OutputSizes(slaves)) < WORD
    ensures forall i :: 0 <= i < |slaves| ==>
      SlavePasses(LaidOut(slaves)[i], Sum(InputSizes(slaves)), Sum(OutputSizes(slaves)))
  {
    LayoutIsExact(slaves);
    hide Offset, Sum, InputSizes, OutputSizes, LaidOut, Passes;
    var inputTotal, outputTotal := Sum(InputSizes(slaves)), Sum(OutputSizes(slaves));
    forall i | 0 <= i < |slaves|
      ensures SlavePasses(LaidOut(slaves)[i], inputTotal, outputTotal)
    {
      LaidOutAt(slaves, i);
      var m := LaidOut(slaves)[i];
      InsidePasses(m.inputOffset, m.inputSize, inputTotal);
      InsidePasses(m.outputOffset, m.outputSize, outputTotal);
    }
  }

  lemma InsidePasses(offset: u32, size: u32, total: u32)
    requires offset + size <= total
    ensures Passes(offset, size, total)
  {
  }

  // ---------- Writes and reads through the mappings ----------

  /** A call of master_write_slave_output. */
  datatype Write = Write(position: nat, data: seq<byte>)

  function WriteStatus(mappings: seq<Slave>, allocated': bool, w: Write): Status {
    if w.position >= |mappings| then InvalidParam
    else if !allocated' then Error
    else if |w.data| > mappings[w.position].outputSize then InvalidParam
    else Success
  }

  /** The bytes that an accepted write copies have their place in an image of this size. */
  predicate WriteInside(mappings: seq<Slave>, size: nat, w: Write) {
    WriteStatus(mappings, true, w) == Success && w.data != [] ==> mappings[w.position].outputOffset + |w.data| <= size
  }

  function ReadStatus(mappings: seq<Slave>, allocated': bool, position: nat, length: nat): Status {
    if position >= |mappings| then InvalidParam
    else if !allocated' then Error
    else if length > mappings[position].inputSize then InvalidParam
    else Success
  }

  predicate ReadInside(mappings: seq<Slave>, size: nat, position: nat, length: nat) {
    ReadStatus(mappings, true, position, length) == Success && length > 0 ==>
      mappings[position].inputOffset + length <= size
  }

  /** On mappings that pd_map_slave accepted, no write can leave the image if and only if no window's end wraps. */
  lemma WritesStayInsideIff(mappings: seq<Slave>, inputTotal: u32, outputTotal: u32)
    requires forall i :: 0 <= i < |mappings| ==> SlavePasses(mappings[i], inputTotal, outputTotal)
    ensures (forall w :: WriteInside(mappings, outputTotal, w))
       <==> forall i :: 0 <= i < |mappings| && mappings[i].outputSize > 0 ==> mappings[i].outputOffset + mappings[i].outputSize < WORD
  {
    forall i | 0 <= i < |mappings| && mappings[i].outputSize > 0
      ensures WriteInside(mappings, outputTotal, Whole(mappings, i)) <==>
              mappings[i].outputOffset + mappings[i].outputSize < WORD
    {
      PassingIsInsideIff(mappings[i].outputOffset, mappings[i].outputSize, outputTotal);
    }
    if forall i :: 0 <= i < |mappings| && mappings[i].outputSize > 0 ==> mappings[i].outputOffset + mappings[i].outputSize < WORD {
      forall w: Write ensures WriteInside(mappings, outputTotal, w) {
        if WriteStatus(mappings, true, w) == Success && w.data != [] {
          var m := mappings[w.position];
          PassingIsInsideIff(m.outputOffset, m.outputSize, outputTotal);
        }
      }
    }
  }

  /** The same for reads and the input windows. */
  lemma ReadsStayInsideIff(mappings: seq<Slave>, inputTotal: u32, outputTotal: u32)
    requires forall i :: 0 <= i < |mappings| ==> SlavePasses(mappings[i], inputTotal, outputTotal)
    ensures (forall position: nat, length: nat :: ReadInside(mappings, inputTotal, position, length))
       <==> forall i :: 0 <= i < |mappings| && mappings[i].inputSize > 0 ==> mappings[i].inputOffset + mappings[i].inputSize < WORD
  {
    forall i | 0 <= i < |mappings| && mappings[i].inputSize > 0
      ensures ReadInside(mappings, inputTotal, i, mappings[i].inputSize) <==>
              mappings[i].inputOffset + mappings[i].inputSize < WORD
    {
      PassingIsInsideIff(mappings[i].inputOffset, mappings[i].inputSize, inputTotal);
    }
  }

  /** A write of slave i's whole window. */
  function Whole(mappings: seq<Slave>, i: nat): Write
    requires i < |mappings|
  {
    Write(i, seq(mappings[i].outputSize, _ => 0))
  }

  function Written(mappings: seq<Slave>, image: seq<byte>, w: Write): (after: seq<byte>)
    requires WriteInside(mappings, |image|, w)
    ensures |after| == |image|
  {
    if WriteStatus(mappings, true, w) == Success && w.data != [] then
      Splice(image, mappings[w.position].outputOffset, w.data)
    else
      image
  }

  /** Every write up to the size of the window succeeds and is in the image at the window's offset, with all else as it was;
      a longer one and one for a slave that does not exist are invalid, and without an image there is an error. */
  lemma WriteSucceedsIff(mappings: seq<Slave>, image: seq<byte>, w: Write)
    requires WriteInside(mappings, |image|, w)
    ensures WriteStatus(mappings, true, w) ==
      if w.position < |mappings| && |w.data| <= mappings[w.position].outputSize then Success else InvalidParam
    ensures WriteStatus(mappings, false, w) == if w.position < |mappings| then Error else InvalidParam
    ensures var after := Written(mappings, image, w);
      if WriteStatus(mappings, true, w) == Success then
        var at := mappings[w.position].outputOffset;
        && (forall i :: 0 <= i < |w.data| ==> at + i < |image| && after[at + i] == w.data[i])
        && (forall i :: 0 <= i < |image| && !(at <= i < at + |w.data|) ==> after[i] == image[i])
      else after == image
  {
  }

  /** The same of reads: refused beyond the input window. */
  lemma ReadSucceedsIff(mappings: seq<Slave>, position: nat, length: nat)
    ensures ReadStatus(mappings, true, position, length) ==
      if position < |mappings| && length <= mappings[position].inputSize then Success else InvalidParam
    ensures ReadStatus(mappings, false, position, length) == if position < |mappings| then Error else InvalidParam
  {
  }

  class Image {
    var inputs: array<byte>
    var outputs: array<byte>
    var mappings: seq<Slave>
    var pdAllocated: bool

    ghost predicate Valid()
      reads this
    {
      inputs != outputs
    }

    /** The process image is allocated for these mappings, zero filled. */
    constructor (mappings: seq<Slave>, inputTotal: u32, outputTotal: u32)
      ensures Valid() && fresh(inputs) && fresh(outputs) && pdAllocated && this.mappings == mappings
      ensures inputs.Length == inputTotal && outputs.Length == outputTotal
      ensures forall k :: 0 <= k < outputTotal ==> outputs[k] == 0
    {
      inputs := new byte[inputTotal](_ => 0);
      outputs := new byte[outputTotal](_ => 0);
      this.mappings, pdAllocated := mappings, true;
    }

    /** master_write_slave_output */
    method WriteSlaveOutput(position: nat, data: seq<byte>) returns (status: Status)
      requires Valid() && (pdAllocated ==> WriteInside(mappings, outputs.Length, Write(position, data)))
      modifies outputs
      ensures Valid() && status == WriteStatus(mappings, pdAllocated, Write(position, data))
      ensures outputs[..] == if pdAllocated then Written(mappings, old(outputs[..]), Write(position, data)) else old(outputs[..])
    {
      if position >= |mappings| {
        return InvalidParam;
      }
      if !pdAllocated {
        return Error;
      }
      if |data| > mappings[position].outputSize {
        return InvalidParam;
      }
      // A memcpy of no bytes touches nothing, wherever the window lies.
      if data != [] {
        CopyInto(outputs, mappings[position].outputOffset, data);
      }
      return Success;
    }

    /** master_read_slave_input */
    method ReadSlaveInput(position: nat, length: u32) returns (status: Status, data: seq<byte>)
      requires Valid() && (pdAllocated ==> ReadInside(mappings, inputs.Length, position, length))
      ensures status == ReadStatus(mappings, pdAllocated, position, length)
      ensures status != Success || length == 0 ==> data == []
      ensures status == Success && length > 0 ==>
        data == inputs[mappings[position].inputOffset..mappings[position].inputOffset + length]
    {
      if position >= |mappings| {
        return InvalidParam, [];
      }
      if !pdAllocated {
        return Error, [];
      }
      if length > mappings[position].inputSize {
        return InvalidParam, [];
      }
      if length == 0 {
        return Success, [];
      }
      var offset := mappings[position].inputOffset;
      return Success, inputs[offset..offset + length];
    }
  }

  // ---------- The flat image is one store per slave ----------

  function Flat(stores: seq<seq<byte>>): seq<byte> {
    if stores == [] then [] else Flat(stores[..|stores| - 1]) + stores[|stores| - 1]
  }

  /** Slave i has a store of its size. */
  ghost predicate Sized(stores: seq<seq<byte>>, sizes: seq<nat>) {
    |stores| == |sizes| && forall i :: 0 <= i < |stores| ==> |stores[i]| == sizes[i]
  }

  lemma {:induction false} FlatLength(stores: seq<seq<byte>>, sizes: seq<nat>)
    requires Sized(stores, sizes)
    ensures |Flat(stores)| == Sum(sizes)
    decreases |stores|
  {
    if stores != [] {
      FlatLength(stores[..|stores| - 1], sizes[..|sizes| - 1]);
    }
  }

  /** A change in the front part leaves the rest alone. */
  lemma SpliceInFront(front: seq<byte>, rest: seq<byte>, at: nat, part: seq<byte>)
    requires at + |part| <= |front|
    ensures Splice(front + rest, at, part) == Splice(front, at, part) + rest
    ensures (front + rest)[at..at + |part|] == front[at..at + |part|]
  {
  }

  lemma SpliceAtEnd(front: seq<byte>, rest: seq<byte>, part: seq<byte>)
    requires |part| == |rest|
    ensures Splice(front + rest, |front|, part) == front + part
    ensures (front + rest)[|front|..|front| + |rest|] == rest
  {
  }

  /** Slave i's window of the flat image is its store, and a change inside it is a change of the store. */
  lemma {:induction false} FlatWindow(stores: seq<seq<byte>>, sizes: seq<nat>, i: nat, store: seq<byte>)
    requires Sized(stores, sizes) && i < |stores| && |store| == |stores[i]|
    ensures Offset(sizes, i) + |stores[i]| <= |Flat(stores)|
    ensures Flat(stores)[Offset(sizes, i)..Offset(sizes, i) + |stores[i]|] == stores[i]
    ensures Flat(stores[i := store]) == Splice(Flat(stores), Offset(sizes, i), store)
    decreases |stores|
  {
    var n := |stores| - 1;
    var front, last := stores[..n], stores[n];
    FlatLength(front, sizes[..n]);
    var changed := stores[i := store];
    assert Flat(stores) == Flat(front) + last && Flat(changed) == Flat(changed[..n]) + changed[n];
    hide Flat, Splice;
    if i == n {
      assert changed[..n] == front;
      SpliceAtEnd(Flat(front), last, store);
    } else {
      FlatWindow(front, sizes[..n], i, store);
      assert sizes[..n][..i] == sizes[..i];
      assert changed[..n] == front[i := store];
      SpliceInFront(Flat(front), last, Offset(sizes, i), store);
    }
  }

  lemma SpliceFront(s: seq<byte>, at: nat, store: seq<byte>, data: seq<byte>)
    requires at + |store| <= |s| && s[at..at + |store|] == store && |data| <= |store|
    ensures Splice(s, at, data) == Splice(s, at, Overlay(store, data))
  {
    assert store[|data|..] == s[at + |data|..at + |store|];
  }

  /** The same call on a store per slave. */
  function Stored(mappings: seq<Slave>, stores: seq<seq<byte>>, w: Write): (after: seq<seq<byte>>)
    requires Sized(stores, OutputSizes(mappings))
    ensures Sized(after, OutputSizes(mappings))
  {
    if WriteStatus(mappings, true, w) == Success then stores[w.position := Overlay(stores[w.position], w.data)] else stores
  }

  /** Among the stores, a write that fits puts its bytes in front of the slave's store and leaves the others alone. */
  lemma WriteIsStored(mappings: seq<Slave>, stores: seq<seq<byte>>, w: Write)
    requires Sized(stores, OutputSizes(mappings))
    ensures var after := Stored(mappings, stores, w);
      && (forall i :: 0 <= i < |stores| && i != w.position ==> after[i] == stores[i])
      && (w.position < |mappings| && |w.data| <= mappings[w.position].outputSize ==>
            after[w.position] == w.data + stores[w.position][|w.data|..])
  {
  }

  function WrittenAll(mappings: seq<Slave>, image: seq<byte>, writes: seq<Write>): (after: seq<byte>)
    requires forall i :: 0 <= i < |writes| ==> WriteInside(mappings, |image|, writes[i])
    ensures |after| == |image|
    decreases |writes|
  {
    if writes == [] then image else WrittenAll(mappings, Written(mappings, image, writes[0]), writes[1..])
  }

  function StoredAll(mappings: seq<Slave>, stores: seq<seq<byte>>, writes: seq<Write>): (after: seq<seq<byte>>)
    requires Sized(stores, OutputSizes(mappings))
    ensures Sized(after, OutputSizes(mappings))
    decreases |writes|
  {
    if writes == [] then stores else StoredAll(mappings, Stored(mappings, stores, writes[0]), writes[1..])
  }

  /** The mappings are those of a calculated layout. */
  ghost predicate FromLayout(mappings: seq<Slave>) {
    Configured(mappings) && LaidOut(mappings) == mappings
  }

  /** Every input window lies in an image of this size, and every output window in one of that size. */
  ghost predicate Mapped(mappings: seq<Slave>, inputTotal: nat, outputTotal: nat) {
    forall i :: 0 <= i < |mappings| ==>
      && mappings[i].inputOffset + mappings[i].inputSize <= inputTotal
      && mappings[i].outputOffset + mappings[i].outputSize <= outputTotal
  }

  lemma LayoutIsMapped(slaves: seq<Slave>)
    requires Configured(slaves)
    ensures FromLayout(LaidOut(slaves)) && Mapped(LaidOut(slaves), Sum(InputSizes(slaves)), Sum(OutputSizes(slaves)))
    ensures InputSizes(LaidOut(slaves)) == InputSizes(slaves) && OutputSizes(LaidOut(slaves)) == OutputSizes(slaves)
  {
    LayoutIsExact(slaves);
    assert InputSizes(LaidOut(slaves)) == InputSizes(slaves) && OutputSizes(LaidOut(slaves)) == OutputSizes(slaves);
    assert LaidOut(LaidOut(slaves)) == LaidOut(slaves);
  }

  lemma OneWrite(mappings: seq<Slave>, stores: seq<seq<byte>>, w: Write)
    requires FromLayout(mappings) && Sized(stores, OutputSizes(mappings))
    ensures |Flat(stores)| == Sum(OutputSizes(mappings)) && Mapped(mappings, Sum(InputSizes(mappings)), |Flat(stores)|)
    ensures Written(mappings, Flat(stores), w) == Flat(Stored(mappings, stores, w))
  {
    hide Flat, Splice, Offset, Sum, InputSizes, OutputSizes, LaidOut, Configured, Overlay;
    FlatLength(stores, OutputSizes(mappings));
    LayoutIsMapped(mappings);
    if WriteStatus(mappings, true, w) == Success {
      var i := w.position;
      var sizes := OutputSizes(mappings);
      LayoutIsExact(mappings);
      LaidOutAt(mappings, i);
      OverlayLength(stores[i], w.data);
      FlatWindow(stores, sizes, i, Overlay(stores[i], w.data));
      SpliceFront(Flat(stores), Offset(sizes, i), stores[i], w.data);
      NothingSpliced(Flat(stores), Offset(sizes, i), w.data);
    }
  }

  lemma NothingSpliced(s: seq<byte>, at: nat, data: seq<byte>)
    requires at + |data| <= |s|
    ensures data == [] ==> Splice(s, at, data) == s
  {
  }

  lemma OverlayLength(buffer: seq<byte>, got: seq<byte>)
    requires |got| <= |buffer|
    ensures |Overlay(buffer, got)| == |buffer|
  {
  }

  /** Isolation: under any sequence of output writes the flat image is what an independent store per slave holds. */
  lemma {:induction false} WritesAreIsolated(mappings: seq<Slave>, stores: seq<seq<byte>>, writes: seq<Write>)
    requires FromLayout(mappings) && Sized(stores, OutputSizes(mappings))
    ensures Mapped(mappings, Sum(InputSizes(mappings)), |Flat(stores)|)
    ensures WrittenAll(mappings, Flat(stores), writes) == Flat(StoredAll(mappings, stores, writes))
    decreases |writes|
  {
    if writes == [] {
      FlatLength(stores, OutputSizes(mappings));
      LayoutIsMapped(mappings);
    } else {
      OneWrite(mappings, stores, writes[0]);
      WritesAreIsolated(mappings, Stored(mappings, stores, writes[0]), writes[1..]);
    }
  }

  /** A slave's input read sees its own store, whatever the stores of the others hold. */
  lemma ReadsAreIsolated(mappings: seq<Slave>, stores: seq<seq<byte>>, position: nat, length: nat)
    requires FromLayout(mappings) && Sized(stores, InputSizes(mappings))
    requires position < |mappings| && length <= mappings[position].inputSize
    ensures var offset := mappings[position].inputOffset;
      offset + length <= |Flat(stores)| && Flat(stores)[offset..offset + length] == stores[position][..length]
  {
    hide Flat, Splice, Offset, Sum, InputSizes, OutputSizes, LaidOut;
    LayoutIsExact(mappings);
    LaidOutAt(mappings, position);
    FlatWindow(stores, InputSizes(mappings), position, stores[position]);
    Shorter(Flat(stores), mappings[position].inputOffset, |stores[position]|, length);
  }

  lemma Shorter(s: seq<byte>, at: nat, n: nat, length: nat)
    requires at + n <= |s| && length <= n
    ensures s[at..at + length] == s[at..at + n][..length]
  {
  }
}
