/** Copies of received bytes into a caller's buffer, as coe_sdo_upload and foe_read make them. */
module Copies {
  import opened Endian

  /** One memcpy: the offset, the bytes, and what the message it came from was marked with. */
  datatype Copy<+T> = Copy(at: nat, bytes: seq<byte>, mark: T)

  function Joined<T>(copies: seq<Copy<T>>): seq<byte> {
    if copies == [] then [] else Joined(copies[..|copies| - 1]) + copies[|copies| - 1].bytes
  }

  /** Every copy ends within the capacity. */
  ghost predicate Inside<T>(capacity: nat, copies: seq<Copy<T>>) {
    forall i :: 0 <= i < |copies| ==> copies[i].at + |copies[i].bytes| <= capacity
  }

  /** Each copy starts where the one before ended, the first at offset 0. */
  ghost predicate EndToEnd<T>(copies: seq<Copy<T>>) {
    forall i :: 0 <= i < |copies| ==> copies[i].at == |Joined(copies[..i])|
  }

  lemma NoCopies<T>(copies: seq<Copy<T>>, capacity: nat)
    requires copies == []
    ensures Joined(copies) == [] && EndToEnd(copies) && Inside(capacity, copies)
  {
  }

  lemma JoinedAppend<T>(copies: seq<Copy<T>>, c: Copy<T>)
    ensures Joined(copies + [c]) == Joined(copies) + c.bytes
  {
    assert (copies + [c])[..|copies|] == copies;
  }

  lemma AppendCopy<T>(capacity: nat, copies: seq<Copy<T>>, c: Copy<T>)
    requires EndToEnd(copies) && Inside(capacity, copies)
    requires c.at == |Joined(copies)| && c.at + |c.bytes| <= capacity
    ensures EndToEnd(copies + [c]) && Inside(capacity, copies + [c])
    ensures Joined(copies + [c]) == Joined(copies) + c.bytes
  {
    JoinedAppend(copies, c);
    hide Joined;
    var longer := copies + [c];
    forall i | 0 <= i < |longer|
      ensures longer[i].at == |Joined(longer[..i])|
    {
      assert longer[..i] == if i < |copies| then copies[..i] else copies;
    }
  }

  /** A buffer with the received bytes over its front. */
  function Overlay(buffer: seq<byte>, got: seq<byte>): seq<byte>
    requires |got| <= |buffer|
  {
    got + buffer[|got|..]
  }

  lemma OverlayExtends(buffer: seq<byte>, got: seq<byte>, more: seq<byte>)
    requires |got| + |more| <= |buffer|
    ensures Splice(Overlay(buffer, got), |got|, more) == Overlay(buffer, got + more)
  {
  }
}
