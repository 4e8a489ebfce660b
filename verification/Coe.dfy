/**
 CoE mailbox messages as the SDO client of src/al/coe.c reads and writes them (section 5.6 of ETG.1000.6,
 section 7.2.4.3 of CiA 301). Command bytes are split by the bit-field layouts of include/ethercat/coe.h,
 which are the repository's own.
 */
module Coe {
  import opened Endian
  import opened Mailboxes

  /** coe_status_t; MailboxStatus is an error of al_mailbox_send that is handed on as it is. */
  datatype Status = Success | Error | Timeout | Abort | InvalidParam | MailboxStatus

  const SDO_RESPONSE := 3
  const ABORT := 4
  const SEGMENT_SIZE := 7

  /** Seven bytes of the receive buffer. */
  type Block = s: seq<byte> | |s| == SEGMENT_SIZE witness [0, 0, 0, 0, 0, 0, 0]

  const NO_BYTES: Block := [0, 0, 0, 0, 0, 0, 0]

  /**
   One received mailbox message. The size and payload fields stand for what the receive buffer holds where a
   response has its data: size is that word as a number. What lies beyond length is never read.
   */
  datatype Message = Message(isCoe: bool, length: nat, service: nat, command: nat, index: nat, subindex: nat,
                             size: u32, payload: Block)
  {
    /** The message passes the type, length and service checks of a receive loop. */
    predicate IsResponse(structSize: nat) {
      isCoe && length >= 2 + structSize && service == SDO_RESPONSE
    }
  }

  // sdo_command_byte_t
  function InitSpecifier(command: nat): nat { command % 8 }
  function InitUnused(command: nat): nat { command / 16 % 4 }
  function InitExpedited(command: nat): nat { command / 64 % 2 }

  // sdo_segment_command_byte_t
  function SegmentToggle(command: nat): nat { command % 2 }
  function SegmentUnused(command: nat): nat { command / 2 % 8 }
  function SegmentLast(command: nat): nat { command / 16 % 2 }
  function SegmentSpecifier(command: nat): nat { command / 32 % 8 }

  /** The command byte a server puts on a segment: toggle, unused count, last flag, specifier 0. */
  function SegmentCommandOf(toggle: nat, unused: nat, last: bool): nat {
    toggle + 2 * unused + (if last then 16 else 0)
  }

  lemma SegmentCommandFields(toggle: nat, unused: nat, last: bool)
    requires toggle <= 1 && unused <= 7
    ensures var c := SegmentCommandOf(toggle, unused, last);
      SegmentToggle(c) == toggle && SegmentUnused(c) == unused && (SegmentLast(c) == 1 <==> last) && SegmentSpecifier(c) == 0
  {
    var c := SegmentCommandOf(toggle, unused, last);
    var flag := if last then 1 else 0;
    assert c == toggle + 2 * (unused + 8 * flag);
    assert c / 2 == unused + 8 * flag;
    assert c / 16 == flag;
  }

  /** What one iteration of a receive loop finds: the deadline passed, nothing usable, or a message. */
  datatype Poll = TimedOut | Nothing | Arrived(message: Message)

  type Answer = Event<Poll>

  /** The bytes of an object in segments of at most seven. */
  function SegmentCount(size: nat): nat {
    (size + 6) / 7
  }

  function SegmentEnd(size: nat, k: nat): nat {
    if 7 * k + 7 < size then 7 * k + 7 else size
  }

  function SegmentBytes(data: seq<byte>, k: nat): seq<byte>
    requires 7 * k <= |data|
  {
    data[7 * k..SegmentEnd(|data|, k)]
  }

  lemma SegmentCountBounds(size: nat, k: nat)
    ensures k < SegmentCount(size) <==> 7 * k < size
    ensures k + 1 == SegmentCount(size) <==> 7 * k < size <= 7 * k + 7
  {
  }
}
