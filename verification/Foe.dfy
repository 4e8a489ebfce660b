/** FoE messages and the mailbox turns of src/al/foe.c (section 5.8 of ETG.1000.6). */
module Foe {
  import opened Endian

  const MAX_DATA := 512
  const MAX_BUSY_RETRIES := 50
  const MAX_FILENAME := 256

  const OP_DATA := 3
  const OP_ACK := 4
  const OP_BUSY := 6

  datatype Status = Success | Error | Timeout | Busy | InvalidParam | MailboxError

  /** What the receive buffer of 518 bytes can hold behind the six-byte header. */
  type Body = s: seq<byte> | |s| <= MAX_DATA

  /** A received FoE message: shorter than its header, or header fields and the bytes behind them. */
  datatype Message = Short | Message(opcode: nat, number: u32, body: Body)

  datatype Parsed = Failed(status: Status) | Data(number: u32, body: Body) | Ack(number: u32) | Retry

  /** foe_parse_response */
  function Parse(m: Message): Parsed {
    if m.Short? then Failed(InvalidParam)
    else if m.opcode == OP_ACK then Ack(m.number)
    else if m.opcode == OP_DATA then Data(m.number, m.body)
    else if m.opcode == OP_BUSY then Retry
    else Failed(Error)
  }

  /** The outcomes of foe_receive_mailbox over a mailbox that holds FoE messages only. */
  datatype Reception = Received(message: Message) | NoMessage | Broken

  /** foe_receive_mailbox and foe_parse_response in a row. */
  function Reply(r: Reception): Parsed {
    match r
    case Received(m) => Parse(m)
    case NoMessage => Failed(Timeout)
    case Broken => Failed(MailboxError)
  }

  /** What one turn of a transfer loop meets: the overall deadline, the mailbox on sending, and on receiving. */
  datatype Turn = Turn(late: bool, sendOk: bool, reception: Reception)

  /** What the transfer puts into the mailbox. */
  datatype Packet =
    | ReadRequest(filename: string)
    | WriteRequest(filename: string)
    | DataPacket(number: u32, body: seq<byte>)
    | AckPacket(number: u32)

  predicate NameOk(filename: string) {
    0 < |filename| < MAX_FILENAME
  }

  /** The mailbox and the clock, scripted turn by turn. */
  class Link {
    var script: seq<Turn>
    var outbox: seq<Packet>

    constructor (turns: seq<Turn>)
      ensures script == turns && outbox == []
    {
      script, outbox := turns, [];
    }

    /** foe_send_mailbox */
    method Send(p: Packet) returns (ok: bool)
      requires script != []
      modifies this`outbox
      ensures ok == script[0].sendOk
      ensures outbox == if ok then old(outbox) + [p] else old(outbox)
    {
      ok := script[0].sendOk;
      if ok {
        outbox := outbox + [p];
      }
    }

    method EndTurn()
      requires script != []
      modifies this`script
      ensures script == old(script)[1..]
    {
      script := script[1..];
    }
  }
}
