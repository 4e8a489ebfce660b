/** The mailbox of one slave as src/al/coe.c and src/al/foe.c use it: sends succeed or fail, receives answer. */
module Mailboxes {

  /** What the mailbox answers at one step of a call: to a send, and to a receive. */
  datatype Event<+P> = Event(sendOk: bool, poll: P)

  /** A scripted mailbox: what it is going to answer, and what it was given. */
  class Mailbox<P, R> {
    var script: seq<Event<P>>
    var outbox: seq<R>

    constructor (events: seq<Event<P>>)
      ensures script == events && outbox == []
    {
      script, outbox := events, [];
    }

    /** al_mailbox_send */
    method Send(r: R) returns (ok: bool)
      requires script != []
      modifies this
      ensures ok == old(script)[0].sendOk && script == old(script)[1..]
      ensures outbox == if ok then old(outbox) + [r] else old(outbox)
    {
      ok := script[0].sendOk;
      script := script[1..];
      if ok {
        outbox := outbox + [r];
      }
    }

    /** The clock, al_mailbox_check and al_mailbox_receive. */
    method Receive() returns (poll: P)
      requires script != []
      modifies this
      ensures poll == old(script)[0].poll && script == old(script)[1..] && outbox == old(outbox)
    {
      poll := script[0].poll;
      script := script[1..];
    }
  }
}
