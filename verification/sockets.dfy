/**
 * The client side of one accepted connection, as far as a handler sees it:
 * what the handler managed to read, and a socket that records, in order,
 * every reply sent and every close.
 */
module Sockets {

  /** The result of `recv(...).decode('utf-8')`: the decoded text, or an exception. */
  datatype Incoming = Received(raw: string) | ReceiveFailed

  /** No character of the text is a newline. */
  predicate NoNewline(s: string) {
    forall i | 0 <= i < |s| :: s[i] != '\n'
  }

  /** A reply the client reads as one line: a newline at the end and nowhere else. */
  predicate IsLine(s: string) {
    |s| >= 1 && s[|s| - 1] == '\n' && NoNewline(s[..|s| - 1])
  }

  lemma NoNewlineConcat(a: string, b: string)
    requires NoNewline(a) && NoNewline(b)
    ensures NoNewline(a + b)
  {
    forall i | 0 <= i < |a + b|
      ensures (a + b)[i] != '\n'
    {
      if i >= |a| {
        assert (a + b)[i] == b[i - |a|];
      }
    }
  }

  /** Text without a newline, terminated by one, is a single line. */
  lemma LineOf(body: string)
    requires NoNewline(body)
    ensures IsLine(body + "\n")
  {
    assert (body + "\n")[..|body|] == body;
  }

  /** An error reply: the `ERROR: ` tag, the reason, a newline. */
  function ErrorLine(reason: string): string {
    "ERROR: " + reason + "\n"
  }

  /** An error reply with a newline-free reason is one line tagged `ERROR: `. */
  lemma ErrorLineIsLine(reason: string)
    requires NoNewline(reason)
    ensures IsLine(ErrorLine(reason))
    ensures ErrorLine(reason)[..7] == "ERROR: "
  {
    NoNewlineConcat("ERROR: ", reason);
    LineOf("ERROR: " + reason);
  }

  /** One thing done to the socket: a payload passed to `sendall`, or `close`. */
  datatype Event = Sent(payload: string) | Closed

  class ClientSocket {
    /** Everything done to the socket so far, oldest first. */
    var events: seq<Event>

    /** Not yet closed: `sendall` on a closed socket raises. */
    predicate IsOpen()
      reads this
    {
      Closed !in events
    }

    constructor ()
      ensures events == [] && IsOpen()
    {
      events := [];
    }

    method SendAll(msg: string)
      requires IsOpen()
      modifies this
      ensures events == old(events) + [Sent(msg)]
      ensures IsOpen()
    {
      events := events + [Sent(msg)];
    }

    method Close()
      modifies this
      ensures events == old(events) + [Closed]
      ensures !IsOpen()
    {
      events := events + [Closed];
    }
  }
}
