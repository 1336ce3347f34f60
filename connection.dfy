/** One call of `service_connection` on a session record {addr, inb, outb, auth}, as a
    function on values: what the read half does with the received chunk, and what the
    write half does with the bytes the transport accepted. */
module Connection {
  import opened Wrappers
  import opened Utf8
  import opened Dispatch

  type Bytes = seq<byte>

  /** The byte of '\n'. */
  const NL: byte := 10

  /** The session record built by `accept_connection`, minus its address. */
  datatype Conn = Conn(inb: Bytes, outb: Bytes, auth: string)

  /** Open: the session goes on. Closed: the peer closed and the session is gone.
      Crashed: an exception escaped, which ends the whole server. */
  datatype Status = Open | Closed | Crashed

  /** What one step leaves behind: the status, the bank's world, the session, and the
      bytes handed to the transport. */
  datatype Step = Step(status: Status, world: World, conn: Conn, sent: Bytes)

  /** The terminator '\n\n' starts at index i. */
  predicate TerminatorAt(b: Bytes, i: int)
  {
    0 <= i && i + 1 < |b| && b[i] == NL && b[i + 1] == NL
  }

  /** `is_complete(received)`: the terminator occurs somewhere in it. */
  predicate IsComplete(b: Bytes)
  {
    exists i | 0 <= i < |b| :: TerminatorAt(b, i)
  }

  /** `received.rfind(b'\n\n')`: the start of the last terminator, or -1 when there is none. */
  function RFind(b: Bytes): (r: int)
    ensures -1 <= r < |b|
    ensures r >= 0 ==> TerminatorAt(b, r)
    ensures forall j | r < j < |b| :: !TerminatorAt(b, j)
    ensures r == -1 <==> !IsComplete(b)
  {
    if |b| < 2 then -1
    else if b[|b| - 2] == NL && b[|b| - 1] == NL then
      assert TerminatorAt(b, |b| - 2);
      |b| - 2
    else
      var r := RFind(b[..|b| - 1]);
      assert forall j | r < j < |b| - 1 :: TerminatorAt(b, j) == TerminatorAt(b[..|b| - 1], j);
      if r == -1 then NoTerminatorYet(b); r
      else assert TerminatorAt(b[..|b| - 1], r) && TerminatorAt(b, r); r
  }

  /** A buffer without a terminator before its last byte, and none ending there, has
      none at all. */
  lemma NoTerminatorYet(b: Bytes)
    requires |b| >= 2 && !(b[|b| - 2] == NL && b[|b| - 1] == NL) && !IsComplete(b[..|b| - 1])
    ensures !IsComplete(b)
  {
    forall i | 0 <= i < |b| ensures !TerminatorAt(b, i) {
      if i < |b| - 2 { assert TerminatorAt(b, i) == TerminatorAt(b[..|b| - 1], i); }
    }
  }

  /** Decoding the request bytes (UnicodeDecodeError crashes) and dispatching the text. */
  function Handle(w: World, auth: string, ip: string, request: Bytes): Outcome<Reply>
  {
    match Decode(request)
    case None => Crash
    case Some(text) => Process(w, auth, ip, text)
  }

  /** The frame the server queues for a response. */
  function Frame(response: string): Bytes
  {
    Encode(response + "\n\n")
  }

  /** The read half of `service_connection`, given what `recv(1024)` returned. */
  function Receive(w: World, c: Conn, ip: string, chunk: Bytes): (Status, World, Conn)
  {
    if chunk == [] then (Closed, w.(locks := UnmarkBusy(w.locks, c.auth)), c)
    else
      var inb := c.inb + chunk;
      if !IsComplete(inb) then (Open, w, c.(inb := inb))
      else
        match Handle(w, c.auth, ip, inb[..RFind(inb)])
        case Crash => (Crashed, w, c.(inb := inb))
        case Return(rep) => (Open, rep.world, Conn([], c.outb + Frame(rep.response), rep.auth))
  }

  /** The write half: whatever the transport accepts, at most `accepted` bytes, is sent
      and dropped from the front of `outb`. */
  function Send(c: Conn, accepted: nat): (Conn, Bytes)
  {
    var n := if accepted < |c.outb| then accepted else |c.outb|;
    (c.(outb := c.outb[n..]), c.outb[..n])
  }

  /** `service_connection(key, mask, sel)`: read if the socket is readable, then write
      if it is writable, the session is still open and there is something to send. */
  function Service(w: World, c: Conn, ip: string, readable: bool, writable: bool, chunk: Bytes, accepted: nat): Step
    requires |chunk| <= 1024
  {
    var (status, w1, c1) := if readable then Receive(w, c, ip, chunk) else (Open, w, c);
    if status == Open && writable && c1.outb != [] then
      var (c2, sent) := Send(c1, accepted);
      Step(Open, w1, c2, sent)
    else Step(status, w1, c1, [])
  }

  // ---------------------------------------------------------------------------------

  /** A non-empty chunk without a terminator in the buffer is only accumulated. */
  lemma ReceivePartial(w: World, c: Conn, ip: string, chunk: Bytes)
    requires chunk != [] && !IsComplete(c.inb + chunk)
    ensures Receive(w, c, ip, chunk) == (Open, w, Conn(c.inb + chunk, c.outb, c.auth))
  {
  }

  /** Once the buffer holds a terminator, the request is the buffer up to its LAST
      terminator, the buffer is emptied, and `outb` grows by exactly the response frame. */
  lemma ReceiveComplete(w: World, c: Conn, ip: string, chunk: Bytes)
    requires chunk != [] && IsComplete(c.inb + chunk)
    ensures var inb := c.inb + chunk;
      var k := RFind(inb);
      && 0 <= k && TerminatorAt(inb, k)
      && (forall j | k < j < |inb| :: !TerminatorAt(inb, j))
      && match Handle(w, c.auth, ip, inb[..k])
         case Crash => Receive(w, c, ip, chunk) == (Crashed, w, Conn(inb, c.outb, c.auth))
         case Return(rep) => Receive(w, c, ip, chunk) == (Open, rep.world, Conn([], c.outb + Frame(rep.response), rep.auth))
  {
  }

  /** An empty read releases the session's lock and nothing else. */
  lemma ReceiveClose(w: World, c: Conn, ip: string)
    ensures var (status, w1, c1) := Receive(w, c, ip, []);
      && status == Closed && c1 == c && w1.ledger == w.ledger
      && c.auth !in w1.locks
      && w1.locks.Keys == w.locks.Keys - {c.auth}
      && (forall k | k in w.locks && k != c.auth :: w1.locks[k] == w.locks[k])
  {
  }

  /** Sending keeps the bytes in order: what was sent followed by what is left is the old
      `outb`, and as much is sent as the transport accepts. */
  lemma SendDrops(c: Conn, accepted: nat)
    ensures var (c1, sent) := Send(c, accepted);
      && sent + c1.outb == c.outb
      && |sent| == (if accepted < |c.outb| then accepted else |c.outb|)
      && c1.inb == c.inb && c1.auth == c.auth
  {
    var n := if accepted < |c.outb| then accepted else |c.outb|;
    assert c.outb[..n] + c.outb[n..] == c.outb;
  }

  /** A step on a socket that is not writable, or one that leaves the session no longer
      open, sends nothing. */
  lemma ServiceSendsOnlyQueued(w: World, c: Conn, ip: string, readable: bool, writable: bool, chunk: Bytes, accepted: nat)
    requires |chunk| <= 1024
    ensures var s := Service(w, c, ip, readable, writable, chunk, accepted);
      (!writable ==> s.sent == []) && (s.status != Open ==> s.sent == [])
  {
  }

  /** The bytes a step sends, followed by what stays queued, are exactly the bytes queued
      after the read half: nothing is lost, duplicated or reordered. */
  lemma ServiceKeepsOrder(w: World, c: Conn, ip: string, readable: bool, writable: bool, chunk: Bytes, accepted: nat)
    requires |chunk| <= 1024
    ensures var s := Service(w, c, ip, readable, writable, chunk, accepted);
      var queued := if readable then Receive(w, c, ip, chunk).2.outb else c.outb;
      s.sent + s.conn.outb == queued && |s.sent| <= accepted
  {
    var c1 := if readable then Receive(w, c, ip, chunk).2 else c;
    SendDrops(c1, accepted);
  }

  /** A frame ends in its own terminator, so the request dispatched from a buffer holding
      exactly one encoded frame is that frame's text. */
  lemma RFindFrame(pre: Bytes)
    ensures RFind(pre + [NL, NL]) == |pre|
    ensures (pre + [NL, NL])[..|pre|] == pre
  {
  }

  /** The bytes of a text followed by the terminator. */
  lemma EncodeTerminated(s: string)
    ensures Encode(s + "\n\n") == Encode(s) + [NL, NL]
  {
    EncodeConcat(s, "\n\n");
    EncodeConcat("\n", "\n");
    EncodeAscii("\n");
  }

  /** A session that receives a whole client frame from an empty buffer dispatches exactly
      the frame's text. */
  lemma ReceiveWholeFrame(w: World, c: Conn, ip: string, text: string)
    requires c.inb == []
    ensures Receive(w, c, ip, Encode(text + "\n\n")) ==
      match Process(w, c.auth, ip, text)
      case Crash => (Crashed, w, c.(inb := Encode(text + "\n\n")))
      case Return(rep) => (Open, rep.world, Conn([], c.outb + Frame(rep.response), rep.auth))
  {
    var inb := Encode(text + "\n\n");
    EncodeTerminated(text);
    RFindFrame(Encode(text));
    assert c.inb + inb == inb;
    assert TerminatorAt(inb, |Encode(text)|);
    DecodeEncode(text);
  }

  /** Two frames that arrive in one chunk are not answered one by one: the request is
      everything up to the last terminator, so the two texts reach `process_request`
      as one, joined by the first terminator. */
  lemma ReceiveBatched(w: World, c: Conn, ip: string, first: string, second: string)
    requires c.inb == []
    ensures var chunk := Encode(first + "\n\n" + second + "\n\n");
      Receive(w, c, ip, chunk) ==
        match Process(w, c.auth, ip, first + "\n\n" + second)
        case Crash => (Crashed, w, c.(inb := chunk))
        case Return(rep) => (Open, rep.world, Conn([], c.outb + Frame(rep.response), rep.auth))
  {
    ReceiveWholeFrame(w, c, ip, first + "\n\n" + second);
  }
}
