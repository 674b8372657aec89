/** `OuchClient`: orders go out over a non-blocking socket that may take any number of
    bytes of each write. What the socket does is an input to each call.
 */
module OuchClient {
  import opened Bits
  import opened Bytes

  datatype OuchState = Disconnected | Connecting | Connected | PendingWrite

  /** What `send` returned: a byte count, EAGAIN or EWOULDBLOCK, or another error. */
  datatype SendResult = Took(count: nat) | WouldBlock | Failed

  /** The connection as bytes: what went out, what is still to go out, and the orders the
      client took on. */
  datatype Line = Line(state: OuchState, pending: seq<byte>, wire: seq<byte>, orders: seq<Message>)

  datatype Event =
    | Connect
    | SendOrder(order: Message, result: SendResult)
    | HandleWrite(connectError: bool, result: SendResult)

  datatype Reply = Done | NotDone | Threw
  datatype Outcome = Outcome(line: Line, reply: Reply)

  function Joined(orders: seq<Message>): seq<byte> {
    if orders == [] then [] else Joined(orders[..|orders| - 1]) + orders[|orders| - 1].bytes
  }

  function Written(result: SendResult): nat
    requires !result.Failed?
  {
    if result.Took? then result.count else 0
  }

  /** If `send` is called at all, it takes no more than it was given. */
  predicate CanTake(called: bool, result: SendResult, given: nat) {
    called && result.Took? ==> result.count <= given
  }

  predicate Possible(line: Line, e: Event) {
    match e
    case Connect => true
    case SendOrder(order, result) => CanTake(line.state != PendingWrite, result, |order.bytes|)
    case HandleWrite(_, result) => CanTake(line.state == PendingWrite, result, |line.pending|)
  }

  function Send(line: Line, order: Message, result: SendResult): Outcome
    requires CanTake(line.state != PendingWrite, result, |order.bytes|)
  {
    if line.state == PendingWrite then Outcome(line, NotDone)
    else if result.Failed? then Outcome(line, Threw)
    else
      var n := Written(result);
      var sent := line.(wire := line.wire + order.bytes[..n], orders := line.orders + [order]);
      if n < |order.bytes| then Outcome(sent.(state := PendingWrite, pending := order.bytes[n..]), NotDone)
      else Outcome(sent, Done)
  }

  function Resume(line: Line, connectError: bool, result: SendResult): Outcome
    requires CanTake(line.state == PendingWrite, result, |line.pending|)
  {
    if line.state == Connecting then
      if connectError then Outcome(line, Threw) else Outcome(line.(state := Connected), Done)
    else if line.state == PendingWrite then
      if result.Failed? then Outcome(line, Threw)
      else
        var n := Written(result);
        var sent := line.(wire := line.wire + line.pending[..n], pending := line.pending[n..]);
        if n < |line.pending| then Outcome(sent, NotDone)
        else Outcome(sent.(state := Connected), Done)
    else Outcome(line, Done)
  }

  function Step(line: Line, e: Event): Outcome
    requires Possible(line, e)
  {
    match e
    case Connect => Outcome(line.(state := Connecting), Done)
    case SendOrder(order, result) => Send(line, order, result)
    case HandleWrite(connectError, result) => Resume(line, connectError, result)
  }

  // ----- what each reply means

  /** `send_order` returns true exactly when the whole order went out behind what was on the
      wire; false without a pending write exactly when the rest of it, not empty, is pending;
      false during a pending write and an exception change nothing. */
  lemma SendReplies(line: Line, order: Message, result: SendResult)
    requires CanTake(line.state != PendingWrite, result, |order.bytes|)
    ensures var o := Send(line, order, result);
            var after := o.line;
            && (o.reply == Done <==>
                  && line.state != PendingWrite && result != Failed
                  && after.wire == line.wire + order.bytes && after.orders == line.orders + [order])
            && (o.reply == Done ==> after.state == line.state && after.pending == line.pending)
            && (line.state != PendingWrite ==>
                  (o.reply == NotDone <==>
                     && after.state == PendingWrite && after.pending != []
                     && after.wire + after.pending == line.wire + order.bytes
                     && after.orders == line.orders + [order]))
            && (o.reply == NotDone && line.state != PendingWrite ==>
                  |after.wire| == |line.wire| + if result == WouldBlock then 0 else result.count)
            && (line.state == PendingWrite ==> o.reply == NotDone && after == line)
            && (o.reply == Threw <==> line.state != PendingWrite && result == Failed)
            && (o.reply == Threw ==> after == line)
  {
    if line.state != PendingWrite && result != Failed {
      var n := if result == WouldBlock then 0 else result.count;
      assert order.bytes == order.bytes[..n] + order.bytes[n..];
      assert line.wire + order.bytes[..n] + order.bytes[n..] == line.wire + order.bytes;
    }
  }

  /** `handle_write` finishes a connection exactly when it met no error, and a pending write
      exactly when all pending bytes went out; otherwise the rest stays pending, and an
      exception changes nothing. With neither going on it returns true. */
  lemma ResumeReplies(line: Line, connectError: bool, result: SendResult)
    requires CanTake(line.state == PendingWrite, result, |line.pending|)
    ensures var o := Resume(line, connectError, result);
            var after := o.line;
            && after.orders == line.orders
            && (line.state == Connecting ==>
                  && (o.reply == Done <==> !connectError) && (o.reply == Threw <==> connectError)
                  && (o.reply == Done <==> after.state == Connected)
                  && after.wire == line.wire && after.pending == line.pending)
            && (line.state == PendingWrite ==>
                  && (o.reply == Threw <==> result == Failed)
                  && (o.reply == Done <==> after.state == Connected)
                  && (o.reply == NotDone <==>
                        result != Failed && after.state == PendingWrite && |after.wire| < |line.wire + line.pending|)
                  && (o.reply == Done ==> after.wire == line.wire + line.pending)
                  && (o.reply == NotDone ==>
                        && after.pending != [] && after.wire + after.pending == line.wire + line.pending
                        && |after.wire| == |line.wire| + if result == WouldBlock then 0 else result.count))
            && (line.state != Connecting && line.state != PendingWrite ==> o.reply == Done)
            && (o.reply == Threw || (line.state != Connecting && line.state != PendingWrite) ==> after == line)
  {
    if line.state == PendingWrite && result != Failed {
      var n := if result == WouldBlock then 0 else result.count;
      assert line.pending == line.pending[..n] + line.pending[n..];
      assert line.wire + line.pending[..n] + line.pending[n..] == line.wire + line.pending;
    }
  }

  /** `connect_to_server` only marks the client as connecting. */
  lemma ConnectReplies(line: Line)
    ensures var o := Step(line, Connect);
            && o.line.state == Connecting && o.reply == Done
            && o.line.wire == line.wire && o.line.pending == line.pending && o.line.orders == line.orders
  {
  }

  // ----- bytes in order

  /** The wire holds every order taken on, the last one perhaps up to what is pending. */
  ghost predicate InOrder(line: Line) {
    if line.state == PendingWrite then
      && line.pending != [] && line.orders != []
      && var last := line.orders[|line.orders| - 1].bytes;
         && |line.pending| <= |last|
         && line.pending == last[|last| - |line.pending|..]
         && line.wire == Joined(line.orders[..|line.orders| - 1]) + last[..|last| - |line.pending|]
    else
      line.wire == Joined(line.orders)
  }

  /** Bytes on the wire plus bytes pending are the orders taken on, end to end. */
  lemma WirePlusPending(line: Line)
    requires InOrder(line)
    ensures line.wire + (if line.state == PendingWrite then line.pending else []) == Joined(line.orders)
  {
    if line.state == PendingWrite {
      var last := line.orders[|line.orders| - 1].bytes;
      assert last == last[..|last| - |line.pending|] + line.pending;
    }
  }

  lemma SendKeeps(line: Line, order: Message, result: SendResult)
    requires InOrder(line) && CanTake(line.state != PendingWrite, result, |order.bytes|)
    ensures InOrder(Send(line, order, result).line)
  {
    assert (line.orders + [order])[..|line.orders|] == line.orders;
  }

  /** Sending `n` more bytes of a packet moves the cut between sent and pending. */
  lemma Advance(before: seq<byte>, packet: seq<byte>, k: nat, n: nat)
    requires k + n <= |packet|
    ensures before + packet[..k] + packet[k..][..n] == before + packet[..k + n]
    ensures packet[k..][n..] == packet[k + n..]
  {
    assert packet[..k] + packet[k..][..n] == packet[..k + n];
  }

  lemma ResumeKeeps(line: Line, connectError: bool, result: SendResult)
    requires InOrder(line) && CanTake(line.state == PendingWrite, result, |line.pending|)
    ensures InOrder(Resume(line, connectError, result).line)
  {
    if line.state == PendingWrite && !result.Failed? {
      var last := line.orders[|line.orders| - 1].bytes;
      var before := Joined(line.orders[..|line.orders| - 1]);
      assert Joined(line.orders) == before + last;
      hide Joined;
      var k, n := |last| - |line.pending|, Written(result);
      Advance(before, last, k, n);
      if n == |line.pending| { assert last[..k + n] == last; }
    }
  }

  /** A reconnect keeps the bytes in order exactly when no write is pending. */
  lemma ReconnectKeepsIff(line: Line)
    requires InOrder(line)
    ensures InOrder(Step(line, Connect).line) <==> line.state != PendingWrite
  {
    if line.state == PendingWrite {
      WirePlusPending(line);
      assert |line.wire| < |Joined(line.orders)|;
    }
  }

  const NEW_LINE: Line := Line(Disconnected, [], [], [])

  /** Half an order sent and then a reconnect: its second byte is forgotten. */
  lemma ReconnectLosesBytes()
    ensures var sent := Send(NEW_LINE, Message([1, 2]), Took(1)).line;
            InOrder(sent) && !InOrder(Step(sent, Connect).line)
  {
    SendKeeps(NEW_LINE, Message([1, 2]), Took(1));
    ReconnectKeepsIff(Send(NEW_LINE, Message([1, 2]), Took(1)).line);
  }

  /** The run of events, or nothing past an impossible one. */
  ghost predicate Reachable(line: Line, events: seq<Event>, line': Line)
    decreases |events|
  {
    if events == [] then line' == line
    else
      && Possible(line, events[0])
      && (events[0] == Connect ==> line.state != PendingWrite)
      && Reachable(Step(line, events[0]).line, events[1..], line')
  }

  lemma {:induction false} RunKeeps(line: Line, events: seq<Event>, line': Line)
    requires InOrder(line) && Reachable(line, events, line')
    ensures InOrder(line')
    decreases |events|
  {
    if events != [] {
      match events[0] {
        case Connect => ReconnectKeepsIff(line);
        case SendOrder(order, result) => SendKeeps(line, order, result);
        case HandleWrite(connectError, result) => ResumeKeeps(line, connectError, result);
      }
      RunKeeps(Step(line, events[0]).line, events[1..], line');
    }
  }

  /** Over every run without a reconnect in the middle of a write, whatever `send` takes
      each time, no order is cut into by another. */
  lemma OrdersNeverInterleave(events: seq<Event>, line: Line)
    requires Reachable(NEW_LINE, events, line)
    ensures InOrder(line)
    ensures line.wire + (if line.state == PendingWrite then line.pending else []) == Joined(line.orders)
  {
    RunKeeps(NEW_LINE, events, line);
    WirePlusPending(line);
  }

  // ----- the client

  class OuchClient {
    var state: OuchState
    /** The unsent part of the caller's packet: the packet itself and an offset into it. */
    var pendingBuffer: array?<byte>
    var pendingOffset: nat
    var pendingBytes: nat
    ghost var line: Line

    /** The fields stand for `line`. While a write is pending this depends on the caller
        leaving the packet alone. */
    ghost predicate Valid()
      reads this, pendingBuffer
    {
      && line.state == state
      && (state == PendingWrite ==>
            && pendingBuffer != null
            && pendingOffset + pendingBytes == pendingBuffer.Length
            && line.pending == pendingBuffer[pendingOffset..])
    }

    constructor ()
      ensures Valid() && line == NEW_LINE
    {
      state, pendingBuffer, pendingOffset, pendingBytes := Disconnected, null, 0, 0;
      line := NEW_LINE;
    }

    method ConnectToServer()
      requires Valid()
      modifies this
      ensures Valid() && line == Step(old(line), Connect).line
    {
      state := Connecting;
      line := line.(state := Connecting);
    }

    method SendOrder(order: array<byte>, result: SendResult) returns (reply: Reply)
      requires Valid() && CanTake(state != PendingWrite, result, order.Length)
      modifies this
      ensures Valid() && Outcome(line, reply) == Send(old(line), Message(order[..]), result)
    {
      line := Send(line, Message(order[..]), result).line;
      if state == PendingWrite {
        return NotDone;
      }
      if result.Failed? {
        return Threw;
      }
      var written := if result.Took? then result.count else 0;
      if written < order.Length {
        state := PendingWrite;
        pendingBuffer, pendingOffset, pendingBytes := order, written, order.Length - written;
        return NotDone;
      }
      return Done;
    }

    method HandleWrite(connectError: bool, result: SendResult) returns (reply: Reply)
      requires Valid() && CanTake(state == PendingWrite, result, pendingBytes)
      modifies this
      ensures Valid() && Outcome(line, reply) == Resume(old(line), connectError, result)
    {
      line := Resume(line, connectError, result).line;
      if state == Connecting {
        if connectError {
          return Threw;
        }
        state := Connected;
        return Done;
      } else if state == PendingWrite {
        if result.Failed? {
          return Threw;
        }
        var written := if result.Took? then result.count else 0;
        if written < pendingBytes {
          pendingOffset := pendingOffset + written;
          pendingBytes := pendingBytes - written;
          return NotDone;
        }
        state := Connected;
        return Done;
      }
      return Done;
    }
  }
}
