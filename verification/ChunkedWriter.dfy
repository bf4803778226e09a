/**
 The writer of examples/socket/socket-bound-tcp-static-routing.cc: a loop that copies a fixed buffer,
 over and over, into a socket until 20000 bytes are accepted, and that resumes from a global counter
 whenever a socket reports new space.

 Everything a socket does is recorded in a history. `Legal` is the protocol the histories follow, the
 methods of `Writer` produce only legal histories of whole calls, and the lemmas below are about all of
 them: what was accepted since the last `StartFlow` is the buffer repeated cyclically (`SentIsCycled`),
 and every flow reaches its own socket whole exactly when no other socket accepts bytes meanwhile
 (`DeliveredIffOwnersOnly`). `FlowsApartIff` says which lists of calls guarantee that.
 */
module ChunkedWriter {
  import opened Basics
  import opened Bags
  import MixedRadix

  const TOTAL_TX_BYTES: nat := 20000
  const WRITE_SIZE: nat := 1040

  newtype byte = x | 0 <= x < 256

  // ---------- the environment ----------

  datatype Address = Address(host: string, port: nat)

  /** A socket: how much it takes is its own decision. */
  class Socket {
    var txAvailable: nat
    var accepted: seq<byte>
    var bound: bool
    var peer: Option<Address>
    var hasSendCallback: bool
    var closed: bool
    ghost var offered: nat  // the size of the last send

    constructor (space: nat)
      ensures txAvailable == space && accepted == [] && !bound && peer == None && !hasSendCallback && !closed
    {
      txAvailable, accepted, bound, peer, hasSendCallback, closed := space, [], false, None, false, false;
      offered := 0;
    }

    /** Connecting settles how much the socket can take. */
    method BindAndConnect(address: Address)
      modifies this`bound, this`peer, this`txAvailable
      ensures bound && peer == Some(address)
    {
      bound, peer, txAvailable := true, Some(address), *;
    }

    method SetSendCallback()
      modifies this`hasSendCallback
      ensures hasSendCallback
    {
      hasSendCallback := true;
    }

    /** Takes a non-empty prefix of what it is offered, or answers with an error; its free space may change. */
    method Send(data: array<byte>, offset: nat, size: nat) returns (amount: int)
      requires offset + size <= data.Length && size > 0
      modifies this`accepted, this`txAvailable, this`offered
      ensures offered == size
      ensures amount <= size && amount != 0
      ensures amount < 0 ==> accepted == old(accepted)
      ensures amount > 0 ==> accepted == old(accepted) + data[offset..offset + amount]
    {
      amount :| amount <= size && amount != 0;
      if amount > 0 {
        accepted := accepted + data[offset..offset + amount];
      }
      txAvailable, offered := *, size;
    }

    method Close()
      modifies this`closed
      ensures closed
    {
      closed := true;
    }
  }

  // ---------- histories ----------

  datatype Event =
    | FlowStarted(socket: Socket)
    | Accepted(socket: Socket, bytes: seq<byte>, space: nat)
    | Refused(socket: Socket, space: nat)
    | Closed(socket: Socket, space: nat)

  ghost function Front(history: seq<Event>): seq<Event>
    requires history != []
  {
    history[..|history| - 1]
  }

  ghost function Last(history: seq<Event>): Event
    requires history != []
  {
    history[|history| - 1]
  }

  /** The bytes accepted by any socket since the last `StartFlow`. */
  ghost function Sent(history: seq<Event>): seq<byte> {
    if history == [] then []
    else match Last(history)
      case FlowStarted(_) => []
      case Accepted(_, bytes, _) => Sent(Front(history)) + bytes
      case _ => Sent(Front(history))
  }

  /** The part of them that one socket accepted. */
  ghost function SentTo(history: seq<Event>, socket: Socket): seq<byte> {
    if history == [] then []
    else match Last(history)
      case FlowStarted(_) => []
      case Accepted(s, bytes, _) => SentTo(Front(history), socket) + (if s == socket then bytes else [])
      case _ => SentTo(Front(history), socket)
  }

  /** All the bytes one socket ever accepted. */
  ghost function AllTo(history: seq<Event>, socket: Socket): seq<byte> {
    if history == [] then []
    else AllTo(Front(history), socket) + GainOf(Last(history), socket)
  }

  ghost function GainOf(event: Event, socket: Socket): seq<byte> {
    if event.Accepted? && event.socket == socket then event.bytes else []
  }

  /** How much is offered: up to the end of the buffer, of the total, and of the free space. */
  ghost function Offer(sent: nat, space: nat, data: seq<byte>): nat
    requires |data| > 0 && sent <= TOTAL_TX_BYTES
  {
    Min(Min(|data| - sent % |data|, TOTAL_TX_BYTES - sent), space)
  }

  /** What may happen after `sent` bytes were accepted since the last `StartFlow`; `space` is the free space then. */
  ghost predicate Follows(event: Event, sent: nat, data: seq<byte>)
    requires |data| > 0
  {
    match event
    case FlowStarted(_) => true
    case Accepted(_, bytes, space) =>
      && sent <= TOTAL_TX_BYTES && 0 < |bytes| <= Offer(sent, space, data)
      && bytes == data[sent % |data|..sent % |data| + |bytes|]
    case Refused(_, space) => sent < TOTAL_TX_BYTES && space > 0
    case Closed(_, space) => sent == TOTAL_TX_BYTES || space == 0
  }

  /** The socket of a call that is not over: a call ends with an error or the close. */
  ghost function InCall(history: seq<Event>): Option<Socket> {
    if history == [] || Last(history).Refused? || Last(history).Closed? then None else Some(Last(history).socket)
  }

  /** Calls do not overlap: until it is over, a call writes to its own socket and starts nothing. */
  ghost predicate InTurn(event: Event, history: seq<Event>) {
    InCall(history).Some? ==> !event.FlowStarted? && event.socket == InCall(history).value
  }

  ghost predicate Legal(history: seq<Event>, data: seq<byte>)
    requires |data| > 0
  {
    history == [] ||
    (Legal(Front(history), data) && InTurn(Last(history), Front(history))
     && Follows(Last(history), |Sent(Front(history))|, data))
  }

  /** A history of whole calls. */
  ghost predicate WholeCalls(history: seq<Event>, data: seq<byte>)
    requires |data| > 0
  {
    Legal(history, data) && InCall(history) == None
  }

  /** From `before` to `after`, nothing happened but sends that the socket accepted. */
  ghost predicate OnlySends(before: seq<Event>, after: seq<Event>, socket: Socket) {
    && before <= after
    && forall i :: |before| <= i < |after| ==> IsSend(after[i], socket)
  }

  ghost predicate IsSend(event: Event, socket: Socket) {
    event.Accepted? && event.socket == socket
  }

  /** A call that began with `sent0` bytes sent and `space0` bytes of free space has come to `sent` and `space`. */
  ghost predicate Underway(
    before: seq<Event>, after: seq<Event>, socket: Socket, sent0: nat, space0: nat, sent: nat, space: nat)
  {
    && OnlySends(before, after, socket)
    && if |after| == |before| then sent == sent0 && space == space0
       else sent0 < TOTAL_TX_BYTES && space0 > 0 && sent0 <= sent && after[|before|].space == space0
  }

  lemma UnderwayNext(before: seq<Event>, mid: seq<Event>, after: seq<Event>, socket: Socket,
                     sent0: nat, space0: nat, sent: nat, space: nat, sent': nat, space': nat)
    requires Underway(before, mid, socket, sent0, space0, sent, space) && sent < TOTAL_TX_BYTES && space > 0
    requires after != [] && after == mid + [Last(after)] && IsSend(Last(after), socket) && Last(after).space == space
    requires sent <= sent'
    ensures Underway(before, after, socket, sent0, space0, sent', space')
  {
  }

  /** One call of the writer: sends that the socket accepted, and at the end an error or the close. */
  ghost predicate OneCall(before: seq<Event>, after: seq<Event>, socket: Socket) {
    && after != []
    && OnlySends(before, Front(after), socket)
    && (Last(after).Refused? || Last(after).Closed?) && Last(after).socket == socket
  }

  /** The last event of a call: an error, or the close. */
  lemma CallEnds(before: seq<Event>, mid: seq<Event>, after: seq<Event>, socket: Socket,
                 sent0: nat, space0: nat, sent: nat, space: nat)
    requires Underway(before, mid, socket, sent0, space0, sent, space) && sent <= TOTAL_TX_BYTES
    requires || (after == mid + [Refused(socket, space)] && sent < TOTAL_TX_BYTES && space > 0)
             || (after == mid + [Closed(socket, space)] && (sent == TOTAL_TX_BYTES || space == 0))
    ensures OneCall(before, after, socket) && after[|before|].space == space0
    ensures after == before + [Closed(socket, space)] && sent < TOTAL_TX_BYTES
       <==> sent0 < TOTAL_TX_BYTES && space0 == 0
    ensures sent0 == TOTAL_TX_BYTES ==> after == before + [Closed(socket, space0)]
    ensures sent0 <= sent
  {
    assert Front(after) == mid;
    if |mid| == |before| {
      assert mid == before;
    } else {
      assert |after| > |before| + 1;
    }
  }

  // ---------- the writer ----------

  /** What the simulator runs: a scheduled `StartFlow`, or the send callback of a socket, which has `space` now. */
  datatype Call = Start(socket: Socket, address: Address) | SendCallback(socket: Socket, space: nat)

  class Writer {
    var currentTxBytes: nat
    const data: array<byte>
    ghost var sockets: set<Socket>
    ghost var history: seq<Event>

    /** The state agrees with the history. */
    ghost predicate Consistent()
      reads this, data, sockets
    {
      && data.Length == WRITE_SIZE
      && Legal(history, data[..])
      && currentTxBytes == |Sent(history)| <= TOTAL_TX_BYTES
      && forall s :: s in sockets ==> s.accepted == AllTo(history, s)
    }

    /** Between calls. */
    ghost predicate Valid()
      reads this, data, sockets
    {
      Consistent() && InCall(history) == None
    }

    /** While a call to this socket is under way. */
    ghost predicate Serving(socket: Socket)
      reads this, data, sockets
    {
      Consistent() && socket in sockets && (InCall(history) == None || InCall(history) == Some(socket))
    }

    constructor (data: array<byte>, ghost sockets: set<Socket>)
      requires data.Length == 1040 && forall s :: s in sockets ==> s.accepted == []
      ensures Valid() && this.data == data && this.sockets == sockets && history == []
    {
      this.data := data;
      this.sockets := sockets;
      currentTxBytes, history := 0, [];
    }

    /** Writes until everything is sent, the socket has no space left, or it answers with an error. It
        closes the socket at once, short of the total, exactly when there is no space to begin with. */
    method WriteUntilBufferFull(socket: Socket)
      requires Serving(socket)
      modifies this`currentTxBytes, this`history, socket`accepted, socket`txAvailable, socket`offered, socket`closed
      ensures Valid() && OneCall(old(history), history, socket)
      ensures history[|old(history)|].space == old(socket.txAvailable)
      ensures Last(history).Closed? ==> socket.closed && Last(history).space == socket.txAvailable
      ensures Last(history).Refused? ==> socket.closed == old(socket.closed) && currentTxBytes < TOTAL_TX_BYTES
      ensures Last(history).Closed? && currentTxBytes < TOTAL_TX_BYTES ==> socket.txAvailable == 0
      ensures history == old(history) + [Closed(socket, socket.txAvailable)] && currentTxBytes < TOTAL_TX_BYTES
         <==> old(currentTxBytes) < TOTAL_TX_BYTES && old(socket.txAvailable) == 0
      ensures old(currentTxBytes) == TOTAL_TX_BYTES ==> history == old(history) + [Closed(socket, old(socket.txAvailable))]
      ensures old(currentTxBytes) <= currentTxBytes
    {
      ghost var before, sent0, space0 := history, currentTxBytes, socket.txAvailable;
      while currentTxBytes < TOTAL_TX_BYTES && socket.txAvailable > 0
        invariant Serving(socket) && socket.closed == old(socket.closed)
        invariant Underway(before, history, socket, sent0, space0, currentTxBytes, socket.txAvailable)
        decreases TOTAL_TX_BYTES - currentTxBytes
      {
        ghost var mid, sent, space := history, currentTxBytes, socket.txAvailable;
        var amountSent := OfferChunk(socket);
        if amountSent < 0 {
          CallEnds(before, mid, history, socket, sent0, space0, sent, space);
          return;
        }
        UnderwayNext(before, mid, history, socket, sent0, space0, sent, space, currentTxBytes, socket.txAvailable);
      }
      socket.Close();
      ghost var mid := history;
      Record(Closed(socket, socket.txAvailable));
      CallEnds(before, mid, history, socket, sent0, space0, currentTxBytes, socket.txAvailable);
    }

    /** One turn of the loop: offers what is left of the buffer, within what is left to send and the free space. */
    method OfferChunk(socket: Socket) returns (amountSent: int)
      requires Serving(socket) && currentTxBytes < TOTAL_TX_BYTES && socket.txAvailable > 0
      modifies this`currentTxBytes, this`history, socket`accepted, socket`txAvailable, socket`offered
      ensures Serving(socket)
      ensures amountSent < 0 ==>
                && currentTxBytes == old(currentTxBytes)
                && history == old(history) + [Refused(socket, old(socket.txAvailable))]
      ensures amountSent >= 0 ==>
                && currentTxBytes == old(currentTxBytes) + amountSent > old(currentTxBytes)
                && history != [] && history == old(history) + [Last(history)] && IsSend(Last(history), socket)
                && Last(history).space == old(socket.txAvailable)
      ensures socket.offered == Offer(old(currentTxBytes), old(socket.txAvailable), data[..])
      ensures var toBufferEnd, left := WRITE_SIZE - old(currentTxBytes) % WRITE_SIZE, TOTAL_TX_BYTES - old(currentTxBytes);
              && socket.offered <= toBufferEnd && socket.offered <= left && socket.offered <= old(socket.txAvailable)
              && (socket.offered == toBufferEnd || socket.offered == left || socket.offered == old(socket.txAvailable))
    {
      ghost var space := socket.txAvailable;
      var left := TOTAL_TX_BYTES - currentTxBytes;
      var dataOffset := currentTxBytes % WRITE_SIZE;
      var toWrite := WRITE_SIZE - dataOffset;
      toWrite := Min(toWrite, left);
      toWrite := Min(toWrite, socket.txAvailable);
      amountSent := socket.Send(data, dataOffset, toWrite);
      if amountSent < 0 {
        Record(Refused(socket, space));
        return;
      }
      assert data[dataOffset..dataOffset + amountSent] == data[..][dataOffset..dataOffset + amountSent];
      Record(Accepted(socket, data[dataOffset..dataOffset + amountSent], space));
      assert socket.accepted == AllTo(history, socket);
      currentTxBytes := currentTxBytes + amountSent;
    }

    ghost method Record(event: Event)
      requires data.Length == WRITE_SIZE && Legal(history, data[..]) && InTurn(event, history)
      requires Follows(event, |Sent(history)|, data[..])
      modifies this`history
      ensures history == old(history) + [event] && Legal(history, data[..])
      ensures InCall(history) == if event.Refused? || event.Closed? then None else Some(event.socket)
      ensures Sent(history) == match event
                               case FlowStarted(_) => []
                               case Accepted(_, bytes, _) => Sent(old(history)) + bytes
                               case _ => Sent(old(history))
      ensures forall s :: s in sockets ==> AllTo(history, s) == AllTo(old(history), s) + GainOf(event, s)
    {
      history := history + [event];
      assert Front(history) == old(history);
    }

    /** Starts over for this socket; every socket shares the one counter. */
    method StartFlow(socket: Socket, address: Address)
      requires Valid() && socket in sockets
      modifies this`currentTxBytes, this`history, socket
      ensures Valid()
      ensures OneCall(old(history) + [FlowStarted(socket)], history, socket)
      ensures socket.bound && socket.peer == Some(address) && socket.hasSendCallback
    {
      currentTxBytes := 0;
      Record(FlowStarted(socket));
      socket.BindAndConnect(address);
      socket.SetSendCallback();
      WriteUntilBufferFull(socket);
    }

    /** The simulator calls in; a callback comes with new free space. */
    method Dispatch(call: Call)
      requires Valid() && call.socket in sockets
      modifies this`currentTxBytes, this`history, call.socket
      ensures Valid() && CallOutcome(old(history), call, history)
    {
      match call {
        case Start(socket, address) =>
          StartFlow(socket, address);
        case SendCallback(socket, space) =>
          socket.txAvailable := space;
          WriteUntilBufferFull(socket);
      }
    }

    /** Any interleaving of flows and callbacks, on any sockets, with any free space. */
    method Run(calls: seq<Call>)
      requires Valid() && forall i :: 0 <= i < |calls| ==> calls[i].socket in sockets
      modifies this`currentTxBytes, this`history, sockets
      ensures Valid() && WholeCalls(history, data[..]) && Outcome(old(history), calls, history)
      ensures Sent(history) == Cycled(data[..], currentTxBytes)
      ensures currentTxBytes <= TOTAL_TX_BYTES
    {
      ghost var before := history;
      for i := 0 to |calls|
        invariant Valid() && Outcome(before, calls[..i], history)
      {
        ghost var mid := history;
        Dispatch(calls[i]);
        OutcomeNext(before, calls, i, mid, history);
      }
      assert calls[..|calls|] == calls;
      SentIsCycled(history, data[..]);
    }
  }

  function Min(x: nat, y: nat): nat {
    if y < x then y else x
  }

  // ---------- the stream ----------

  /** The first `n` elements of `data` repeated for ever. */
  ghost function Cycled(data: seq<byte>, n: nat): (r: seq<byte>)
    requires |data| > 0
    ensures |r| == n
    decreases n
  {
    if n <= |data| then data[..n] else data + Cycled(data, n - |data|)
  }

  /** The chunk at offset n modulo the buffer size continues the stream. */
  lemma {:induction false} CycledExtends(data: seq<byte>, n: nat, k: nat)
    requires |data| > 0 && n % |data| + k <= |data|
    ensures Cycled(data, n + k) == Cycled(data, n) + data[n % |data|..n % |data| + k]
    decreases n
  {
    var r := n % |data|;
    if n > |data| {
      ModStep(n, |data|);
      CycledExtends(data, n - |data|, k);
      assert Cycled(data, n + k) == data + Cycled(data, n - |data| + k);
    } else if n == |data| {
      ModStep(n, n);
      assert Cycled(data, n + k) == data + data[..k];
    } else {
      ModSmall(n, |data|);
    }
  }

  lemma ModSmall(n: nat, m: nat)
    requires n < m
    ensures n % m == n
  {
  }

  lemma ModStep(n: nat, m: nat)
    requires 0 < m <= n
    ensures n % m == (n - m) % m
  {
    var q, r := (n - m) / m, (n - m) % m;
    assert n == (q + 1) * m + r;
    MixedRadix.DivMod(q + 1, m, r);
  }

  /** Over every run: what was accepted since the last `StartFlow` is a prefix of the cyclic stream. */
  lemma {:induction false} SentIsCycled(history: seq<Event>, data: seq<byte>)
    requires |data| > 0 && Legal(history, data)
    ensures Sent(history) == Cycled(data, |Sent(history)|)
    ensures |Sent(history)| <= TOTAL_TX_BYTES
  {
    if history != [] {
      SentIsCycled(Front(history), data);
      if Last(history).Accepted? {
        CycledExtends(data, |Sent(Front(history))|, |Last(history).bytes|);
      }
    }
  }

  // ---------- several sockets ----------

  /** The socket of the latest `StartFlow`. */
  ghost function Owner(history: seq<Event>): Option<Socket> {
    if history == [] then None
    else if Last(history).FlowStarted? then Some(Last(history).socket)
    else Owner(Front(history))
  }

  /** The sockets whose flows were started, in order. */
  ghost function Starts(history: seq<Event>): seq<Socket> {
    if history == [] then []
    else Starts(Front(history)) + if Last(history).FlowStarted? then [Last(history).socket] else []
  }

  /** Only the socket of the latest `StartFlow` ever accepts anything. */
  ghost predicate OwnersOnly(history: seq<Event>) {
    history == [] ||
    (OwnersOnly(Front(history)) && (Last(history).Accepted? ==> Owner(Front(history)) == Some(Last(history).socket)))
  }

  /** The flow under way has gone to its own socket alone; before the first flow nothing is sent. */
  ghost predicate FlowDelivered(history: seq<Event>) {
    match Owner(history)
    case None => Sent(history) == []
    case Some(owner) => SentTo(history, owner) == Sent(history)
  }

  /** Every flow has gone to its own socket at all times. */
  ghost predicate AlwaysDelivered(history: seq<Event>) {
    forall n :: 0 <= n <= |history| ==> FlowDelivered(history[..n])
  }

  lemma AlwaysDeliveredNext(history: seq<Event>)
    requires history != []
    ensures AlwaysDelivered(history) <==> AlwaysDelivered(Front(history)) && FlowDelivered(history)
  {
    var front := Front(history);
    assert history[..|history|] == history;
    assert forall n :: 0 <= n <= |front| ==> front[..n] == history[..n];
    if AlwaysDelivered(history) {
      forall n | 0 <= n <= |front|
        ensures FlowDelivered(front[..n])
      {
        assert FlowDelivered(history[..n]);
      }
      assert FlowDelivered(history[..|history|]);
    }
    if AlwaysDelivered(front) && FlowDelivered(history) {
      forall n | 0 <= n <= |history|
        ensures FlowDelivered(history[..n])
      {
        if n < |history| {
          assert FlowDelivered(front[..n]);
        }
      }
    }
  }

  lemma {:induction false} SentToWithin(history: seq<Event>, socket: Socket)
    ensures |SentTo(history, socket)| <= |Sent(history)|
    ensures |SentTo(history, socket)| <= |AllTo(history, socket)|
  {
    if history != [] {
      SentToWithin(Front(history), socket);
    }
  }

  /** A flow stays with its socket unless the next event is a send of another one. */
  lemma DeliveredNext(history: seq<Event>, data: seq<byte>)
    requires |data| > 0 && history != [] && Legal(history, data) && FlowDelivered(Front(history))
    ensures FlowDelivered(history) <==>
            (Last(history).Accepted? ==> Owner(Front(history)) == Some(Last(history).socket))
  {
    if Last(history).Accepted? && Owner(Front(history)).Some? {
      SentToWithin(Front(history), Owner(Front(history)).value);
    }
  }

  /** Every flow goes to its own socket, at all times, exactly when only the socket of the latest
      `StartFlow` accepts bytes. */
  lemma {:induction false} DeliveredIffOwnersOnly(history: seq<Event>, data: seq<byte>)
    requires |data| > 0 && Legal(history, data)
    ensures AlwaysDelivered(history) <==> OwnersOnly(history)
  {
    if history != [] {
      AlwaysDeliveredNext(history);
      DeliveredIffOwnersOnly(Front(history), data);
      assert Front(history)[..|Front(history)|] == Front(history);
      if AlwaysDelivered(Front(history)) {
        DeliveredNext(history, data);
      }
    } else {
      assert history[..0] == [];
    }
  }

  /** What a socket has got in all: nothing before its flow, the flow so far while it lasts, and what
      the flow came to afterwards. */
  ghost predicate GotItsFlow(history: seq<Event>, socket: Socket, data: seq<byte>)
    requires |data| > 0
  {
    && (socket !in Starts(history) ==> AllTo(history, socket) == [])
    && (Owner(history) == Some(socket) ==> socket in Starts(history) && AllTo(history, socket) == Sent(history))
    && AllTo(history, socket) == Cycled(data, |AllTo(history, socket)|)
    && |AllTo(history, socket)| <= TOTAL_TX_BYTES
  }

  lemma StartsNext(history: seq<Event>)
    requires history != [] && NoDuplicates(Starts(history))
    ensures NoDuplicates(Starts(Front(history)))
    ensures Last(history).FlowStarted? ==> Last(history).socket !in Starts(Front(history))
  {
    var before, after := Starts(Front(history)), Starts(history);
    assert forall i :: 0 <= i < |before| ==> before[i] == after[i];
    if Last(history).FlowStarted? {
      assert after[|after| - 1] == Last(history).socket;
    }
  }

  lemma {:induction false} SocketGetsItsFlow(history: seq<Event>, socket: Socket, data: seq<byte>)
    requires |data| > 0 && Legal(history, data) && OwnersOnly(history) && NoDuplicates(Starts(history))
    ensures GotItsFlow(history, socket, data)
  {
    if history != [] {
      StartsNext(history);
      SocketGetsItsFlow(Front(history), socket, data);
      SentIsCycled(history, data);
    }
  }

  // ---------- calls ----------

  /** The history once the call has begun. */
  ghost function Begun(history: seq<Event>, call: Call): seq<Event> {
    if call.Start? then history + [FlowStarted(call.socket)] else history
  }

  /** What one call can do: a callback begins with the free space it comes with. */
  ghost predicate CallOutcome(before: seq<Event>, call: Call, after: seq<Event>) {
    && OneCall(Begun(before, call), after, call.socket)
    && (call.SendCallback? ==> after[|before|].space == call.space)
  }

  /** What a list of calls can do, one after the other. */
  ghost predicate Outcome(before: seq<Event>, calls: seq<Call>, after: seq<Event>)
    decreases |calls|
  {
    if calls == [] then after == before
    else exists k :: 0 <= k <= |after| && Outcome(before, calls[..|calls| - 1], after[..k])
                     && CallOutcome(after[..k], calls[|calls| - 1], after)
  }

  lemma OutcomeNext(before: seq<Event>, calls: seq<Call>, i: nat, mid: seq<Event>, after: seq<Event>)
    requires i < |calls| && Outcome(before, calls[..i], mid) && CallOutcome(mid, calls[i], after)
    ensures Outcome(before, calls[..i + 1], after)
  {
    assert calls[..i + 1][..i] == calls[..i];
    OutcomeFrom(before, calls[..i + 1], mid, after);
  }

  lemma OutcomeFrom(before: seq<Event>, calls: seq<Call>, mid: seq<Event>, after: seq<Event>)
    requires calls != [] && Outcome(before, calls[..|calls| - 1], mid) && CallOutcome(mid, calls[|calls| - 1], after)
    ensures Outcome(before, calls, after)
  {
    CallExtends(mid, calls[|calls| - 1], after);
    var k := |mid|;
    assert after[..k] == mid;
  }

  lemma CallExtends(before: seq<Event>, call: Call, after: seq<Event>)
    requires CallOutcome(before, call, after)
    ensures |before| < |after| && after[..|before|] == before
  {
  }

  ghost function StartsOf(calls: seq<Call>): seq<Socket> {
    if calls == [] then []
    else
      var last := calls[|calls| - 1];
      StartsOf(calls[..|calls| - 1]) + if last.Start? then [last.socket] else []
  }

  ghost function OwnerOf(owner: Option<Socket>, calls: seq<Call>): Option<Socket> {
    if calls == [] then owner
    else
      var last := calls[|calls| - 1];
      if last.Start? then Some(last.socket) else OwnerOf(owner, calls[..|calls| - 1])
  }

  /** A call to a socket that has space, but whose flow is not the latest one. */
  ghost predicate Stray(owner: Option<Socket>, call: Call) {
    call.SendCallback? && call.space > 0 && owner != Some(call.socket)
  }

  ghost predicate NoStrays(owner: Option<Socket>, calls: seq<Call>) {
    forall i :: 0 <= i < |calls| ==> !Stray(OwnerOf(owner, calls[..i]), calls[i])
  }

  lemma {:induction false} SendsEffect(before: seq<Event>, after: seq<Event>, socket: Socket)
    requires OnlySends(before, after, socket)
    ensures Owner(after) == Owner(before) && Starts(after) == Starts(before)
    ensures OwnersOnly(before) && Owner(before) == Some(socket) ==> OwnersOnly(after)
    decreases |after|
  {
    if |before| == |after| {
      assert before == after;
    } else {
      assert IsSend(after[|after| - 1], socket);
      assert before <= Front(after);
      SendsEffect(before, Front(after), socket);
    }
  }

  /** Without space nothing is sent. */
  lemma NothingSent(before: seq<Event>, after: seq<Event>, socket: Socket, data: seq<byte>)
    requires |data| > 0 && Legal(after, data) && OneCall(before, after, socket) && after[|before|].space == 0
    ensures Front(after) == before
  {
    if |before| < |after| - 1 {
      assert Front(after)[|before|] == after[|before|] && IsSend(after[|before|], socket);
      LegalAt(after, |before|, data);
    }
  }

  lemma {:induction false} LegalAt(history: seq<Event>, i: nat, data: seq<byte>)
    requires |data| > 0 && Legal(history, data) && i < |history|
    ensures Follows(history[i], |Sent(history[..i])|, data)
  {
    if i < |history| - 1 {
      LegalAt(Front(history), i, data);
      assert Front(history)[..i] == history[..i];
    }
  }

  lemma {:induction false} LegalPrefix(history: seq<Event>, k: nat, data: seq<byte>)
    requires |data| > 0 && Legal(history, data) && k <= |history|
    ensures Legal(history[..k], data)
  {
    if k < |history| {
      LegalPrefix(Front(history), k, data);
      assert Front(history)[..k] == history[..k];
    } else {
      assert history[..k] == history;
    }
  }

  /** What a call does to the owner and the starts. */
  lemma CallEffect(before: seq<Event>, call: Call, after: seq<Event>, data: seq<byte>)
    requires |data| > 0 && Legal(after, data) && CallOutcome(before, call, after)
    ensures before <= after
    ensures Starts(after) == Starts(before) + if call.Start? then [call.socket] else []
    ensures Owner(after) == if call.Start? then Some(call.socket) else Owner(before)
    ensures OwnersOnly(before) && !Stray(Owner(before), call) ==> OwnersOnly(after)
  {
    var begun := Begun(before, call);
    if call.Start? {
      assert Front(begun) == before;
    } else if call.space == 0 {
      NothingSent(before, after, call.socket, data);
    }
    SendsEffect(begun, Front(after), call.socket);
  }

  /** The history before the last call. */
  lemma BeforeLast(before: seq<Event>, calls: seq<Call>, after: seq<Event>, data: seq<byte>) returns (mid: seq<Event>)
    requires |data| > 0 && Legal(after, data) && Outcome(before, calls, after) && calls != []
    ensures Legal(mid, data) && Outcome(before, calls[..|calls| - 1], mid)
    ensures CallOutcome(mid, calls[|calls| - 1], after)
  {
    var k :| 0 <= k <= |after| && Outcome(before, calls[..|calls| - 1], after[..k])
             && CallOutcome(after[..k], calls[|calls| - 1], after);
    LegalPrefix(after, k, data);
    mid := after[..k];
  }

  lemma NoStraysSplit(owner: Option<Socket>, calls: seq<Call>)
    requires calls != []
    ensures NoStrays(owner, calls)
       <==> NoStrays(owner, calls[..|calls| - 1])
            && !Stray(OwnerOf(owner, calls[..|calls| - 1]), calls[|calls| - 1])
  {
    var front := calls[..|calls| - 1];
    assert forall i :: 0 <= i < |front| ==> front[..i] == calls[..i];
    if NoStrays(owner, front) && !Stray(OwnerOf(owner, front), calls[|front|]) {
      forall i | 0 <= i < |calls|
        ensures !Stray(OwnerOf(owner, calls[..i]), calls[i])
      {
        if i < |front| {
          assert !Stray(OwnerOf(owner, front[..i]), front[i]);
        }
      }
    }
    if NoStrays(owner, calls) {
      forall i | 0 <= i < |front|
        ensures !Stray(OwnerOf(owner, front[..i]), front[i])
      {
        assert !Stray(OwnerOf(owner, calls[..i]), calls[i]);
      }
      assert !Stray(OwnerOf(owner, calls[..|front|]), calls[|front|]);
    }
  }

  /** What a list of calls has done to them. */
  ghost predicate Effect(before: seq<Event>, calls: seq<Call>, after: seq<Event>) {
    && Starts(after) == Starts(before) + StartsOf(calls)
    && Owner(after) == OwnerOf(Owner(before), calls)
    && (OwnersOnly(before) && NoStrays(Owner(before), calls) ==> OwnersOnly(after))
  }

  lemma EffectNext(before: seq<Event>, calls: seq<Call>, mid: seq<Event>, after: seq<Event>, data: seq<byte>)
    requires |data| > 0 && Legal(after, data) && calls != []
    requires Effect(before, calls[..|calls| - 1], mid) && CallOutcome(mid, calls[|calls| - 1], after)
    ensures Effect(before, calls, after)
  {
    CallEffect(mid, calls[|calls| - 1], after, data);
    NoStraysSplit(Owner(before), calls);
  }

  lemma {:induction false} OutcomeEffect(before: seq<Event>, calls: seq<Call>, after: seq<Event>, data: seq<byte>)
    requires |data| > 0 && Legal(after, data) && Outcome(before, calls, after)
    ensures Effect(before, calls, after)
    decreases |calls|
  {
    if calls != [] {
      var mid := BeforeLast(before, calls, after, data);
      OutcomeEffect(before, calls[..|calls| - 1], mid, data);
      EffectNext(before, calls, mid, after, data);
    }
  }

  // ---------- the calls that keep flows apart ----------

  /** Whether a list of calls fits a history of whole calls. */
  ghost predicate Possible(calls: seq<Call>, history: seq<Event>, data: seq<byte>)
    requires |data| > 0
  {
    WholeCalls(history, data) && Outcome([], calls, history)
  }

  lemma PossibleNext(calls: seq<Call>, history: seq<Event>, after: seq<Event>, data: seq<byte>)
    requires |data| > 0 && calls != [] && Possible(calls[..|calls| - 1], history, data)
    requires WholeCalls(after, data) && CallOutcome(history, calls[|calls| - 1], after)
    ensures Possible(calls, after, data)
  {
    OutcomeFrom([], calls, history, after);
  }

  /** A call in which the socket answers with an error at once, or has no space. */
  lemma QuietCall(history: seq<Event>, call: Call, data: seq<byte>) returns (r: seq<Event>)
    requires |data| > 0 && WholeCalls(history, data) && |Sent(history)| < TOTAL_TX_BYTES
    ensures WholeCalls(r, data) && |Sent(r)| <= |Sent(history)| && CallOutcome(history, call, r)
    ensures OwnersOnly(r) <==> OwnersOnly(history)
  {
    r := history;
    if call.Start? {
      r := Next(r, FlowStarted(call.socket), data);
      r := Next(r, Refused(call.socket, 1), data);
    } else if call.space > 0 {
      r := Next(r, Refused(call.socket, call.space), data);
    } else {
      r := Next(r, Closed(call.socket, 0), data);
    }
  }

  /** A stray callback whose socket accepts one byte. */
  lemma StrayCall(history: seq<Event>, call: Call, data: seq<byte>) returns (r: seq<Event>)
    requires |data| > 0 && WholeCalls(history, data) && Sent(history) == [] && Stray(Owner(history), call)
    ensures WholeCalls(r, data) && |Sent(r)| == 1 && CallOutcome(history, call, r) && !OwnersOnly(r)
  {
    FirstByteFollows(call.socket, call.space, data);
    var mid := Next(history, Accepted(call.socket, data[..1], call.space), data);
    r := Next(mid, Refused(call.socket, 1), data);
    OneByteCall(history, call, data[..1]);
  }

  lemma FirstByteFollows(socket: Socket, space: nat, data: seq<byte>)
    requires |data| > 0 && space > 0
    ensures Follows(Accepted(socket, data[..1], space), 0, data)
  {
    ModSmall(0, |data|);
  }

  lemma OneByteCall(history: seq<Event>, call: Call, bytes: seq<byte>)
    requires call.SendCallback?
    ensures CallOutcome(history, call, history + [Accepted(call.socket, bytes, call.space)] + [Refused(call.socket, 1)])
  {
    var mid := history + [Accepted(call.socket, bytes, call.space)];
    assert Front(mid + [Refused(call.socket, 1)]) == mid;
  }

  lemma {:induction false} QuietRun(calls: seq<Call>, data: seq<byte>) returns (history: seq<Event>)
    requires |data| > 0
    ensures Possible(calls, history, data) && Sent(history) == []
    decreases |calls|
  {
    if calls == [] {
      history := [];
    } else {
      var front := QuietRun(calls[..|calls| - 1], data);
      history := QuietCall(front, calls[|calls| - 1], data);
      PossibleNext(calls, front, history, data);
    }
  }

  /** A stray call can take a byte of another flow. */
  lemma {:induction false} StrayRun(calls: seq<Call>, i: nat, data: seq<byte>) returns (history: seq<Event>)
    requires |data| > 0 && i < |calls| && Stray(OwnerOf(None, calls[..i]), calls[i])
    ensures Possible(calls, history, data) && |Sent(history)| <= 1 && !OwnersOnly(history)
    decreases |calls|
  {
    var front := calls[..|calls| - 1];
    if i == |front| {
      var quiet := QuietRun(front, data);
      OutcomeEffect([], front, quiet, data);
      history := StrayCall(quiet, calls[i], data);
      PossibleNext(calls, quiet, history, data);
    } else {
      assert front[..i] == calls[..i];
      var stray := StrayRun(front, i, data);
      history := QuietCall(stray, calls[|front|], data);
      PossibleNext(calls, stray, history, data);
    }
  }

  /** The calls under which every flow reaches its own socket, whatever the sockets do: no socket is called
      back with space while the flow of another one, or none, is the latest. */
  lemma FlowsApartIff(calls: seq<Call>, data: seq<byte>)
    requires |data| > 0
    ensures (forall history :: Possible(calls, history, data) ==> AlwaysDelivered(history)) <==> NoStrays(None, calls)
  {
    if NoStrays(None, calls) {
      forall history | Possible(calls, history, data)
        ensures AlwaysDelivered(history)
      {
        OutcomeEffect([], calls, history, data);
        DeliveredIffOwnersOnly(history, data);
      }
    } else {
      var i :| 0 <= i < |calls| && Stray(OwnerOf(None, calls[..i]), calls[i]);
      var history := StrayRun(calls, i, data);
      DeliveredIffOwnersOnly(history, data);
    }
  }

  /** A simulation of such calls that starts each socket's flow at most once gives every socket a prefix of
      the stream of its own. */
  method RunSeparately(writer: Writer, calls: seq<Call>)
    requires writer.Valid() && writer.history == []
    requires forall i :: 0 <= i < |calls| ==> calls[i].socket in writer.sockets
    requires NoDuplicates(StartsOf(calls)) && NoStrays(None, calls)
    modifies writer`currentTxBytes, writer`history, writer.sockets
    ensures forall s :: s in writer.sockets ==>
              |s.accepted| <= TOTAL_TX_BYTES && s.accepted == Cycled(writer.data[..], |s.accepted|)
    ensures forall s :: s in writer.sockets && s !in StartsOf(calls) ==> s.accepted == []
  {
    writer.Run(calls);
    OutcomeEffect([], calls, writer.history, writer.data[..]);
    forall s | s in writer.sockets
      ensures |s.accepted| <= TOTAL_TX_BYTES && s.accepted == Cycled(writer.data[..], |s.accepted|)
      ensures s !in StartsOf(calls) ==> s.accepted == []
    {
      SocketGetsItsFlow(writer.history, s, writer.data[..]);
    }
  }

  // ---------- two sockets ----------

  /** All of what is offered to a socket with plenty of space. */
  ghost function NextChunk(sent: nat, data: seq<byte>): seq<byte>
    requires |data| > 0 && sent <= TOTAL_TX_BYTES
  {
    data[sent % |data|..sent % |data| + Offer(sent, |data|, data)]
  }

  ghost predicate NothingClosed(history: seq<Event>) {
    forall i :: 0 <= i < |history| ==> !history[i].Closed?
  }

  /** One more event. */
  lemma Next(history: seq<Event>, event: Event, data: seq<byte>) returns (r: seq<Event>)
    requires |data| > 0 && Legal(history, data) && InTurn(event, history) && Follows(event, |Sent(history)|, data)
    ensures r == history + [event] && Legal(r, data)
    ensures InCall(r) == if event.Refused? || event.Closed? then None else Some(event.socket)
    ensures Sent(r) == match event
                       case FlowStarted(_) => []
                       case Accepted(_, bytes, _) => Sent(history) + bytes
                       case _ => Sent(history)
    ensures forall s :: AllTo(r, s) == AllTo(history, s) + GainOf(event, s)
    ensures Starts(r) == Starts(history) + if event.FlowStarted? then [event.socket] else []
    ensures Owner(r) == if event.FlowStarted? then Some(event.socket) else Owner(history)
    ensures NothingClosed(history) && !event.Closed? ==> NothingClosed(r)
    ensures OwnersOnly(r) <==> OwnersOnly(history) && (event.Accepted? ==> Owner(history) == Some(event.socket))
  {
    r := history + [event];
    assert Front(r) == history;
  }

  /** The history when a socket accepts every chunk whole until nothing is left to send. */
  lemma {:induction false} Fill(history: seq<Event>, socket: Socket, other: Socket, data: seq<byte>)
    returns (full: seq<Event>)
    requires |data| > 0 && Legal(history, data) && |Sent(history)| <= TOTAL_TX_BYTES && socket != other
    requires InCall(history) == None || InCall(history) == Some(socket)
    ensures Legal(full, data) && |Sent(full)| == TOTAL_TX_BYTES
    ensures InCall(full) == None || InCall(full) == Some(socket)
    ensures |AllTo(full, socket)| == |AllTo(history, socket)| + TOTAL_TX_BYTES - |Sent(history)|
    ensures AllTo(full, other) == AllTo(history, other) && Starts(full) == Starts(history)
    ensures Owner(full) == Owner(history) && (NothingClosed(history) ==> NothingClosed(full))
    decreases TOTAL_TX_BYTES - |Sent(history)|
  {
    if |Sent(history)| == TOTAL_TX_BYTES {
      full := history;
    } else {
      var next := Next(history, Accepted(socket, NextChunk(|Sent(history)|, data), |data|), data);
      full := Fill(next, socket, other, data);
    }
  }

  /** Nothing is written to a socket that was closed before. */
  ghost predicate ClosedForGood(history: seq<Event>) {
    forall i, j :: 0 <= i < j < |history| && history[i].Closed? && history[j].Accepted? ==>
      history[i].socket != history[j].socket
  }

  /** A run of whole calls, each socket's flow started once: the first one gets an error after one byte and
      is called back after the second flow was started. It spends the budget of the second flow, whose
      socket is closed with nothing, and ends up with more than the total itself. */
  lemma SharedCounter(first: Socket, second: Socket, data: seq<byte>) returns (history: seq<Event>)
    requires |data| == 1040 && first != second
    ensures WholeCalls(history, data) && Starts(history) == [first, second] && ClosedForGood(history)
    ensures Owner(history) == Some(second)
    ensures |AllTo(history, first)| == 20001 && AllTo(history, second) == []
    ensures Last(history) == Closed(second, 1)
  {
    history := TwoStarted(first, second, data);
    history := Fill(history, first, second, data);
    ghost var sent := history;
    history := Next(history, Closed(first, 1), data);
    history := Next(history, Closed(second, 1), data);
    assert forall i :: 0 <= i < |sent| ==> history[i] == sent[i];
  }

  lemma TwoStarted(first: Socket, second: Socket, data: seq<byte>) returns (history: seq<Event>)
    requires |data| == WRITE_SIZE && first != second
    ensures WholeCalls(history, data) && Starts(history) == [first, second] && NothingClosed(history)
    ensures Owner(history) == Some(second) && Sent(history) == []
    ensures |AllTo(history, first)| == 1 && AllTo(history, second) == []
  {
    var started := OneStarted(first, data);
    var again := Next(started, FlowStarted(second), data);
    history := Next(again, Refused(second, 1), data);
  }

  lemma OneStarted(socket: Socket, data: seq<byte>) returns (history: seq<Event>)
    requires |data| == WRITE_SIZE
    ensures WholeCalls(history, data) && Starts(history) == [socket] && NothingClosed(history)
    ensures forall s :: AllTo(history, s) == if s == socket then data[..1] else []
  {
    FirstByteFollows(socket, 1, data);
    var started := Next([], FlowStarted(socket), data);
    var written := Next(started, Accepted(socket, data[..1], 1), data);
    history := Next(written, Refused(socket, 1), data);
  }

  /** A full transmit buffer ends the flow too: a whole call in which nothing is sent and the socket is closed. */
  lemma ClosedEarly(socket: Socket, data: seq<byte>) returns (history: seq<Event>)
    requires |data| == WRITE_SIZE
    ensures WholeCalls(history, data) && Sent(history) == [] && history == [FlowStarted(socket), Closed(socket, 0)]
  {
    history := Next([], FlowStarted(socket), data);
    history := Next(history, Closed(socket, 0), data);
  }
}
