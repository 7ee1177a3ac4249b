/** The life of one TCP connection handle in net.cpp: the natives JavaScript calls on
    it, the per-tick pump, and the event queue between them. The kernel's answers
    to send, recv and select come in as arguments.
 */
module TcpHandle {
  import opened Common

  datatype NetEvent = Connect | Data(data: Bytes) | End | Error(message: string) | Close(hadError: bool)

  /** Calls made on the socket, oldest first. */
  datatype Call = Send(taken: Bytes) | Fin | CloseFd | Probe

  datatype SendResult = Takes(n: nat) | SendWouldBlock | SendFails(why: string)

  datatype RecvResult = Gives(data: Bytes) | AtEof | RecvWouldBlock | RecvFails(why: string)

  datatype SelectResult = StillConnecting | ConnectDone | ConnectFails(why: string)

  /** The handle, with what its past amounts to: every event ever queued, every byte
      write has accepted, and every call made on the socket. */
  datatype Conn = Conn(
    present: bool, fdOpen: bool, connecting: bool, peerEof: bool, endRequested: bool,
    wroteShutdown: bool, closed: bool, errored: bool, closedSweeps: nat,
    outBuf: Bytes, queue: seq<NetEvent>,
    history: seq<NetEvent>, delivered: seq<NetEvent>, accepted: Bytes, calls: seq<Call>)

  datatype Input =
    | Write(bytes: Bytes, sends: seq<SendResult>)
    | EndCall(sends: seq<SendResult>)
    | CloseCall
    | Revoke(refusal: string)
    | Poll
    | Tick(sel: SelectResult, recvs: seq<RecvResult>, sends: seq<SendResult>)
    | Sweep

  // ----- the operations -----

  function Emit(c: Conn, e: NetEvent): Conn { c.(queue := c.queue + [e], history := c.history + [e]) }

  function Called(c: Conn, k: Call): Conn { c.(calls := c.calls + [k]) }

  function HardClose(c: Conn): Conn {
    (if c.fdOpen then Called(c, CloseFd) else c).(fdOpen := false, closed := true)
  }

  /** failHandle, and revokeHandle with the refusal's text. */
  function Fail(c: Conn, message: string): Conn {
    if c.closed then c
    else Emit(HardClose(Emit(c.(errored := true), Error(message))), Close(true))
  }

  function Graceful(c: Conn): Conn { Emit(HardClose(c), Close(false)) }

  /** send takes at least one byte and no more than it is offered. */
  function Clip(n: nat, len: nat): (k: nat)
    requires len > 0
    ensures 1 <= k <= len
  {
    if n == 0 then 1 else if n > len then len else n
  }

  /** The kernel took the first k bytes of outBuf. */
  function SomeSent(c: Conn, k: nat): Conn
    requires k <= |c.outBuf|
  {
    Called(c, Send(c.outBuf[..k])).(outBuf := c.outBuf[k..])
  }

  function FinSent(c: Conn): Conn { Called(c, Fin).(wroteShutdown := true) }

  /** flushOutBuf; a kernel with no more answers would block. */
  function Flush(c: Conn, sends: seq<SendResult>): Conn
    decreases |sends|
  {
    if c.outBuf == [] then
      if c.endRequested && !c.wroteShutdown then FinSent(c) else c
    else if sends == [] then Called(c, Send([]))
    else
      match sends[0]
      case Takes(n) =>
        var k := Clip(n, |c.outBuf|);
        Flush(SomeSent(c, k), sends[1..])
      case SendWouldBlock => Called(c, Send([]))
      case SendFails(why) => Fail(Called(c, Send([])), "send failed: " + why)
  }

  lemma FlushStep(c: Conn, sends: seq<SendResult>)
    ensures Flush(c, sends) ==
            if c.outBuf == [] then
              if c.endRequested && !c.wroteShutdown then FinSent(c) else c
            else if sends == [] || sends[0] == SendWouldBlock then Called(c, Send([]))
            else if sends[0].SendFails? then Fail(Called(c, Send([])), "send failed: " + sends[0].why)
            else
              var k := Clip(sends[0].n, |c.outBuf|);
              Flush(SomeSent(c, k), sends[1..])
  {
    hide Fail, Clip;
  }

  function DoWrite(c: Conn, bytes: Bytes, sends: seq<SendResult>): Conn {
    if !c.present || c.closed || c.endRequested || c.wroteShutdown then c
    else
      var c' := c.(outBuf := c.outBuf + bytes, accepted := c.accepted + bytes);
      if c'.connecting then c' else Flush(c', sends)
  }

  function DoEnd(c: Conn, sends: seq<SendResult>): Conn {
    if !c.present || c.closed then c
    else
      var c' := c.(endRequested := true);
      if c'.connecting then c'
      else
        var f := Flush(c', sends);
        if f.peerEof && f.wroteShutdown && !f.closed then Graceful(f) else f
  }

  function DoClose(c: Conn): Conn {
    if !c.present || c.closed then c else Graceful(c)
  }

  function DoRevoke(c: Conn, refusal: string): Conn {
    if !c.present then c else Fail(c, refusal)
  }

  /** js_net_poll: the handle goes away with its Close. */
  function DoPoll(c: Conn): Conn {
    if !c.present || c.queue == [] then c
    else
      c.(queue := c.queue[1..], delivered := c.delivered + [c.queue[0]],
         present := !c.queue[0].Close?)
  }

  /** The read loop of the tick, at most `left` more recv calls. */
  function Receive(c: Conn, recvs: seq<RecvResult>, left: nat): Conn
    decreases left
  {
    if left == 0 || c.closed then c
    else if recvs == [] then Called(c, Probe)
    else
      var c' := Called(c, Probe);
      match recvs[0]
      case Gives(data) => Receive(Emit(c', Data(data)), recvs[1..], left - 1)
      case AtEof => if c'.peerEof then c' else Emit(c'.(peerEof := true, endRequested := true), End)
      case RecvWouldBlock => c'
      case RecvFails(why) => Fail(c', why)
  }

  lemma ReceiveStep(c: Conn, recvs: seq<RecvResult>, left: nat)
    ensures Receive(c, recvs, left) ==
            if left == 0 || c.closed then c
            else
              var c' := Called(c, Probe);
              if recvs == [] || recvs[0].RecvWouldBlock? then c'
              else if recvs[0].RecvFails? then Fail(c', recvs[0].why)
              else if recvs[0].Gives? then Receive(Emit(c', Data(recvs[0].data)), recvs[1..], left - 1)
              else if c'.peerEof then c'
              else Emit(c'.(peerEof := true, endRequested := true), End)
  {
    hide Fail;
  }

  /** One handle's turn in js_net_tick. */
  function DoTick(c: Conn, sel: SelectResult, recvs: seq<RecvResult>, sends: seq<SendResult>): Conn {
    if !c.present || c.closed then c
    else if c.connecting then
      var c' := Called(c, Probe);
      match sel
      case StillConnecting => c'
      case ConnectDone => Flush(Emit(c'.(connecting := false), Connect), sends)
      case ConnectFails(why) => Fail(c', "connect failed: " + why)
    else
      var r := Receive(c, recvs, 8);
      if r.closed then r
      else
        var f := Flush(r, sends);
        if !f.closed && f.peerEof && f.wroteShutdown then Graceful(f) else f
  }

  /** The end of the tick: a closed handle nobody drained is dropped on its second sweep. */
  function DoSweep(c: Conn): Conn {
    if !c.present || !c.closed then c
    else c.(closedSweeps := c.closedSweeps + 1, present := c.closedSweeps + 1 <= 1)
  }

  function Step(c: Conn, i: Input): Conn {
    match i
    case Write(bytes, sends) => DoWrite(c, bytes, sends)
    case EndCall(sends) => DoEnd(c, sends)
    case CloseCall => DoClose(c)
    case Revoke(refusal) => DoRevoke(c, refusal)
    case Poll => DoPoll(c)
    case Tick(sel, recvs, sends) => DoTick(c, sel, recvs, sends)
    case Sweep => DoSweep(c)
  }

  function Fresh(connecting: bool): Conn {
    Conn(true, true, connecting, false, false, false, false, false, 0, [], [], [], [], [], [])
  }

  datatype Opening = AcceptedConn | ConnectedAtOnce | InProgress | RefusedAtOnce(why: string)

  /** js_net_tcp_connect's three outcomes, and the accept of a listener. */
  function Open(o: Opening): Conn {
    match o
    case AcceptedConn => Fresh(false)
    case ConnectedAtOnce => Emit(Called(Fresh(false), Probe), Connect)
    case InProgress => Called(Fresh(true), Probe)
    case RefusedAtOnce(why) => Fail(Called(Fresh(false), Probe), "connect failed: " + why)
  }

  // ----- the event grammar -----

  datatype Phase = Start | Opened | Reading | Eof | Failed | Done | Bad

  function Next(p: Phase, e: NetEvent): Phase {
    match (p, e)
    case (Start, Connect) => Opened
    case (Start, Data(_)) => Reading
    case (Opened, Data(_)) => Reading
    case (Reading, Data(_)) => Reading
    case (Start, End) => Eof
    case (Opened, End) => Eof
    case (Reading, End) => Eof
    case (Failed, Close(hadError)) => if hadError then Done else Bad
    case (Failed, _) => Bad
    case (Done, _) => Bad
    case (Bad, _) => Bad
    case (_, Error(_)) => Failed
    case (_, Close(hadError)) => if hadError then Bad else Done
    case _ => Bad
  }

  function PhaseOf(h: seq<NetEvent>): Phase {
    if h == [] then Start else Next(PhaseOf(h[..|h| - 1]), h[|h| - 1])
  }

  lemma PhaseMore(h: seq<NetEvent>, e: NetEvent)
    ensures PhaseOf(h + [e]) == Next(PhaseOf(h), e)
  {
    assert (h + [e])[..|h|] == h;
  }

  /** Connect? Data* End?, as one run of events. */
  ghost predicate Body(h: seq<NetEvent>, connect: nat, end: nat) {
    && connect <= 1 && end <= 1 && connect + end <= |h|
    && (connect == 1 ==> h[0] == Connect)
    && (end == 1 ==> h[|h| - 1] == End)
    && forall i :: connect <= i < |h| - end ==> h[i].Data?
  }

  ghost predicate IsBody(h: seq<NetEvent>) { exists c, e :: Body(h, c, e) }

  /** Connect? Data* End? followed by nothing, by Close(false), or by Error and Close(true). */
  ghost predicate Grammatical(h: seq<NetEvent>) {
    || IsBody(h)
    || (|h| >= 1 && h[|h| - 1] == Close(false) && IsBody(h[..|h| - 1]))
    || (|h| >= 2 && h[|h| - 1] == Close(true) && h[|h| - 2].Error? && IsBody(h[..|h| - 2]))
  }

  lemma {:induction false} OpenPhaseIsBody(h: seq<NetEvent>)
    requires PhaseOf(h) in {Start, Opened, Reading, Eof}
    ensures Body(h, if h != [] && h[0] == Connect then 1 else 0, if PhaseOf(h) == Eof then 1 else 0)
    ensures PhaseOf(h) == Start <==> h == []
    ensures PhaseOf(h) == Opened <==> h == [Connect]
  {
    if h != [] {
      var init := h[..|h| - 1];
      OpenPhaseIsBody(init);
      if init != [] { assert h[0] == init[0]; }
    }
  }

  lemma PhaseIsGrammar(h: seq<NetEvent>)
    requires PhaseOf(h) in {Start, Opened, Reading, Eof, Done}
    ensures Grammatical(h)
  {
    if PhaseOf(h) != Done {
      OpenPhaseIsBody(h);
    } else {
      var init := h[..|h| - 1];
      if PhaseOf(init) == Failed {
        OpenPhaseIsBody(init[..|init| - 1]);
        assert h[|h| - 2] == init[|init| - 1] && h[..|h| - 2] == init[..|init| - 1];
      } else {
        OpenPhaseIsBody(init);
      }
    }
  }

  // ----- what the calls amount to -----

  function Handed(calls: seq<Call>): Bytes {
    if calls == [] then []
    else
      var l := calls[|calls| - 1];
      Handed(calls[..|calls| - 1]) + if l.Send? then l.taken else []
  }

  lemma HandedMore(calls: seq<Call>, k: Call)
    ensures Handed(calls + [k]) == Handed(calls) + if k.Send? then k.taken else []
  {
    assert (calls + [k])[..|calls|] == calls;
  }

  /** At most one Fin with no Send after it, and nothing at all after CloseFd. */
  ghost predicate CallsOk(calls: seq<Call>, fin: bool, open: bool) {
    && (fin <==> Fin in calls)
    && (open <==> CloseFd !in calls)
    && (forall i, j :: 0 <= i < j < |calls| && calls[i] == Fin ==> calls[j] != Fin && !calls[j].Send?)
    && (forall i :: 0 <= i < |calls| - 1 ==> calls[i] != CloseFd)
  }

  lemma CallsMore(calls: seq<Call>, fin: bool, k: Call)
    requires CallsOk(calls, fin, true) && (fin ==> k != Fin && !k.Send?)
    ensures CallsOk(calls + [k], fin || k == Fin, k != CloseFd)
  {
    var ks := calls + [k];
    assert ks[|calls|] == k;
    forall x | x in calls
      ensures x in ks
    {
    }
  }

  // ----- the invariant -----

  ghost predicate Inv(c: Conn) {
    && PhaseOf(c.history) in {Start, Opened, Reading, Eof, Done}
    && (c.closed <==> PhaseOf(c.history) == Done) && (c.fdOpen <==> !c.closed)
    && (c.connecting && !c.closed ==> c.history == [])
    && (!c.closed ==> (c.peerEof <==> PhaseOf(c.history) == Eof))
    && (c.peerEof ==> c.endRequested)
    && (c.wroteShutdown ==> c.outBuf == [] && c.endRequested)
    && c.accepted == Handed(c.calls) + c.outBuf
    && CallsOk(c.calls, c.wroteShutdown, c.fdOpen)
    && c.delivered <= c.history && (c.present ==> c.history == c.delivered + c.queue)
  }

  /** The kernel's side of the bargain: recv gives at least a byte, and nothing once
      it has reported end of file. */
  predicate Legal(c: Conn, i: Input) {
    i.Tick? ==> forall k :: 0 <= k < |i.recvs| ==> (i.recvs[k].Gives? ==> !c.peerEof && i.recvs[k].data != [])
  }

  lemma ProbeInv(c: Conn)
    requires Inv(c) && !c.closed
    ensures Inv(Called(c, Probe))
  {
    HandedMore(c.calls, Probe);
    CallsMore(c.calls, c.wroteShutdown, Probe);
    assert Handed(c.calls) + [] == Handed(c.calls);
  }

  /** Queueing an event that the grammar allows next and that closes nothing. */
  lemma EmitInv(c: Conn, e: NetEvent)
    requires Inv(c) && !c.closed && !c.connecting && !c.peerEof
    requires e == Connect ==> c.history == []
    requires e.Connect? || e.Data?
    ensures Inv(Emit(c, e))
  {
    PhaseMore(c.history, e);
  }

  lemma EndInv(c: Conn)
    requires Inv(c) && !c.closed && !c.connecting && !c.peerEof
    ensures Inv(Emit(c.(peerEof := true, endRequested := true), End))
  {
    PhaseMore(c.history, End);
  }

  lemma HardCloseCalls(c: Conn)
    requires Inv(c) && !c.closed
    ensures var h := HardClose(c);
      && h == c.(calls := c.calls + [CloseFd], fdOpen := false, closed := true)
      && Handed(h.calls) == Handed(c.calls) && CallsOk(h.calls, c.wroteShutdown, false)
  {
    hide PhaseOf, Handed, CallsOk;
    HandedMore(c.calls, CloseFd);
    CallsMore(c.calls, c.wroteShutdown, CloseFd);
    assert Handed(c.calls) + [] == Handed(c.calls);
  }

  lemma GracefulInv(c: Conn)
    requires Inv(c) && !c.closed
    ensures Inv(Graceful(c))
  {
    hide PhaseOf, Handed, CallsOk;
    HardCloseCalls(c);
    PhaseMore(c.history, Close(false));
  }

  lemma FailInv(c: Conn, message: string)
    requires Inv(c)
    ensures Inv(Fail(c, message))
  {
    hide CallsOk, Handed, PhaseOf, Fail, Emit, HardClose;
    FailWhenClosed(c, message);
    if !c.closed {
      HardCloseCalls(c);
      PhaseMore(c.history, Error(message));
      PhaseMore(c.history + [Error(message)], Close(true));
      HardCloseOfEmit(c, message);
    }
  }

  lemma FailWhenClosed(c: Conn, message: string)
    ensures c.closed ==> Fail(c, message) == c
  {
  }

  lemma HardCloseOfEmit(c: Conn, message: string)
    requires !c.closed && c.fdOpen
    ensures Fail(c, message) == c.(errored := true, fdOpen := false, closed := true, calls := c.calls + [CloseFd],
              queue := c.queue + [Error(message)] + [Close(true)],
              history := c.history + [Error(message)] + [Close(true)])
  {
  }

  lemma SendInv(c: Conn, k: nat)
    requires Inv(c) && !c.closed && c.outBuf != [] && k <= |c.outBuf|
    ensures Inv(SomeSent(c, k))
  {
    hide PhaseOf, Handed, CallsOk;
    HandedMore(c.calls, Send(c.outBuf[..k]));
    CallsMore(c.calls, c.wroteShutdown, Send(c.outBuf[..k]));
    Regroup(Handed(c.calls), c.outBuf, k);
  }

  lemma Regroup(handed: Bytes, out: Bytes, k: nat)
    requires k <= |out|
    ensures handed + out == handed + out[..k] + out[k..]
  {
    assert out == out[..k] + out[k..];
  }

  lemma FinInv(c: Conn)
    requires Inv(c) && !c.closed && c.outBuf == [] && c.endRequested && !c.wroteShutdown
    ensures Inv(FinSent(c))
  {
    HandedMore(c.calls, Fin);
    CallsMore(c.calls, c.wroteShutdown, Fin);
    assert Handed(c.calls) + [] == Handed(c.calls);
  }

  lemma {:induction false} FlushInv(c: Conn, sends: seq<SendResult>)
    requires Inv(c) && !c.closed
    ensures var f := Flush(c, sends);
      && Inv(f) && f.peerEof == c.peerEof && f.connecting == c.connecting && f.endRequested == c.endRequested
      && (!f.closed ==> f.history == c.history)
    decreases |sends|
  {
    hide *;
    FlushStep(c, sends);
    SendFields(c);
    if c.outBuf == [] {
      if c.endRequested && !c.wroteShutdown { FinInv(c); }
    } else {
      BlockedInv(c);
      if sends != [] {
        match sends[0]
        case Takes(n) =>
          var k := Clip(n, |c.outBuf|);
          SendInv(c, k);
          SomeSentFields(c, k);
          FlushInv(SomeSent(c, k), sends[1..]);
        case SendWouldBlock =>
        case SendFails(why) =>
          FailInv(Called(c, Send([])), "send failed: " + why);
          FailFields(Called(c, Send([])), "send failed: " + why);
      }
    }
  }

  /** What sending leaves alone. */
  lemma SendFields(c: Conn)
    ensures var f := FinSent(c);
      f.closed == c.closed && f.peerEof == c.peerEof && f.connecting == c.connecting && f.endRequested == c.endRequested
      && f.history == c.history
    ensures var f := Called(c, Send([]));
      f.closed == c.closed && f.peerEof == c.peerEof && f.connecting == c.connecting && f.endRequested == c.endRequested
      && f.history == c.history
  {
  }

  lemma SomeSentFields(c: Conn, k: nat)
    requires k <= |c.outBuf|
    ensures var f := SomeSent(c, k);
      f.closed == c.closed && f.peerEof == c.peerEof && f.connecting == c.connecting && f.endRequested == c.endRequested
      && f.history == c.history
  {
  }

  lemma BlockedInv(c: Conn)
    requires Inv(c) && !c.closed && c.outBuf != []
    ensures Inv(Called(c, Send([])))
  {
    hide Inv;
    SendInv(c, 0);
    assert c.outBuf[..0] == [] && c.outBuf[0..] == c.outBuf;
  }

  lemma FailFields(c: Conn, message: string)
    ensures var f := Fail(c, message);
      f.closed && f.peerEof == c.peerEof && f.connecting == c.connecting && f.endRequested == c.endRequested
  {
  }

  lemma {:induction false} ReceiveInv(c: Conn, recvs: seq<RecvResult>, left: nat)
    requires Inv(c) && !c.connecting
    requires forall k :: 0 <= k < |recvs| ==> recvs[k].Gives? ==> !c.peerEof
    ensures Inv(Receive(c, recvs, left)) && !Receive(c, recvs, left).connecting
    decreases left
  {
    hide Inv, Receive, Fail;
    ReceiveStep(c, recvs, left);
    if left > 0 && !c.closed {
      ProbeInv(c);
      var c' := Called(c, Probe);
      if recvs != [] {
        match recvs[0]
        case Gives(data) =>
          EmitInv(c', Data(data));
          ReceiveInv(Emit(c', Data(data)), recvs[1..], left - 1);
        case AtEof => if !c'.peerEof { EndInv(c'); }
        case RecvWouldBlock =>
        case RecvFails(why) =>
          FailInv(c', why);
          FailFields(c', why);
      }
    }
  }

  lemma TickInv(c: Conn, sel: SelectResult, recvs: seq<RecvResult>, sends: seq<SendResult>)
    requires Inv(c) && Legal(c, Tick(sel, recvs, sends))
    ensures Inv(DoTick(c, sel, recvs, sends))
  {
    if c.present && !c.closed {
      if c.connecting {
        ProbeInv(c);
        var c' := Called(c, Probe);
        match sel
        case StillConnecting =>
        case ConnectDone =>
          EmitInv(c'.(connecting := false), Connect);
          FlushInv(Emit(c'.(connecting := false), Connect), sends);
        case ConnectFails(why) => FailInv(c', "connect failed: " + why);
      } else {
        ReceiveInv(c, recvs, 8);
        var r := Receive(c, recvs, 8);
        if !r.closed {
          FlushInv(r, sends);
          var f := Flush(r, sends);
          if !f.closed { GracefulInv(f); }
        }
      }
    }
  }

  lemma WriteInv(c: Conn, bytes: Bytes, sends: seq<SendResult>)
    requires Inv(c)
    ensures Inv(DoWrite(c, bytes, sends))
  {
    if c.present && !c.closed && !c.endRequested && !c.wroteShutdown {
      var c' := c.(outBuf := c.outBuf + bytes, accepted := c.accepted + bytes);
      assert c'.accepted == Handed(c'.calls) + c'.outBuf;
      if !c'.connecting { FlushInv(c', sends); }
    }
  }

  lemma StepInv(c: Conn, i: Input)
    requires Inv(c) && Legal(c, i)
    ensures Inv(Step(c, i))
  {
    hide Inv, Flush, Receive, Fail, Graceful;
    match i
    case Write(bytes, sends) => WriteInv(c, bytes, sends);
    case EndCall(sends) => EndCallInv(c, sends);
    case CloseCall => if !c.closed { GracefulInv(c); }
    case Revoke(refusal) => FailInv(c, refusal);
    case Poll => PollInv(c);
    case Tick(sel, recvs, sends) => TickInv(c, sel, recvs, sends);
    case Sweep => SweepInv(c);
  }

  lemma EndCallInv(c: Conn, sends: seq<SendResult>)
    requires Inv(c)
    ensures Inv(DoEnd(c, sends))
  {
    if c.present && !c.closed {
      var c' := c.(endRequested := true);
      if !c'.connecting {
        FlushInv(c', sends);
        var f := Flush(c', sends);
        if !f.closed { GracefulInv(f); }
      }
    }
  }

  lemma PollInv(c: Conn)
    requires Inv(c)
    ensures Inv(DoPoll(c))
  {
    hide PhaseOf, Handed, CallsOk;
    if c.present && c.queue != [] {
      assert c.queue == [c.queue[0]] + c.queue[1..];
    }
  }

  lemma SweepInv(c: Conn)
    requires Inv(c)
    ensures Inv(DoSweep(c))
  {
  }

  // ----- runs -----

  function Run(c: Conn, inputs: seq<Input>): Conn
    decreases |inputs|
  {
    if inputs == [] then c else Run(Step(c, inputs[0]), inputs[1..])
  }

  ghost predicate LegalRun(c: Conn, inputs: seq<Input>)
    decreases |inputs|
  {
    inputs == [] || (Legal(c, inputs[0]) && LegalRun(Step(c, inputs[0]), inputs[1..]))
  }

  lemma OpenInv(o: Opening)
    ensures Inv(Open(o))
  {
    HandedMore([], Probe);
    PhaseMore([], Connect);
    if o.RefusedAtOnce? { FailInv(Called(Fresh(false), Probe), "connect failed: " + o.why); }
  }

  lemma {:induction false} RunInv(c: Conn, inputs: seq<Input>)
    requires Inv(c) && LegalRun(c, inputs)
    ensures Inv(Run(c, inputs))
    decreases |inputs|
  {
    hide Inv, Step;
    if inputs != [] {
      StepInv(c, inputs[0]);
      RunInv(Step(c, inputs[0]), inputs[1..]);
    }
  }

  /** In every run, whatever the kernel answers: the events form Connect? Data* End?
      and then at most one ending, Close(false) or Error with Close(true); JavaScript
      gets them in that order, all of them by the time it gets a Close; no call is
      made on the socket after it is closed; the FIN goes out at most once and
      nothing is sent after it; and the bytes the kernel took followed by outBuf are
      the bytes write accepted. */
  lemma EveryRun(o: Opening, inputs: seq<Input>)
    requires LegalRun(Open(o), inputs)
    ensures var c := Run(Open(o), inputs);
      && Grammatical(c.history)
      && c.delivered <= c.history
      && (c.delivered != [] && c.delivered[|c.delivered| - 1].Close? ==> c.delivered == c.history)
      && (forall i :: 0 <= i < |c.calls| - 1 ==> c.calls[i] != CloseFd)
      && (forall i, j :: 0 <= i < j < |c.calls| && c.calls[i] == Fin ==> c.calls[j] != Fin && !c.calls[j].Send?)
      && c.accepted == Handed(c.calls) + c.outBuf
      && (Fin in c.calls ==> Handed(c.calls) == c.accepted)
  {
    hide PhaseOf, Handed, Run, Open, Grammatical, LegalRun;
    OpenInv(o);
    RunInv(Open(o), inputs);
    var c := Run(Open(o), inputs);
    PhaseIsGrammar(c.history);
    assert Handed(c.calls) + [] == Handed(c.calls);
    if c.delivered != [] && c.delivered[|c.delivered| - 1].Close? {
      CloseIsLast(c.history, |c.delivered| - 1);
    }
  }

  lemma CloseIsLast(h: seq<NetEvent>, i: nat)
    requires Grammatical(h) && i < |h| && h[i].Close?
    ensures i == |h| - 1
  {
    var body := if IsBody(h) then h
                else if h[|h| - 1] == Close(false) && IsBody(h[..|h| - 1]) then h[..|h| - 1] else h[..|h| - 2];
    var c, e :| Body(body, c, e);
    forall j | 0 <= j < |body|
      ensures !h[j].Close?
    {
      assert body[j] == h[j];
    }
  }

  /** c' is c with nothing more done to the socket and nothing more queued. */
  ghost predicate SameRecord(c: Conn, c': Conn) {
    && c'.closed == c.closed && c'.history == c.history && c'.calls == c.calls && c'.accepted == c.accepted
    && c'.outBuf == c.outBuf && c'.wroteShutdown == c.wroteShutdown && c'.peerEof == c.peerEof
  }

  lemma ClosedStep(c: Conn, i: Input)
    requires c.closed
    ensures SameRecord(c, Step(c, i))
  {
    hide Flush, Receive;
  }

  /** A closed handle does nothing more to the socket and queues nothing more. */
  lemma {:induction false} ClosedIsFinal(c: Conn, inputs: seq<Input>)
    requires c.closed
    ensures SameRecord(c, Run(c, inputs))
    decreases |inputs|
  {
    hide Step;
    if inputs != [] {
      ClosedStep(c, inputs[0]);
      ClosedIsFinal(Step(c, inputs[0]), inputs[1..]);
    }
  }

  // ----- graceful endings -----

  /** An ending without error that the handle came to by itself. */
  ghost predicate EndedWell(c: Conn) {
    c.closed && c.history != [] && c.history[|c.history| - 1] == Close(false) ==> c.peerEof && c.wroteShutdown
  }

  lemma FailedBadly(c: Conn, message: string)
    requires !c.closed
    ensures EndedWell(Fail(c, message))
  {
  }

  lemma OpenEndsWell(c: Conn)
    requires !c.closed
    ensures EndedWell(FinSent(c)) && EndedWell(Called(c, Send([]))) && EndedWell(Called(c, Probe))
    ensures EndedWell(c) && EndedWell(Emit(Called(c, Probe).(peerEof := true, endRequested := true), End))
  {
  }

  lemma {:induction false} FlushEndsWell(c: Conn, sends: seq<SendResult>)
    requires !c.closed
    ensures EndedWell(Flush(c, sends))
    decreases |sends|
  {
    hide Fail, EndedWell;
    OpenEndsWell(c);
    if c.outBuf != [] && sends != [] && sends[0].SendFails? {
      FailedBadly(Called(c, Send([])), "send failed: " + sends[0].why);
    }
    if c.outBuf != [] && sends != [] && sends[0].Takes? {
      var k := Clip(sends[0].n, |c.outBuf|);
      FlushEndsWell(SomeSent(c, k), sends[1..]);
    }
  }

  lemma {:induction false} ReceiveEndsWell(c: Conn, recvs: seq<RecvResult>, left: nat)
    requires !c.closed
    ensures EndedWell(Receive(c, recvs, left))
    decreases left
  {
    hide Fail, EndedWell;
    OpenEndsWell(c);
    if left > 0 && recvs != [] {
      match recvs[0]
      case Gives(data) => ReceiveEndsWell(Emit(Called(c, Probe), Data(data)), recvs[1..], left - 1);
      case RecvFails(why) => FailedBadly(Called(c, Probe), why);
      case _ =>
    }
  }

  lemma StepEndsWell(c: Conn, i: Input)
    requires EndedWell(c) && !i.CloseCall?
    ensures EndedWell(Step(c, i))
  {
    hide Flush, Receive, Fail, PhaseOf;
    if c.closed {
      ClosedStep(c, i);
    } else if c.present {
      match i
      case Write(bytes, sends) => FlushEndsWell(c.(outBuf := c.outBuf + bytes, accepted := c.accepted + bytes), sends);
      case EndCall(sends) => FlushEndsWell(c.(endRequested := true), sends);
      case Revoke(refusal) => FailedBadly(c, refusal);
      case Tick(sel, recvs, sends) =>
        TickEndsWell(c, sel, recvs, sends);
      case _ =>
    }
  }

  lemma TickEndsWell(c: Conn, sel: SelectResult, recvs: seq<RecvResult>, sends: seq<SendResult>)
    requires EndedWell(c) && c.present && !c.closed
    ensures EndedWell(Step(c, Tick(sel, recvs, sends)))
  {
    hide Flush, Receive, Fail, PhaseOf;
    if c.connecting {
      FlushEndsWell(Emit(Called(c, Probe).(connecting := false), Connect), sends);
      if sel.ConnectFails? { FailedBadly(Called(c, Probe), "connect failed: " + sel.why); }
    } else {
      ReceiveEndsWell(c, recvs, 8);
      if !Receive(c, recvs, 8).closed { FlushEndsWell(Receive(c, recvs, 8), sends); }
    }
  }

  lemma {:induction false} RunEndsWell(c: Conn, inputs: seq<Input>)
    requires EndedWell(c) && forall i :: 0 <= i < |inputs| ==> !inputs[i].CloseCall?
    ensures EndedWell(Run(c, inputs))
    decreases |inputs|
  {
    hide EndedWell, Step;
    if inputs != [] {
      StepEndsWell(c, inputs[0]);
      RunEndsWell(Step(c, inputs[0]), inputs[1..]);
    }
  }

  /** JavaScript closed the open handle with accepted bytes not handed over yet. */
  predicate Drops(c: Conn, i: Input) { i.CloseCall? && c.present && !c.closed && c.outBuf != [] }

  ghost predicate SomeCloseDrops(c: Conn, inputs: seq<Input>) {
    exists k :: 0 <= k < |inputs| && Drops(Run(c, inputs[..k]), inputs[k])
  }

  ghost predicate EndedClean(c: Conn) {
    c.closed && c.history != [] && c.history[|c.history| - 1] == Close(false) ==> c.outBuf == []
  }

  lemma StepEndsClean(c: Conn, i: Input)
    requires Inv(c) && Inv(Step(c, i)) && EndedClean(c) && !Drops(c, i)
    ensures EndedClean(Step(c, i))
  {
    hide Flush, Receive, Fail, PhaseOf, CallsOk, Handed, DoWrite, DoEnd, DoTick, DoRevoke;
    if c.closed {
      ClosedStep(c, i);
    } else if !i.CloseCall? {
      StepEndsWell(c, i);
    }
  }

  lemma SomeCloseDropsOnce(c: Conn, inputs: seq<Input>)
    requires inputs != []
    ensures SomeCloseDrops(c, inputs) <==> Drops(c, inputs[0]) || SomeCloseDrops(Step(c, inputs[0]), inputs[1..])
  {
    hide Step, Drops;
    var next, rest := Step(c, inputs[0]), inputs[1..];
    assert inputs[..0] == [];
    forall k | 0 <= k < |rest|
      ensures Run(c, inputs[..k + 1]) == Run(next, rest[..k])
    {
      assert inputs[..k + 1][0] == inputs[0] && inputs[..k + 1][1..] == rest[..k];
    }
    if k :| 0 <= k < |inputs| && Drops(Run(c, inputs[..k]), inputs[k]) {
      if k > 0 { assert Drops(Run(next, rest[..k - 1]), rest[k - 1]); }
    }
    if k :| 0 <= k < |rest| && Drops(Run(next, rest[..k]), rest[k]) {
      assert Drops(Run(c, inputs[..k + 1]), inputs[k + 1]);
    }
    if Drops(c, inputs[0]) { assert Drops(Run(c, inputs[..0]), inputs[0]); }
  }

  lemma {:induction false} RunEndsClean(c: Conn, inputs: seq<Input>)
    requires Inv(c) && LegalRun(c, inputs) && EndedClean(c) && !SomeCloseDrops(c, inputs)
    ensures EndedClean(Run(c, inputs))
    decreases |inputs|
  {
    hide EndedClean, Step, Inv, SomeCloseDrops, Drops;
    if inputs != [] {
      SomeCloseDropsOnce(c, inputs);
      StepInv(c, inputs[0]);
      StepEndsClean(c, inputs[0]);
      RunEndsClean(Step(c, inputs[0]), inputs[1..]);
    }
  }

  /** What a close call drops is never handed over. */
  lemma {:induction false} DroppedStays(c: Conn, inputs: seq<Input>)
    requires SomeCloseDrops(c, inputs)
    ensures Run(c, inputs).outBuf != []
    decreases |inputs|
  {
    hide SomeCloseDrops, Drops;
    assert inputs != [] by { NoneDropsNothing(c, inputs); }
    SomeCloseDropsOnce(c, inputs);
    if Drops(c, inputs[0]) {
      DropCloses(c, inputs[0]);
      ClosedIsFinal(Step(c, inputs[0]), inputs[1..]);
    } else {
      DroppedStays(Step(c, inputs[0]), inputs[1..]);
    }
  }

  lemma NoneDropsNothing(c: Conn, inputs: seq<Input>)
    ensures inputs == [] ==> !SomeCloseDrops(c, inputs)
  {
  }

  lemma DropCloses(c: Conn, i: Input)
    requires Drops(c, i)
    ensures Step(c, i).closed && Step(c, i).outBuf == c.outBuf != []
  {
  }

  lemma HandedIsAll(c: Conn)
    requires Inv(c)
    ensures Handed(c.calls) == c.accepted <==> c.outBuf == []
  {
    hide Handed, PhaseOf, CallsOk;
    if c.outBuf == [] { assert Handed(c.calls) + [] == Handed(c.calls); }
  }

  /** Behind a Close without error every accepted byte was handed to the kernel if and
      only if JavaScript made no close call on the open handle with bytes still
      waiting in it; and if it made no close call at all, the peer's end of file was
      seen and the FIN was sent. */
  lemma CleanCloseSentEverything(o: Opening, inputs: seq<Input>)
    requires LegalRun(Open(o), inputs)
    requires var h := Run(Open(o), inputs).history; h != [] && h[|h| - 1] == Close(false)
    ensures var c := Run(Open(o), inputs);
      && (Handed(c.calls) == c.accepted <==> !SomeCloseDrops(Open(o), inputs))
      && ((forall i :: 0 <= i < |inputs| ==> !inputs[i].CloseCall?) ==> c.peerEof && Fin in c.calls)
  {
    hide Open, Run, Handed, SomeCloseDrops, LegalRun, EndedWell;
    OpenInv(o);
    RunInv(Open(o), inputs);
    var c := Run(Open(o), inputs);
    HandedIsAll(c);
    OpeningEndsWell(o);
    ClosedByEnding(c);
    if SomeCloseDrops(Open(o), inputs) {
      DroppedStays(Open(o), inputs);
    } else {
      RunEndsClean(Open(o), inputs);
    }
    if forall i :: 0 <= i < |inputs| ==> !inputs[i].CloseCall? {
      RunEndsWell(Open(o), inputs);
      FinOfEnding(c);
    }
  }

  lemma ClosedByEnding(c: Conn)
    requires Inv(c) && c.history != [] && c.history[|c.history| - 1] == Close(false)
    ensures c.closed
  {
  }

  lemma FinOfEnding(c: Conn)
    requires Inv(c) && EndedWell(c) && c.history != [] && c.history[|c.history| - 1] == Close(false)
    ensures c.peerEof && Fin in c.calls
  {
    ClosedByEnding(c);
  }

  /** A run that drops a byte: the kernel takes nothing of a write, and JavaScript
      closes. */
  lemma CloseDropsAByte(b: bv8)
    ensures var inputs := [Write([b], [SendWouldBlock]), CloseCall];
            var c := Run(Open(AcceptedConn), inputs);
      && LegalRun(Open(AcceptedConn), inputs) && c.history == [Close(false)]
      && c.accepted == [b] && Handed(c.calls) == []
  {
    var i1, i2 := Write([b], [SendWouldBlock]), CloseCall;
    var c := Open(AcceptedConn);
    var c1 := Step(c, i1);
    assert [i1, i2][1..] == [i2] && [i2][1..] == [];
    assert c.outBuf + [b] == [b] && c.accepted + [b] == [b];
    assert c1.calls == [Send([])] && c1.outBuf == [b];
    var c2 := Step(c1, i2);
    assert Run(c, [i1, i2]) == Run(c1, [i2]) == Run(c2, []) == c2;
    assert c2.calls == [Send([]), CloseFd];
    HandedMore([Send([])], CloseFd);
    HandedMore([], Send([]));
    assert [Send([])] + [CloseFd] == [Send([]), CloseFd] && [] + [Send([])] == [Send([])];
  }

  lemma OpeningEndsWell(o: Opening)
    ensures EndedWell(Open(o)) && EndedClean(Open(o))
  {
    if o.RefusedAtOnce? { FailedBadly(Called(Fresh(false), Probe), "connect failed: " + o.why); }
  }

  // ----- the handle itself -----

  class NetHandle {
    var present: bool
    var fdOpen: bool
    var connecting: bool
    var peerEof: bool
    var endRequested: bool
    var wroteShutdown: bool
    var closed: bool
    var errored: bool
    var closedSweeps: nat
    var outBuf: Bytes
    var events: seq<NetEvent>
    ghost var history: seq<NetEvent>
    ghost var delivered: seq<NetEvent>
    ghost var accepted: Bytes
    ghost var calls: seq<Call>

    ghost function View(): (c: Conn)
      reads this
      ensures c.closed == closed && c.outBuf == outBuf && c.peerEof == peerEof
      ensures c.endRequested == endRequested && c.wroteShutdown == wroteShutdown
    {
      Conn(present, fdOpen, connecting, peerEof, endRequested, wroteShutdown, closed, errored, closedSweeps,
           outBuf, events, history, delivered, accepted, calls)
    }

    constructor (connecting: bool)
      ensures View() == Fresh(connecting)
    {
      present, fdOpen, this.connecting, peerEof, endRequested := true, true, connecting, false, false;
      wroteShutdown, closed, errored, closedSweeps := false, false, false, 0;
      outBuf, events, history, delivered, accepted, calls := [], [], [], [], [], [];
    }

    method QueueEvent(e: NetEvent)
      modifies this`events, this`history
      ensures View() == Emit(old(View()), e)
    {
      events := events + [e];
      history := history + [e];
    }

    method CloseHard()
      modifies this`fdOpen, this`closed, this`calls
      ensures View() == HardClose(old(View()))
    {
      if fdOpen {
        calls := calls + [CloseFd];
        fdOpen := false;
      }
      closed := true;
    }

    method FailHandle(message: string)
      modifies this`errored, this`events, this`history, this`fdOpen, this`closed, this`calls
      ensures View() == Fail(old(View()), message)
    {
      hide Emit, HardClose;
      ghost var before := View();
      if closed { return; }
      errored := true;
      assert View() == before.(errored := true);
      QueueEvent(Error(message));
      CloseHard();
      QueueEvent(Close(true));
    }

    /** Records a call on the socket. */
    method Note(k: Call)
      modifies this`calls
      ensures View() == Called(old(View()), k)
    {
      calls := calls + [k];
    }

    method Hand(k: nat)
      requires k <= |outBuf|
      modifies this`calls, this`outBuf
      ensures View() == SomeSent(old(View()), k)
    {
      calls := calls + [Send(outBuf[..k])];
      outBuf := outBuf[k..];
    }

    method HalfClose()
      modifies this`calls, this`wroteShutdown
      ensures View() == FinSent(old(View()))
    {
      calls := calls + [Fin];
      wroteShutdown := true;
    }

    method SeeEof()
      modifies this`peerEof, this`events, this`history, this`endRequested
      ensures View() == Emit(old(View()).(peerEof := true, endRequested := true), End)
    {
      peerEof := true;
      QueueEvent(End);
      endRequested := true;
    }

    method FlushOutBuf(sends: seq<SendResult>)
      modifies this
      ensures View() == Flush(old(View()), sends)
    {
      hide *;
      ghost var start := View();
      var i := 0;
      while outBuf != []
        invariant i <= |sends|
        invariant Flush(View(), sends[i..]) == Flush(start, sends)
        decreases |sends| - i
      {
        FlushStep(View(), sends[i..]);
        if i == |sends| || sends[i] == SendWouldBlock {
          Note(Send([]));
          return;
        }
        match sends[i] {
          case Takes(n) =>
            Hand(Clip(n, |outBuf|));
          case SendFails(why) =>
            Note(Send([]));
            FailHandle("send failed: " + why);
            return;
        }
        assert sends[i..][1..] == sends[i + 1..];
        i := i + 1;
      }
      FlushStep(View(), sends[i..]);
      if endRequested && !wroteShutdown { HalfClose(); }
    }

    /** js_net_write. */
    method WriteBytes(bytes: Bytes, sends: seq<SendResult>) returns (ok: bool)
      modifies this
      ensures View() == DoWrite(old(View()), bytes, sends)
      ensures ok == old(present && !closed && !endRequested && !wroteShutdown)
    {
      if !present || closed || endRequested || wroteShutdown { return false; }
      outBuf := outBuf + bytes;
      accepted := accepted + bytes;
      if !connecting { FlushOutBuf(sends); }
      return true;
    }

    /** js_net_end. */
    method EndWriting(sends: seq<SendResult>) returns (ok: bool)
      modifies this
      ensures View() == DoEnd(old(View()), sends)
      ensures ok == old(present && !closed)
    {
      if !present || closed { return false; }
      endRequested := true;
      if !connecting {
        FlushOutBuf(sends);
        if peerEof && wroteShutdown && !closed {
          CloseHard();
          QueueEvent(Close(false));
        }
      }
      return true;
    }

    /** js_net_close. */
    method CloseNow() returns (ok: bool)
      modifies this
      ensures View() == DoClose(old(View()))
      ensures ok == old(present && !closed)
    {
      if !present || closed { return false; }
      CloseHard();
      QueueEvent(Close(false));
      return true;
    }

    /** revokeHandle. */
    method RevokeNow(refusal: string)
      modifies this
      ensures View() == DoRevoke(old(View()), refusal)
    {
      if !present || closed { return; }
      FailHandle(refusal);
    }

    /** js_net_poll. */
    method PollEvent() returns (e: Option<NetEvent>)
      modifies this
      ensures View() == DoPoll(old(View()))
      ensures e == old(if present && events != [] then Some(events[0]) else None)
    {
      if !present || events == [] { return None; }
      e := Some(events[0]);
      events := events[1..];
      delivered := delivered + [e.value];
      present := !e.value.Close?;
    }

    /** The read loop of the tick. */
    method ReceiveAll(recvs: seq<RecvResult>)
      requires !closed
      modifies this
      ensures View() == Receive(old(View()), recvs, 8)
    {
      hide *;
      ghost var start := View();
      var i := 0;
      while i < 8 && !closed
        invariant i <= 8 && i <= |recvs|
        invariant Receive(View(), recvs[i..], 8 - i) == Receive(start, recvs, 8)
        decreases 8 - i
      {
        ReceiveStep(View(), recvs[i..], 8 - i);
        Note(Probe);
        if i == |recvs| || recvs[i] == RecvWouldBlock { return; }
        match recvs[i] {
          case Gives(data) =>
            QueueEvent(Data(data));
          case AtEof =>
            if !peerEof { SeeEof(); }
            return;
          case RecvFails(why) =>
            FailHandle(why);
            return;
        }
        assert recvs[i..][1..] == recvs[i + 1..];
        i := i + 1;
      }
      ReceiveStep(View(), recvs[i..], 8 - i);
    }

    /** One handle's turn in js_net_tick. */
    method TickOnce(sel: SelectResult, recvs: seq<RecvResult>, sends: seq<SendResult>)
      modifies this
      ensures View() == DoTick(old(View()), sel, recvs, sends)
    {
      hide Fail, Flush, Receive;
      if !present || closed { return; }
      if connecting {
        calls := calls + [Probe];
        match sel {
          case StillConnecting =>
          case ConnectDone =>
            connecting := false;
            QueueEvent(Connect);
            FlushOutBuf(sends);
          case ConnectFails(why) =>
            FailHandle("connect failed: " + why);
        }
        return;
      }
      ReceiveAll(recvs);
      if closed { return; }
      FlushOutBuf(sends);
      if closed { return; }
      if peerEof && wroteShutdown {
        CloseHard();
        QueueEvent(Close(false));
      }
    }

    /** The reaping at the end of a tick. */
    method SweepOnce()
      modifies this`closedSweeps, this`present
      ensures View() == DoSweep(old(View()))
    {
      if present && closed {
        closedSweeps := closedSweeps + 1;
        if closedSweeps > 1 { present := false; }
      }
    }
  }
}
