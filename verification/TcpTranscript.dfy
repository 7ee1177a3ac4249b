/** What a TCP handle does, told by what was asked of it and what the kernel answered: the
    events it queues, the bytes it takes in and the bytes it hands over.
 */
module TcpTranscript {
  import opened Common
  import opened TcpHandle

  // ----- one flush -----

  /** What the kernel takes before it first does not: at least a byte a call. */
  function Capacity(sends: seq<SendResult>): nat {
    if sends == [] || !sends[0].Takes? then 0 else (if sends[0].n == 0 then 1 else sends[0].n) + Capacity(sends[1..])
  }

  /** Its first answer that is not to take anything. */
  function Refusal(sends: seq<SendResult>): SendResult {
    if sends == [] then SendWouldBlock else if sends[0].Takes? then Refusal(sends[1..]) else sends[0]
  }

  function Gone(out: Bytes, sends: seq<SendResult>): nat {
    if Capacity(sends) < |out| then Capacity(sends) else |out|
  }

  function FlushEvents(out: Bytes, sends: seq<SendResult>): seq<NetEvent> {
    if Capacity(sends) < |out| && Refusal(sends).SendFails?
    then [Error("send failed: " + Refusal(sends).why), Close(true)] else []
  }

  /** A flush hands over the first bytes, as many as the kernel takes. If that is all, the
      FIN follows if the end was asked for; if not, a refusal that is not to block fails
      the handle. */
  ghost predicate Flushed(c: Conn, sends: seq<SendResult>, f: Conn) {
    var k := Gone(c.outBuf, sends);
    && Handed(f.calls) == Handed(c.calls) + c.outBuf[..k] && f.outBuf == c.outBuf[k..]
    && f.history == c.history + FlushEvents(c.outBuf, sends)
    && (f.closed <==> FlushEvents(c.outBuf, sends) != [])
    && (f.wroteShutdown <==> c.wroteShutdown || (c.endRequested && Capacity(sends) >= |c.outBuf|))
    && f.present == c.present && f.connecting == c.connecting && f.peerEof == c.peerEof
    && f.endRequested == c.endRequested && f.accepted == c.accepted && f.delivered == c.delivered
    && f.closedSweeps == c.closedSweeps
  }

  lemma {:induction false} FlushIs(c: Conn, sends: seq<SendResult>)
    requires !c.closed
    ensures Flushed(c, sends, Flush(c, sends))
    decreases |sends|
  {
    hide *;
    FlushStep(c, sends);
    SendsOnce(c.outBuf, sends);
    if c.outBuf == [] {
      NothingToFlush(c, sends);
    } else if sends == [] || sends[0] == SendWouldBlock {
      Blocked(c, sends);
    } else if sends[0].SendFails? {
      Refused(c, sends);
    } else {
      var k := Clip(sends[0].n, |c.outBuf|);
      StillOpen(c, k);
      FlushIs(SomeSent(c, k), sends[1..]);
      TakesThen(c, sends, k, Flush(SomeSent(c, k), sends[1..]));
    }
  }

  lemma SendsOnce(out: Bytes, sends: seq<SendResult>)
    ensures sends == [] || !sends[0].Takes? ==> Capacity(sends) == 0
    ensures sends == [] || sends[0] == SendWouldBlock ==> Refusal(sends) == SendWouldBlock
    ensures sends != [] && sends[0].SendFails? ==> Refusal(sends) == sends[0]
  {
  }

  lemma NothingToFlush(c: Conn, sends: seq<SendResult>)
    requires !c.closed && c.outBuf == []
    ensures Flushed(c, sends, if c.endRequested && !c.wroteShutdown then FinSent(c) else c)
  {
    hide Handed, Capacity;
    HandedMore(c.calls, Fin);
    assert Handed(c.calls) + [] == Handed(c.calls) && c.history + [] == c.history;
  }

  lemma Blocked(c: Conn, sends: seq<SendResult>)
    requires !c.closed && c.outBuf != [] && Capacity(sends) == 0 && !Refusal(sends).SendFails?
    ensures Flushed(c, sends, Called(c, Send([])))
  {
    hide Handed, Capacity, Refusal;
    HandedMore(c.calls, Send([]));
    assert Handed(c.calls) + [] == Handed(c.calls) && c.history + [] == c.history && c.outBuf[..0] == [];
  }

  lemma Refused(c: Conn, sends: seq<SendResult>)
    requires !c.closed && c.outBuf != [] && Capacity(sends) == 0 && Refusal(sends).SendFails?
    ensures Flushed(c, sends, Fail(Called(c, Send([])), "send failed: " + Refusal(sends).why))
  {
    hide Handed, Capacity, Refusal;
    HandedMore(c.calls, Send([]));
    HandedMore(c.calls + [Send([])], CloseFd);
    assert Handed(c.calls) + [] == Handed(c.calls) && c.outBuf[..0] == [];
    var m := "send failed: " + Refusal(sends).why;
    assert c.history + [Error(m)] + [Close(true)] == c.history + [Error(m), Close(true)];
  }

  lemma StillOpen(c: Conn, k: nat)
    requires k <= |c.outBuf|
    ensures SomeSent(c, k).closed == c.closed && SomeSent(c, k).outBuf == c.outBuf[k..]
  {
  }

  lemma TakesThen(c: Conn, sends: seq<SendResult>, k: nat, f: Conn)
    requires !c.closed && c.outBuf != [] && sends != [] && sends[0].Takes? && k == Clip(sends[0].n, |c.outBuf|)
    requires Flushed(SomeSent(c, k), sends[1..], f)
    ensures Flushed(c, sends, f)
  {
    hide Handed;
    HandedMore(c.calls, Send(c.outBuf[..k]));
    var rest := c.outBuf[k..];
    var g := Gone(rest, sends[1..]);
    assert Gone(c.outBuf, sends) == k + g;
    assert c.outBuf[..k] + rest[..g] == c.outBuf[..k + g] && rest[g..] == c.outBuf[k + g..];
    assert Handed(c.calls) + c.outBuf[..k] + rest[..g] == Handed(c.calls) + (c.outBuf[..k] + rest[..g]);
  }

  // ----- one read loop -----

  /** The answers the read loop gets to: up to `left`, and none after one that ends it. */
  function Heard(recvs: seq<RecvResult>, left: nat): seq<RecvResult>
    decreases left
  {
    if left == 0 || recvs == [] then []
    else if recvs[0].Gives? then [recvs[0]] + Heard(recvs[1..], left - 1)
    else [recvs[0]]
  }

  /** What an answer is to JavaScript, when the peer's end was reported already or not. */
  function EventOf(r: RecvResult, eof: bool): seq<NetEvent> {
    match r
    case Gives(data) => [Data(data)]
    case AtEof => if eof then [] else [End]
    case RecvWouldBlock => []
    case RecvFails(why) => [Error(why), Close(true)]
  }

  function EventsOf(h: seq<RecvResult>, eof: bool): seq<NetEvent> {
    if h == [] then [] else EventOf(h[0], eof) + EventsOf(h[1..], eof)
  }

  predicate Fails(h: seq<RecvResult>) { h != [] && h[|h| - 1].RecvFails? }

  predicate Ends(h: seq<RecvResult>) { h != [] && h[|h| - 1].AtEof? }

  ghost predicate Received(c: Conn, h: seq<RecvResult>, r: Conn) {
    && r.history == c.history + EventsOf(h, c.peerEof) && (r.closed <==> Fails(h))
    && (r.peerEof <==> c.peerEof || Ends(h)) && (r.endRequested <==> c.endRequested || (Ends(h) && !c.peerEof))
    && Handed(r.calls) == Handed(c.calls) && r.outBuf == c.outBuf && r.wroteShutdown == c.wroteShutdown
    && r.present == c.present && r.connecting == c.connecting && r.accepted == c.accepted
    && r.delivered == c.delivered && r.closedSweeps == c.closedSweeps
  }

  lemma {:induction false} ReceiveIs(c: Conn, recvs: seq<RecvResult>, left: nat)
    requires !c.closed
    ensures Received(c, Heard(recvs, left), Receive(c, recvs, left))
    decreases left
  {
    hide *;
    ReceiveStep(c, recvs, left);
    HeardOnce(recvs, left);
    if left == 0 || recvs == [] {
      HeardNothing(c);
    } else if recvs[0].Gives? {
      var c' := Emit(Called(c, Probe), Data(recvs[0].data));
      Opens(c, recvs[0].data);
      ReceiveIs(c', recvs[1..], left - 1);
      GivesThen(c, recvs[0].data, Heard(recvs[1..], left - 1), Receive(c', recvs[1..], left - 1));
    } else {
      HeardOne(c, recvs[0]);
    }
  }

  lemma HeardOnce(recvs: seq<RecvResult>, left: nat)
    ensures Heard(recvs, left) ==
            if left == 0 || recvs == [] then []
            else if recvs[0].Gives? then [recvs[0]] + Heard(recvs[1..], left - 1)
            else [recvs[0]]
  {
  }

  lemma HeardNothing(c: Conn)
    requires !c.closed
    ensures Received(c, [], c) && Received(c, [], Called(c, Probe))
  {
    hide Handed;
    HandedMore(c.calls, Probe);
    assert Handed(c.calls) + [] == Handed(c.calls) && c.history + [] == c.history;
  }

  lemma Opens(c: Conn, data: Bytes)
    ensures Emit(Called(c, Probe), Data(data)).closed == c.closed
  {
  }

  lemma GivesThen(c: Conn, data: Bytes, h: seq<RecvResult>, r: Conn)
    requires !c.closed && Received(Emit(Called(c, Probe), Data(data)), h, r)
    ensures Received(c, [Gives(data)] + h, r)
  {
    hide Handed;
    HandedMore(c.calls, Probe);
    assert Handed(c.calls) + [] == Handed(c.calls);
    assert ([Gives(data)] + h)[1..] == h;
    assert c.history + ([Data(data)] + EventsOf(h, c.peerEof)) == c.history + [Data(data)] + EventsOf(h, c.peerEof);
    if h != [] { assert ([Gives(data)] + h)[|h|] == h[|h| - 1]; }
  }

  lemma HeardOne(c: Conn, a: RecvResult)
    requires !c.closed && !a.Gives?
    ensures var c' := Called(c, Probe);
      Received(c, [a], if a.RecvWouldBlock? then c'
                       else if a.RecvFails? then Fail(c', a.why)
                       else if c'.peerEof then c'
                       else Emit(c'.(peerEof := true, endRequested := true), End))
  {
    hide Handed, Fail;
    HandedMore(c.calls, Probe);
    assert Handed(c.calls) + [] == Handed(c.calls) && c.history + [] == c.history;
    OneEvent(a, c.peerEof);
    if a.RecvFails? { FailShows(Called(c, Probe), a.why); }
  }

  lemma OneEvent(a: RecvResult, eof: bool)
    ensures EventsOf([a], eof) == EventOf(a, eof)
  {
    assert [a][1..] == [] && EventsOf([], eof) == [];
    assert EventOf(a, eof) + [] == EventOf(a, eof);
  }

  // ----- one step -----

  /** The write is taken. */
  predicate Takes(c: Conn) { c.present && !c.closed && !c.endRequested && !c.wroteShutdown }

  function StepEvents(c: Conn, i: Input): seq<NetEvent> {
    if !c.present || c.closed then []
    else
      match i
      case Write(bytes, sends) => if !Takes(c) || c.connecting then [] else FlushEvents(c.outBuf + bytes, sends)
      case EndCall(sends) =>
        if c.connecting then [] else FlushEvents(c.outBuf, sends) + Ending(c.peerEof, c.outBuf, sends)
      case CloseCall => [Close(false)]
      case Revoke(refusal) => [Error(refusal), Close(true)]
      case Tick(sel, recvs, sends) =>
        if c.connecting then
          match sel
          case StillConnecting => []
          case ConnectDone => [Connect] + FlushEvents(c.outBuf, sends)
          case ConnectFails(why) => [Error("connect failed: " + why), Close(true)]
        else
          var h := Heard(recvs, 8);
          EventsOf(h, c.peerEof)
          + if Fails(h) then [] else FlushEvents(c.outBuf, sends) + Ending(c.peerEof || Ends(h), c.outBuf, sends)
      case _ => []
  }

  /** With the peer's end seen, and so ours asked for, nothing left to send closes. */
  function Ending(eof: bool, out: Bytes, sends: seq<SendResult>): seq<NetEvent> {
    if eof && Capacity(sends) >= |out| then [Close(false)] else []
  }

  /** What the step puts in front of send. */
  function Offered(c: Conn, i: Input): (out: Bytes) {
    if !c.present || c.closed then []
    else
      match i
      case Write(bytes, _) => if !Takes(c) || c.connecting then [] else c.outBuf + bytes
      case EndCall(_) => if c.connecting then [] else c.outBuf
      case Tick(sel, recvs, _) =>
        if c.connecting then if sel.ConnectDone? then c.outBuf else []
        else if Fails(Heard(recvs, 8)) then [] else c.outBuf
      case _ => []
  }

  function SendsOf(i: Input): seq<SendResult> {
    match i
    case Write(_, sends) => sends
    case EndCall(sends) => sends
    case Tick(_, _, sends) => sends
    case _ => []
  }

  function StepHanded(c: Conn, i: Input): Bytes { Offered(c, i)[..Gone(Offered(c, i), SendsOf(i))] }

  function StepWritten(c: Conn, i: Input): Bytes { if i.Write? && Takes(c) then i.bytes else [] }

  /** The end was asked for in this step: by JavaScript, or by the peer's. */
  predicate AsksEnd(c: Conn, i: Input) {
    c.present && !c.closed
    && (i.EndCall? || (i.Tick? && !c.connecting && Ends(Heard(i.recvs, 8)) && !c.peerEof))
  }

  predicate SweepsClosed(c: Conn, i: Input) { i.Sweep? && c.present && c.closed }

  predicate Polls(c: Conn, i: Input) { i.Poll? && c.present && |c.delivered| < |c.history| }

  /** Everything a step changes that shows. */
  ghost predicate Shows(c: Conn, i: Input, c': Conn) {
    && c'.history == c.history + StepEvents(c, i)
    && Handed(c'.calls) == Handed(c.calls) + StepHanded(c, i)
    && c'.accepted == c.accepted + StepWritten(c, i)
    && (c'.endRequested <==> c.endRequested || AsksEnd(c, i))
    && (c'.connecting <==> c.connecting && Connect !in StepEvents(c, i))
    && c'.closedSweeps == c.closedSweeps + (if SweepsClosed(c, i) then 1 else 0)
    && c'.delivered == (if Polls(c, i) then c.history[..|c.delivered| + 1] else c.delivered)
    && (c'.present <==> c.present && !(SweepsClosed(c, i) && c.closedSweeps >= 1)
                        && !(Polls(c, i) && c.history[|c.delivered|].Close?))
  }

  lemma NothingHanded(c: Conn, i: Input)
    ensures Offered(c, i) == [] ==> StepHanded(c, i) == []
  {
    hide Offered, Capacity;
  }

  lemma Nothing(c: Conn)
    ensures c.history + [] == c.history && Handed(c.calls) + [] == Handed(c.calls) && c.accepted + [] == c.accepted
  {
  }

  lemma StepShows(c: Conn, i: Input)
    requires Inv(c)
    ensures Shows(c, i, Step(c, i))
  {
    hide Flush, Receive, Fail, Graceful, Handed, PhaseOf, CallsOk, FlushEvents, EventsOf, Heard, Gone, Inv;
    Nothing(c);
    NothingHanded(c, i);
    if !c.present || c.closed {
      IdleShows(c, i);
    } else {
      match i
      case Write(bytes, sends) => WriteShows(c, bytes, sends);
      case EndCall(sends) => EndShows(c, sends);
      case CloseCall => GracefulShows(c);
      case Revoke(refusal) => FailShows(c, refusal);
      case Poll => PollShows(c);
      case Tick(sel, recvs, sends) =>
        if c.connecting { ConnectShows(c, sel, recvs, sends); } else { TickShows(c, sel, recvs, sends); }
      case Sweep =>
    }
  }

  lemma IdleShows(c: Conn, i: Input)
    requires Inv(c) && (!c.present || c.closed)
    ensures Shows(c, i, Step(c, i))
  {
    hide Flush, Receive, Handed, PhaseOf, CallsOk;
    Nothing(c);
    NothingHanded(c, i);
    if i.Poll? && c.present { PollShows(c); }
  }

  lemma PollShows(c: Conn)
    requires Inv(c) && c.present
    ensures Shows(c, Poll, Step(c, Poll))
  {
    hide Handed, PhaseOf, CallsOk;
    Nothing(c);
    if c.queue != [] {
      assert c.history[|c.delivered|] == c.queue[0];
      assert c.history[..|c.delivered| + 1] == c.delivered + [c.queue[0]];
    }
  }

  lemma GracefulShows(c: Conn)
    requires !c.closed
    ensures var g := Graceful(c);
      && g.history == c.history + [Close(false)] && Handed(g.calls) == Handed(c.calls)
      && g == c.(history := g.history, queue := g.queue, calls := g.calls, fdOpen := false, closed := true)
  {
    hide Handed;
    HandedMore(c.calls, CloseFd);
    assert Handed(c.calls) + [] == Handed(c.calls);
  }

  lemma FailShows(c: Conn, message: string)
    requires !c.closed
    ensures var g := Fail(c, message);
      && g.history == c.history + [Error(message), Close(true)] && Handed(g.calls) == Handed(c.calls)
      && g == c.(history := g.history, queue := g.queue, calls := g.calls, fdOpen := false, closed := true,
                 errored := true)
  {
    hide Handed;
    HandedMore(c.calls, CloseFd);
    assert Handed(c.calls) + [] == Handed(c.calls);
    assert c.history + [Error(message)] + [Close(true)] == c.history + [Error(message), Close(true)];
  }

  lemma FlushIsQuiet(out: Bytes, sends: seq<SendResult>, e: NetEvent)
    requires e == Connect
    ensures e !in FlushEvents(out, sends)
  {
  }

  lemma WriteShows(c: Conn, bytes: Bytes, sends: seq<SendResult>)
    requires c.present && !c.closed
    ensures Shows(c, Write(bytes, sends), Step(c, Write(bytes, sends)))
  {
    hide Flush, Handed, FlushEvents, Gone, Capacity;
    Nothing(c);
    NothingHanded(c, Write(bytes, sends));
    if Takes(c) && !c.connecting {
      var c' := c.(outBuf := c.outBuf + bytes, accepted := c.accepted + bytes);
      FlushIs(c', sends);
      FlushIsQuiet(c'.outBuf, sends, Connect);
    }
  }

  lemma EndShows(c: Conn, sends: seq<SendResult>)
    requires Inv(c) && c.present && !c.closed
    ensures Shows(c, EndCall(sends), Step(c, EndCall(sends)))
  {
    hide Flush, Handed, FlushEvents, Gone, Capacity, Graceful, PhaseOf, CallsOk;
    Nothing(c);
    NothingHanded(c, EndCall(sends));
    if !c.connecting {
      var c' := c.(endRequested := true);
      FlushIs(c', sends);
      FlushIsQuiet(c.outBuf, sends, Connect);
      EndsQuietly(c', sends, Flush(c', sends), c.peerEof);
    }
  }

  /** Behind a flush: the handle closes exactly if the peer's end is seen and all is sent. */
  lemma EndsQuietly(c: Conn, sends: seq<SendResult>, f: Conn, eof: bool)
    requires Flushed(c, sends, f) && c.endRequested && c.peerEof == eof && !c.closed
    requires c.wroteShutdown ==> c.outBuf == []
    ensures var g := if !f.closed && f.peerEof && f.wroteShutdown then Graceful(f) else f;
      && g.history == f.history + Ending(eof, c.outBuf, sends) && Handed(g.calls) == Handed(f.calls)
      && g.accepted == f.accepted && g.endRequested == f.endRequested && g.connecting == f.connecting
      && g.closedSweeps == f.closedSweeps && g.delivered == f.delivered && g.present == f.present
      && g.history == c.history + (FlushEvents(c.outBuf, sends) + Ending(eof, c.outBuf, sends))
  {
    hide Handed, Graceful;
    if !f.closed && f.peerEof && f.wroteShutdown { GracefulShows(f); }
    assert f.history + [] == f.history;
    assert c.history + FlushEvents(c.outBuf, sends) + Ending(eof, c.outBuf, sends)
        == c.history + (FlushEvents(c.outBuf, sends) + Ending(eof, c.outBuf, sends));
  }

  lemma ConnectShows(c: Conn, sel: SelectResult, recvs: seq<RecvResult>, sends: seq<SendResult>)
    requires c.present && !c.closed && c.connecting
    ensures Shows(c, Tick(sel, recvs, sends), Step(c, Tick(sel, recvs, sends)))
  {
    hide Flush, Handed, FlushEvents, Gone, Capacity, Fail;
    Nothing(c);
    NothingHanded(c, Tick(sel, recvs, sends));
    HandedMore(c.calls, Probe);
    var p := Called(c, Probe);
    match sel
    case StillConnecting =>
    case ConnectDone =>
      var c' := Emit(p.(connecting := false), Connect);
      FlushIs(c', sends);
      var e := FlushEvents(c.outBuf, sends);
      assert c.history + [Connect] + e == c.history + ([Connect] + e);
    case ConnectFails(why) => FailShows(p, "connect failed: " + why);
  }

  lemma {:induction false} HeardIsQuiet(h: seq<RecvResult>, eof: bool)
    ensures Connect !in EventsOf(h, eof)
  {
    if h != [] { HeardIsQuiet(h[1..], eof); }
  }

  lemma TickShows(c: Conn, sel: SelectResult, recvs: seq<RecvResult>, sends: seq<SendResult>)
    requires Inv(c) && c.present && !c.closed && !c.connecting
    ensures Shows(c, Tick(sel, recvs, sends), Step(c, Tick(sel, recvs, sends)))
  {
    hide Flush, Receive, Handed, FlushEvents, EventsOf, Heard, Gone, Capacity, Graceful, PhaseOf, CallsOk;
    Nothing(c);
    NothingHanded(c, Tick(sel, recvs, sends));
    var h := Heard(recvs, 8);
    var r := Receive(c, recvs, 8);
    ReceiveIs(c, recvs, 8);
    HeardIsQuiet(h, c.peerEof);
    FlushIsQuiet(c.outBuf, sends, Connect);
    var e := EventsOf(h, c.peerEof);
    assert e + [] == e;
    if !r.closed {
      FlushIs(r, sends);
      var f := Flush(r, sends);
      if r.peerEof {
        EndsQuietly(r, sends, f, true);
      }
      assert c.history + e + FlushEvents(c.outBuf, sends) == c.history + (e + FlushEvents(c.outBuf, sends));
      assert FlushEvents(c.outBuf, sends) + [] == FlushEvents(c.outBuf, sends);
      assert c.history + e + (FlushEvents(c.outBuf, sends) + Ending(r.peerEof, c.outBuf, sends))
          == c.history + (e + (FlushEvents(c.outBuf, sends) + Ending(r.peerEof, c.outBuf, sends)));
    }
  }

  // ----- every run -----

  function AllEvents(c: Conn, inputs: seq<Input>): seq<NetEvent>
    decreases |inputs|
  {
    if inputs == [] then [] else StepEvents(c, inputs[0]) + AllEvents(Step(c, inputs[0]), inputs[1..])
  }

  function AllHanded(c: Conn, inputs: seq<Input>): Bytes
    decreases |inputs|
  {
    if inputs == [] then [] else StepHanded(c, inputs[0]) + AllHanded(Step(c, inputs[0]), inputs[1..])
  }

  function AllWritten(c: Conn, inputs: seq<Input>): Bytes
    decreases |inputs|
  {
    if inputs == [] then [] else StepWritten(c, inputs[0]) + AllWritten(Step(c, inputs[0]), inputs[1..])
  }

  predicate EndAsked(c: Conn, inputs: seq<Input>)
    decreases |inputs|
  {
    inputs != [] && (AsksEnd(c, inputs[0]) || EndAsked(Step(c, inputs[0]), inputs[1..]))
  }

  function PollCount(c: Conn, inputs: seq<Input>): nat
    decreases |inputs|
  {
    if inputs == [] then 0 else (if Polls(c, inputs[0]) then 1 else 0) + PollCount(Step(c, inputs[0]), inputs[1..])
  }

  function SweepCount(c: Conn, inputs: seq<Input>): nat
    decreases |inputs|
  {
    if inputs == [] then 0
    else (if SweepsClosed(c, inputs[0]) then 1 else 0) + SweepCount(Step(c, inputs[0]), inputs[1..])
  }

  ghost predicate NoClose(h: seq<NetEvent>) { forall i :: 0 <= i < |h| ==> !h[i].Close? }

  ghost predicate PresentOk(c: Conn) { c.present <==> c.closedSweeps <= 1 && NoClose(c.delivered) }

  lemma StepPresent(c: Conn, i: Input)
    requires Inv(c) && Shows(c, i, Step(c, i)) && PresentOk(c)
    ensures PresentOk(Step(c, i))
  {
    hide Step, StepEvents, StepHanded, StepWritten, AsksEnd, Handed, PhaseOf, CallsOk;
    var c' := Step(c, i);
    if Polls(c, i) {
      assert c'.delivered[..|c.delivered|] == c.delivered;
      assert c'.delivered == c.delivered + [c.history[|c.delivered|]];
    }
  }

  ghost predicate RunShows(c: Conn, inputs: seq<Input>, c': Conn) {
    && c'.history == c.history + AllEvents(c, inputs)
    && Handed(c'.calls) == Handed(c.calls) + AllHanded(c, inputs)
    && c'.accepted == c.accepted + AllWritten(c, inputs)
    && (c'.endRequested <==> c.endRequested || EndAsked(c, inputs))
    && (c'.connecting <==> c.connecting && Connect !in AllEvents(c, inputs))
    && |c'.delivered| == |c.delivered| + PollCount(c, inputs)
    && c'.closedSweeps == c.closedSweeps + SweepCount(c, inputs)
  }

  lemma {:induction false} RunIsShown(c: Conn, inputs: seq<Input>)
    requires Inv(c) && LegalRun(c, inputs) && PresentOk(c)
    ensures RunShows(c, inputs, Run(c, inputs)) && PresentOk(Run(c, inputs))
    decreases |inputs|
  {
    hide *;
    RunOnce(c, inputs);
    if inputs == [] {
      NothingRun(c, inputs);
    } else {
      var next := Step(c, inputs[0]);
      StepInv(c, inputs[0]);
      StepShows(c, inputs[0]);
      StepPresent(c, inputs[0]);
      RunIsShown(next, inputs[1..]);
      FirstStep(c, inputs, Run(next, inputs[1..]));
    }
  }

  lemma RunOnce(c: Conn, inputs: seq<Input>)
    ensures Run(c, inputs) == if inputs == [] then c else Run(Step(c, inputs[0]), inputs[1..])
    ensures LegalRun(c, inputs) ==> inputs == [] || (Legal(c, inputs[0]) && LegalRun(Step(c, inputs[0]), inputs[1..]))
  {
    hide Step, Legal;
  }

  lemma NothingRun(c: Conn, inputs: seq<Input>)
    requires inputs == []
    ensures RunShows(c, inputs, c)
  {
    hide Handed;
    Nothing(c);
  }

  lemma FirstStep(c: Conn, inputs: seq<Input>, c': Conn)
    requires inputs != [] && Inv(c) && Shows(c, inputs[0], Step(c, inputs[0]))
    requires RunShows(Step(c, inputs[0]), inputs[1..], c')
    ensures RunShows(c, inputs, c')
  {
    hide Step, StepEvents, StepHanded, StepWritten, AsksEnd, Handed, PhaseOf, CallsOk, Polls, SweepsClosed;
    var next, i, rest := Step(c, inputs[0]), inputs[0], inputs[1..];
    assert c.history + StepEvents(c, i) + AllEvents(next, rest)
        == c.history + (StepEvents(c, i) + AllEvents(next, rest));
    assert Handed(c.calls) + StepHanded(c, i) + AllHanded(next, rest)
        == Handed(c.calls) + (StepHanded(c, i) + AllHanded(next, rest));
    assert c.accepted + StepWritten(c, i) + AllWritten(next, rest)
        == c.accepted + (StepWritten(c, i) + AllWritten(next, rest));
    PollsOne(c, i);
  }

  lemma PollsOne(c: Conn, i: Input)
    requires Inv(c)
    ensures Polls(c, i) ==> |c.history[..|c.delivered| + 1]| == |c.delivered| + 1
  {
    hide PhaseOf, Handed, CallsOk;
  }

  function OpenEvents(o: Opening): seq<NetEvent> {
    match o
    case AcceptedConn => []
    case ConnectedAtOnce => [Connect]
    case InProgress => []
    case RefusedAtOnce(why) => [Error("connect failed: " + why), Close(true)]
  }

  lemma OpenShows(o: Opening)
    ensures var c := Open(o);
      && c.history == OpenEvents(o) && Handed(c.calls) == [] && c.accepted == [] && c.delivered == []
      && !c.endRequested && (c.connecting <==> o.InProgress?) && c.closedSweeps == 0 && PresentOk(c)
  {
    HandedMore([], Probe);
    if o.RefusedAtOnce? { FailShows(Called(Fresh(false), Probe), "connect failed: " + o.why); }
  }

  /** In every run the events queued are, in order, those of the kernel's answers and of
      what was asked for; the bytes handed over are the first of what was there to send,
      as many at each flush as the kernel took; the bytes accepted are those of the writes
      to an open handle whose end nobody had asked for; each poll of a handle with events
      left delivers one; and the handle is there until its Close is delivered or two ends
      of a tick have found it closed. */
  lemma Transcript(o: Opening, inputs: seq<Input>)
    requires LegalRun(Open(o), inputs)
    ensures var c0, c := Open(o), Run(Open(o), inputs);
      && c.history == OpenEvents(o) + AllEvents(c0, inputs)
      && Handed(c.calls) == AllHanded(c0, inputs) && c.accepted == AllWritten(c0, inputs)
      && (c.endRequested <==> EndAsked(c0, inputs))
      && (c.connecting <==> o.InProgress? && Connect !in AllEvents(c0, inputs))
      && c.delivered <= c.history && |c.delivered| == PollCount(c0, inputs)
      && (c.present <==> SweepCount(c0, inputs) <= 1 && forall i :: 0 <= i < |c.delivered| ==> !c.delivered[i].Close?)
  {
    hide Open, Run, Inv, LegalRun, Handed;
    OpenInv(o);
    OpenShows(o);
    RunIsShown(Open(o), inputs);
    RunInv(Open(o), inputs);
    DeliveredIsFirst(Run(Open(o), inputs));
    assert [] + AllHanded(Open(o), inputs) == AllHanded(Open(o), inputs);
    assert [] + AllWritten(Open(o), inputs) == AllWritten(Open(o), inputs);
  }

  lemma DeliveredIsFirst(c: Conn)
    requires Inv(c)
    ensures c.delivered <= c.history
  {
  }

  // ----- the bytes of the peer -----

  function BytesIn(h: seq<NetEvent>): Bytes {
    if h == [] then [] else (if h[0].Data? then h[0].data else []) + BytesIn(h[1..])
  }

  function BytesGiven(h: seq<RecvResult>): Bytes {
    if h == [] then [] else (if h[0].Gives? then h[0].data else []) + BytesGiven(h[1..])
  }

  /** What recv gave in the run: at each tick of an open, connected handle, the data of the
      answers its read loop gets to. */
  function AllGiven(c: Conn, inputs: seq<Input>): Bytes
    decreases |inputs|
  {
    if inputs == [] then []
    else
      var i := inputs[0];
      (if i.Tick? && c.present && !c.closed && !c.connecting then BytesGiven(Heard(i.recvs, 8)) else [])
      + AllGiven(Step(c, i), inputs[1..])
  }

  lemma {:induction false} BytesInBoth(a: seq<NetEvent>, b: seq<NetEvent>)
    ensures BytesIn(a + b) == BytesIn(a) + BytesIn(b)
    decreases |a|
  {
    if a == [] {
      assert a + b == b;
    } else {
      BytesInBoth(a[1..], b);
      assert (a + b)[1..] == a[1..] + b && (a + b)[0] == a[0];
      var one := if a[0].Data? then a[0].data else [];
      assert one + (BytesIn(a[1..]) + BytesIn(b)) == one + BytesIn(a[1..]) + BytesIn(b);
    }
  }

  lemma {:induction false} NoBytesIn(h: seq<NetEvent>)
    requires forall i :: 0 <= i < |h| ==> !h[i].Data?
    ensures BytesIn(h) == []
  {
    if h != [] { NoBytesIn(h[1..]); }
  }

  lemma NoBytes(out: Bytes, sends: seq<SendResult>, eof: bool)
    ensures BytesIn(FlushEvents(out, sends)) == [] && BytesIn(FlushEvents(out, sends) + Ending(eof, out, sends)) == []
  {
    hide Capacity, Refusal, BytesIn;
    NoBytesIn(FlushEvents(out, sends));
    NoBytesIn(FlushEvents(out, sends) + Ending(eof, out, sends));
  }

  lemma BytesOfOne(r: RecvResult, eof: bool)
    ensures BytesIn(EventOf(r, eof)) == if r.Gives? then r.data else []
  {
    if r.Gives? {
      assert [Data(r.data)][1..] == [];
      assert r.data + [] == r.data;
    } else {
      NoBytesIn(EventOf(r, eof));
    }
  }

  lemma {:induction false} BytesOfHeard(h: seq<RecvResult>, eof: bool)
    ensures BytesIn(EventsOf(h, eof)) == BytesGiven(h)
  {
    hide EventOf;
    if h != [] {
      BytesInBoth(EventOf(h[0], eof), EventsOf(h[1..], eof));
      BytesOfOne(h[0], eof);
      BytesOfHeard(h[1..], eof);
    }
  }

  lemma BytesOfStep(c: Conn, i: Input)
    ensures BytesIn(StepEvents(c, i))
         == if i.Tick? && c.present && !c.closed && !c.connecting then BytesGiven(Heard(i.recvs, 8)) else []
  {
    hide FlushEvents, Ending, EventsOf, Heard, BytesGiven, Fails, Ends, BytesIn;
    if i.Tick? && c.present && !c.closed && !c.connecting {
      BytesOfTick(c, i.recvs, i.sends);
    } else {
      NoBytes(c.outBuf, SendsOf(i), c.peerEof);
      if i.Write? { NoBytes(c.outBuf + i.bytes, i.sends, false); }
      if i.Tick? {
        NoBytesIn([Connect]);
        BytesInBoth([Connect], FlushEvents(c.outBuf, i.sends));
      }
      if forall k :: 0 <= k < |StepEvents(c, i)| ==> !StepEvents(c, i)[k].Data? { NoBytesIn(StepEvents(c, i)); }
    }
  }

  lemma BytesOfTick(c: Conn, recvs: seq<RecvResult>, sends: seq<SendResult>)
    ensures var h := Heard(recvs, 8);
      BytesIn(EventsOf(h, c.peerEof)
              + if Fails(h) then [] else FlushEvents(c.outBuf, sends) + Ending(c.peerEof || Ends(h), c.outBuf, sends))
      == BytesGiven(h)
  {
    hide FlushEvents, Ending, EventsOf, Heard, BytesGiven, Fails, Ends, BytesIn;
    var h := Heard(recvs, 8);
    NoBytes(c.outBuf, sends, c.peerEof || Ends(h));
    NoBytesIn([]);
    BytesOfHeard(h, c.peerEof);
    BytesInBoth(EventsOf(h, c.peerEof), if Fails(h) then []
                else FlushEvents(c.outBuf, sends) + Ending(c.peerEof || Ends(h), c.outBuf, sends));
    assert BytesGiven(h) + [] == BytesGiven(h);
  }

  lemma {:induction false} BytesOfRun(c: Conn, inputs: seq<Input>)
    ensures BytesIn(AllEvents(c, inputs)) == AllGiven(c, inputs)
    decreases |inputs|
  {
    hide Step, StepEvents;
    if inputs != [] {
      BytesInBoth(StepEvents(c, inputs[0]), AllEvents(Step(c, inputs[0]), inputs[1..]));
      BytesOfStep(c, inputs[0]);
      BytesOfRun(Step(c, inputs[0]), inputs[1..]);
    }
  }

  /** In every run the bytes JavaScript is told of are the bytes recv gave, in order. */
  lemma ReceivedIsGiven(o: Opening, inputs: seq<Input>)
    requires LegalRun(Open(o), inputs)
    ensures BytesIn(Run(Open(o), inputs).history) == AllGiven(Open(o), inputs)
  {
    hide Open, Run, AllEvents, LegalRun, AllGiven;
    Transcript(o, inputs);
    BytesInBoth(OpenEvents(o), AllEvents(Open(o), inputs));
    BytesOfRun(Open(o), inputs);
    assert [] + AllGiven(Open(o), inputs) == AllGiven(Open(o), inputs);
  }

  // ----- the end -----

  /** An open, connected handle whose end was asked for and that has sent everything has
      sent its FIN, and if the peer's end was seen it is not open any more. */
  ghost predicate Settled(c: Conn) {
    !c.closed && !c.connecting ==>
      (c.endRequested && c.outBuf == [] ==> c.wroteShutdown) && !(c.peerEof && c.wroteShutdown)
  }

  lemma StepSettled(c: Conn, i: Input)
    requires Inv(c) && Settled(c)
    ensures Settled(Step(c, i))
  {
    hide Flush, Receive, Fail, Graceful, Handed, PhaseOf, CallsOk, FlushEvents, EventsOf, Heard, Gone, Capacity, Inv;
    if i.Revoke? { FailWhenClosed(c, i.refusal); }
    if c.present && !c.closed {
      match i
      case Write(bytes, sends) => WriteSettled(c, bytes, sends);
      case EndCall(sends) => EndSettled(c, sends);
      case CloseCall => GracefulShows(c);
      case Revoke(refusal) => FailShows(c, refusal);
      case Tick(sel, recvs, sends) => TickSettled(c, sel, recvs, sends);
      case _ =>
    }
  }

  lemma WriteSettled(c: Conn, bytes: Bytes, sends: seq<SendResult>)
    requires Inv(c) && Settled(c) && c.present && !c.closed
    ensures Settled(Step(c, Write(bytes, sends)))
  {
    hide Flush, Handed, PhaseOf, CallsOk, FlushEvents, Gone, Capacity;
    if Takes(c) { FlushIs(c.(outBuf := c.outBuf + bytes, accepted := c.accepted + bytes), sends); }
  }

  lemma SentAll(c: Conn, sends: seq<SendResult>, f: Conn)
    requires Flushed(c, sends, f) && f.outBuf == []
    ensures Capacity(sends) >= |c.outBuf|
  {
    hide Capacity, FlushEvents, Handed;
  }

  lemma EndSettled(c: Conn, sends: seq<SendResult>)
    requires Inv(c) && Settled(c) && c.present && !c.closed
    ensures Settled(Step(c, EndCall(sends)))
  {
    hide Flush, Handed, PhaseOf, CallsOk, FlushEvents, Gone, Capacity, Graceful;
    var c' := c.(endRequested := true);
    var f := Flush(c', sends);
    FlushIs(c', sends);
    if f.outBuf == [] { SentAll(c', sends, f); }
    if !f.closed { GracefulShows(f); }
  }

  lemma TickSettled(c: Conn, sel: SelectResult, recvs: seq<RecvResult>, sends: seq<SendResult>)
    requires Inv(c) && Settled(c) && c.present && !c.closed
    ensures Settled(Step(c, Tick(sel, recvs, sends)))
  {
    hide Flush, Receive, Handed, CallsOk, FlushEvents, EventsOf, Heard, Gone, Capacity, Graceful, Fail, PhaseOf;
    if c.connecting {
      var p := Called(c, Probe);
      NotYetEof(c);
      var c' := Emit(p.(connecting := false), Connect);
      FlushIs(c', sends);
      if Flush(c', sends).outBuf == [] { SentAll(c', sends, Flush(c', sends)); }
      if sel.ConnectFails? { FailShows(p, "connect failed: " + sel.why); }
    } else {
      ReceiveIs(c, recvs, 8);
      var r := Receive(c, recvs, 8);
      if !r.closed {
        FlushIs(r, sends);
        var f := Flush(r, sends);
        if f.outBuf == [] { SentAll(r, sends, f); }
        if !f.closed { GracefulShows(f); }
      }
    }
  }

  lemma NotYetEof(c: Conn)
    requires Inv(c) && c.connecting && !c.closed
    ensures !c.peerEof
  {
  }

  lemma {:induction false} RunSettled(c: Conn, inputs: seq<Input>)
    requires Inv(c) && Settled(c) && LegalRun(c, inputs)
    ensures Settled(Run(c, inputs))
    decreases |inputs|
  {
    hide Inv, Settled, Step;
    if inputs != [] {
      StepSettled(c, inputs[0]);
      StepInv(c, inputs[0]);
      RunSettled(Step(c, inputs[0]), inputs[1..]);
    }
  }

  /** In every run a handle that is connected and open, was asked to end and has nothing
      left to send has sent its FIN, and has not seen the peer's end: with both it closes. */
  lemma EndsInTime(o: Opening, inputs: seq<Input>)
    requires LegalRun(Open(o), inputs)
    ensures var c := Run(Open(o), inputs);
      !c.closed && !c.connecting ==>
        (EndAsked(Open(o), inputs) && c.outBuf == [] ==> Fin in c.calls) && !(End in c.history && Fin in c.calls)
  {
    hide *;
    OpenInv(o);
    OpenSettled(o);
    RunSettled(Open(o), inputs);
    RunInv(Open(o), inputs);
    Transcript(o, inputs);
    SettledIs(Run(Open(o), inputs));
  }

  lemma SettledIs(c: Conn)
    requires Inv(c) && Settled(c)
    ensures !c.closed && !c.connecting ==>
      (c.endRequested && c.outBuf == [] ==> Fin in c.calls) && !(End in c.history && Fin in c.calls)
  {
    hide Handed, PhaseOf;
    if !c.closed { EofIsEnd(c); }
  }

  lemma OpenSettled(o: Opening)
    ensures Settled(Open(o))
  {
  }

  lemma EofIsEnd(c: Conn)
    requires Inv(c) && !c.closed
    ensures (c.peerEof <==> End in c.history) && (c.wroteShutdown <==> Fin in c.calls)
  {
    OpenPhaseIsBody(c.history);
  }
}
