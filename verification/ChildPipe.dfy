/** A piped child's output on its way to JavaScript: the child and its descendants
    write into two kernel pipes, one reader thread per pipe moves bytes into a
    back-pressured PipeBuf, and the JS poll loop takes them out and decides when
    `close` fires. Every locked section and every system call is one step.
 */
module ChildPipe {
  import opened Common

  // ----- PipeBuf, as the code that holds its lock sees it -----

  class PipeBuf {
    var data: Bytes
    var eof: bool
    const highWater: nat

    constructor (highWater: nat)
      ensures data == [] && !eof && this.highWater == highWater
    {
      data, eof, this.highWater := [], false, highWater;
    }

    /** What a reader let past the wait may still read. */
    method Room() returns (room: nat)
      requires |data| < highWater
      ensures room == RoomIn(data, highWater)
    {
      room := highWater - |data|;
    }

    method Append(chunk: Bytes)
      modifies this`data
      ensures data == old(data) + chunk
    {
      data := data + chunk;
    }

    method MarkEof()
      modifies this`eof
      ensures eof
    {
      eof := true;
    }

    /** The swap under the lock in childRead. */
    method Take() returns (drained: Bytes, eofOut: bool)
      modifies this`data
      ensures drained == old(data) && data == [] && eofOut == eof
    {
      drained, data := data, [];
      eofOut := eof;
    }
  }

  function RoomIn(data: Bytes, highWater: nat): nat
    requires |data| < highWater
  {
    highWater - |data|
  }

  // ----- one stream -----

  const CHUNK := 256 * 1024

  /** Where the reader thread is. */
  datatype Reader = Top | Ready | HasRoom(room: nat) | Holding(chunk: Bytes) | Leaving | Gone

  /** `written` is everything ever put into the pipe, `kernel` what is still in it;
      `open`: some process holds a write end; `early`: the reader left on an error or
      because it was told to, not at end of file. */
  datatype Stream = Stream(
    written: Bytes, kernel: Bytes, open: bool,
    data: Bytes, eof: bool, reader: Reader, early: bool)

  datatype StreamAction =
    | Put(bytes: Bytes) | CloseEnds
    | SeeClosing | PollIdle | PollReady | PollFails
    | FindRoom | ReadSome(n: nat) | ReadAgain | ReadFails | ReadEnd
    | AppendChunk | SetEof

  /** One step of the writers or of the reader thread; None when it cannot be taken. */
  function StreamStep(s: Stream, a: StreamAction, closing: bool, highWater: nat): Option<Stream> {
    match a
    case Put(bytes) =>
      if s.open then Some(s.(written := s.written + bytes, kernel := s.kernel + bytes)) else None
    case CloseEnds => Some(s.(open := false))
    case SeeClosing =>
      if closing && (s.reader.Top? || s.reader.Ready?) then Some(s.(reader := Leaving, early := true)) else None
    case PollIdle => if s.reader.Top? && !closing then Some(s) else None
    case PollReady => if s.reader.Top? && !closing then Some(s.(reader := Ready)) else None
    case PollFails => if s.reader.Top? && !closing then Some(s.(reader := Leaving, early := true)) else None
    case FindRoom =>
      if s.reader.Ready? && !closing && |s.data| < highWater
      then Some(s.(reader := HasRoom(RoomIn(s.data, highWater)))) else None
    case ReadSome(n) =>
      if s.reader.HasRoom? && 0 < n <= |s.kernel| && n <= CHUNK && n <= s.reader.room
      then Some(s.(kernel := s.kernel[n..], reader := Holding(s.kernel[..n])))
      else None
    case ReadAgain => if s.reader.HasRoom? then Some(s.(reader := Top)) else None
    case ReadFails => if s.reader.HasRoom? then Some(s.(reader := Leaving, early := true)) else None
    case ReadEnd => if s.reader.HasRoom? && s.kernel == [] && !s.open then Some(s.(reader := Leaving)) else None
    case AppendChunk =>
      if s.reader.Holding? then Some(s.(data := s.data + s.reader.chunk, reader := Top)) else None
    case SetEof => if s.reader.Leaving? then Some(s.(eof := true, reader := Gone)) else None
  }

  function InFlight(s: Stream): Bytes { if s.reader.Holding? then s.reader.chunk else [] }

  /** `delivered` has reached JavaScript, `taken` is in childRead's result, `seen` is
      the last eof JavaScript was told of. */
  ghost predicate StreamOk(s: Stream, delivered: Bytes, taken: Bytes, seen: bool, highWater: nat) {
    && s.written == delivered + taken + s.data + InFlight(s) + s.kernel
    && |s.data| + |InFlight(s)| <= highWater
    && (s.reader.HasRoom? ==> |s.data| + s.reader.room <= highWater)
    && (s.eof <==> s.reader.Gone?)
    && (Left(s) && !s.early ==> s.kernel == [] && !s.open)
    && (s.early ==> Left(s))
    && (seen ==> s.eof && s.data == [])
  }

  /** The reader has stopped reading. */
  predicate Left(s: Stream) { s.reader.Leaving? || s.reader.Gone? }

  lemma StreamStepOk(s: Stream, a: StreamAction, d: Bytes, t: Bytes, seen: bool, closing: bool, hw: nat)
    requires StreamOk(s, d, t, seen, hw) && StreamStep(s, a, closing, hw).Some?
    ensures StreamOk(StreamStep(s, a, closing, hw).value, d, t, seen, hw)
    ensures seen ==> StreamStep(s, a, closing, hw).value.data == s.data
  {
    var s' := StreamStep(s, a, closing, hw).value;
    var front := d + t + s.data;
    match a
    case Put(bytes) =>
      assert s'.written == front + InFlight(s) + (s.kernel + bytes);
    case ReadSome(n) =>
      assert s.kernel == s.kernel[..n] + s.kernel[n..];
      assert front + [] + s.kernel == front + s.kernel[..n] + s.kernel[n..];
    case AppendChunk =>
      assert d + t + (s.data + s.reader.chunk) == front + s.reader.chunk;
      assert d + t + (s.data + s.reader.chunk) + [] == front + s.reader.chunk;
    case _ =>
  }

  // ----- the process and the poll loop -----

  datatype Which = StdOut | StdErr

  /** How the poll loop came to finish. */
  datatype Ending = Drained | GraceOver | Threw

  datatype JsEvent = Data(which: Which, bytes: Bytes) | End(which: Which) | Exit | Close(how: Ending)

  /** Where _pollOnce is; o, e, oEof and eEof are childRead's result, `got` says that it
      held data. */
  datatype Poll =
    | Armed
    | Started
    | TookOut(o: Bytes, oEof: bool)
    | TookBoth(o: Bytes, oEof: bool, e: Bytes, eEof: bool)
    | Pushed(got: bool)
    | Polled(got: bool)
    | Released

  datatype Child = Child(
    out: Stream, err: Stream, gone: bool, closing: bool, highWater: nat,
    poll: Poll, exited: bool, exitAt: int, outEof: bool, errEof: bool, events: seq<JsEvent>)

  /** `at`, `again` and `now` are what Date.now gives when it is asked: upon exit, upon
      data after it, and for the grace period. */
  datatype Action =
    | OfOut(so: StreamAction) | OfErr(se: StreamAction)
    | ProcessExits
    | Tick | TakeOut | TakeErr | Push | ChildPoll(at: int) | Decide(again: int, now: int) | Throw

  function NewStream(): Stream { Stream([], [], true, [], false, Top, false) }

  function Init(highWater: nat): Child {
    Child(NewStream(), NewStream(), false, false, highWater, Armed, false, 0, false, false, [])
  }

  function DataEvent(which: Which, bytes: Bytes): seq<JsEvent> {
    if bytes == [] then [] else [Data(which, bytes)]
  }

  /** _finish: both ends, childRelease (which makes the readers leave), then close. */
  function Finish(c: Child, how: Ending): Child {
    c.(poll := Released, closing := true, events := c.events + [End(StdOut), End(StdErr), Close(how)])
  }

  const EOF_GRACE_MS := 2000

  function JsStep(c: Child, a: Action): Option<Child> {
    match c.poll
    case Armed => if a.Tick? then Some(c.(poll := Started)) else None
    case Started =>
      if a.Throw? then Some(Finish(c, Threw))
      else if a.TakeOut? then Some(c.(poll := TookOut(c.out.data, c.out.eof), out := c.out.(data := [])))
      else None
    case TookOut(o, oEof) =>
      if a.TakeErr? then Some(c.(poll := TookBoth(o, oEof, c.err.data, c.err.eof), err := c.err.(data := []))) else None
    case TookBoth(o, oEof, e, eEof) =>
      if !a.Push? then None
      else Some(c.(poll := Pushed(o != [] || e != []), outEof := oEof, errEof := eEof,
                   events := c.events + DataEvent(StdOut, o) + DataEvent(StdErr, e)))
    case Pushed(got) =>
      if a.Throw? then Some(Finish(c, Threw))
      else if !a.ChildPoll? then None
      else if c.gone && !c.exited
      then Some(c.(poll := Polled(got), exited := true, exitAt := a.at, events := c.events + [Exit]))
      else Some(c.(poll := Polled(got)))
    case Polled(got) =>
      if !a.Decide? then None
      else
        var c' := c.(exitAt := if c.exited && got then a.again else c.exitAt);
        if c.exited && c.outEof && c.errEof then Some(Finish(c', Drained))
        else if c.exited && a.now - c'.exitAt > EOF_GRACE_MS then Some(Finish(c', GraceOver))
        else Some(c'.(poll := Armed))
    case Released => None
  }

  function Step(c: Child, a: Action): Option<Child> {
    match a
    case OfOut(s) =>
      (match StreamStep(c.out, s, c.closing, c.highWater)
       case None => None
       case Some(out) => Some(c.(out := out)))
    case OfErr(s) =>
      (match StreamStep(c.err, s, c.closing, c.highWater)
       case None => None
       case Some(err) => Some(c.(err := err)))
    case ProcessExits => Some(c.(gone := true))
    case _ => JsStep(c, a)
  }

  /** What the listeners of one stream have been given, end to end. */
  function Delivered(events: seq<JsEvent>, which: Which): Bytes {
    if events == [] then []
    else
      var l := events[|events| - 1];
      Delivered(events[..|events| - 1], which) + if l.Data? && l.which == which then l.bytes else []
  }

  lemma DeliveredMore(events: seq<JsEvent>, l: JsEvent, which: Which)
    ensures Delivered(events + [l], which)
         == Delivered(events, which) + if l.Data? && l.which == which then l.bytes else []
  {
    assert (events + [l])[..|events|] == events;
  }

  function TakenOut(p: Poll): Bytes {
    match p
    case TookOut(o, _) => o
    case TookBoth(o, _, _, _) => o
    case _ => []
  }

  function TakenErr(p: Poll): Bytes { if p.TookBoth? then p.e else [] }

  /** What the poll loop last heard about eof, told to JavaScript or not yet. */
  function SeenOut(c: Child): bool {
    match c.poll
    case TookOut(_, oEof) => oEof || c.outEof
    case TookBoth(_, oEof, _, _) => oEof || c.outEof
    case _ => c.outEof
  }

  function SeenErr(c: Child): bool { (c.poll.TookBoth? && c.poll.eEof) || c.errEof }

  /** Neither a Close nor an End yet, and Exit at most once. */
  ghost predicate Quiet(events: seq<JsEvent>, exited: bool) {
    && (forall i :: 0 <= i < |events| ==> !events[i].Close? && !events[i].End?)
    && (exited <==> exists i :: 0 <= i < |events| && events[i] == Exit)
    && (forall i, j :: 0 <= i < j < |events| ==> events[i] != Exit || events[j] != Exit)
  }

  /** The events so far end with the three of _finish, and nothing follows. */
  ghost predicate Ended(events: seq<JsEvent>, exited: bool, eofs: bool) {
    var n := |events| - 3;
    && n >= 0 && Quiet(events[..n], exited)
    && events[n] == End(StdOut) && events[n + 1] == End(StdErr) && events[n + 2].Close?
    && (events[n + 2] == Close(Drained) ==> exited && eofs)
  }

  ghost predicate StreamsOk(c: Child) {
    && StreamOk(c.out, Delivered(c.events, StdOut), TakenOut(c.poll), SeenOut(c), c.highWater)
    && StreamOk(c.err, Delivered(c.events, StdErr), TakenErr(c.poll), SeenErr(c), c.highWater)
    && (c.outEof ==> TakenOut(c.poll) == [] && (c.poll.TookOut? || c.poll.TookBoth? ==> c.poll.oEof))
    && (c.errEof ==> TakenErr(c.poll) == [] && (c.poll.TookBoth? ==> c.poll.eEof))
  }

  ghost predicate Inv(c: Child) {
    StreamsOk(c) && EventsOk(c)
  }

  lemma TakeKeepsStreams(c: Child)
    requires StreamsOk(c)
    ensures c.poll.Started? ==> StreamsOk(JsStep(c, TakeOut).value)
    ensures c.poll.TookOut? ==> StreamsOk(JsStep(c, TakeErr).value)
  {
    hide Delivered;
    if c.poll.Started? {
      var d := Delivered(c.events, StdOut);
      assert d + [] + c.out.data == d + c.out.data + [];
    } else if c.poll.TookOut? {
      var d := Delivered(c.events, StdErr);
      assert d + [] + c.err.data == d + c.err.data + [];
    }
  }

  lemma DeliveredData(events: seq<JsEvent>, from: Which, bytes: Bytes, which: Which)
    ensures Delivered(events + DataEvent(from, bytes), which)
         == if which == from then Delivered(events, which) + bytes else Delivered(events, which)
  {
    if bytes == [] {
      assert events + DataEvent(from, bytes) == events;
    } else {
      DeliveredMore(events, Data(from, bytes), which);
    }
  }

  /** Bytes handed over count as delivered. */
  lemma HandedOver(s: Stream, d: Bytes, t: Bytes, seen: bool, hw: nat)
    requires StreamOk(s, d, t, seen, hw)
    ensures StreamOk(s, d + t, [], seen, hw)
  {
    assert d + t + [] == d + t;
  }

  lemma DeliveredPush(events: seq<JsEvent>, o: Bytes, e: Bytes)
    ensures var ev := events + DataEvent(StdOut, o) + DataEvent(StdErr, e);
      Delivered(ev, StdOut) == Delivered(events, StdOut) + o && Delivered(ev, StdErr) == Delivered(events, StdErr) + e
  {
    var mid := events + DataEvent(StdOut, o);
    DeliveredData(events, StdOut, o, StdOut);
    DeliveredData(events, StdOut, o, StdErr);
    DeliveredData(mid, StdErr, e, StdOut);
    DeliveredData(mid, StdErr, e, StdErr);
  }

  lemma PushKeepsStreams(c: Child)
    requires StreamsOk(c) && c.poll.TookBoth?
    ensures StreamsOk(JsStep(c, Push).value)
  {
    hide Delivered, StreamOk;
    var o, e := c.poll.o, c.poll.e;
    DeliveredPush(c.events, o, e);
    HandedOver(c.out, Delivered(c.events, StdOut), o, SeenOut(c), c.highWater);
    HandedOver(c.err, Delivered(c.events, StdErr), e, SeenErr(c), c.highWater);
  }

  lemma DeliveredFinish(c: Child, how: Ending, which: Which)
    ensures Delivered(Finish(c, how).events, which) == Delivered(c.events, which)
  {
    var e1 := c.events + [End(StdOut)];
    var e2 := e1 + [End(StdErr)];
    assert Finish(c, how).events == e2 + [Close(how)];
    DeliveredMore(c.events, End(StdOut), which);
    DeliveredMore(e1, End(StdErr), which);
    DeliveredMore(e2, Close(how), which);
  }

  lemma FinishKeepsStreams(c: Child, how: Ending)
    requires StreamsOk(c) && (c.poll.Started? || c.poll.Pushed? || c.poll.Polled?)
    ensures StreamsOk(Finish(c, how))
  {
    hide Delivered, StreamOk;
    DeliveredFinish(c, how, StdOut);
    DeliveredFinish(c, how, StdErr);
  }

  lemma ExitKeepsStreams(c: Child, at: int)
    requires StreamsOk(c) && c.poll.Pushed?
    ensures JsStep(c, ChildPoll(at)).Some? && StreamsOk(JsStep(c, ChildPoll(at)).value)
  {
    hide Delivered, StreamOk;
    DeliveredMore(c.events, Exit, StdOut);
    DeliveredMore(c.events, Exit, StdErr);
    assert forall b: Bytes :: b + [] == b;
  }

  lemma JsKeepsStreams(c: Child, a: Action)
    requires StreamsOk(c) && JsStep(c, a).Some?
    ensures StreamsOk(JsStep(c, a).value)
  {
    hide Delivered, StreamOk;
    match c.poll
    case Started => if a.Throw? { FinishKeepsStreams(c, Threw); } else { TakeKeepsStreams(c); }
    case TookOut(_, _) => TakeKeepsStreams(c);
    case TookBoth(_, _, _, _) => PushKeepsStreams(c);
    case Pushed(_) =>
      if a.Throw? { FinishKeepsStreams(c, Threw); } else { ExitKeepsStreams(c, a.at); }
    case Polled(got) =>
      var c' := c.(exitAt := if c.exited && got then a.again else c.exitAt);
      FinishKeepsStreams(c', Drained);
      FinishKeepsStreams(c', GraceOver);
    case _ =>
  }

  lemma QuietMore(events: seq<JsEvent>, exited: bool, l: JsEvent)
    requires Quiet(events, exited) && (l.Data? || (l == Exit && !exited))
    ensures Quiet(events + [l], exited || l == Exit)
  {
    var ev := events + [l];
    assert ev[|events|] == l;
    if exited {
      var i :| 0 <= i < |events| && events[i] == Exit;
      assert ev[i] == Exit;
    }
  }

  lemma QuietPush(events: seq<JsEvent>, exited: bool, which: Which, bytes: Bytes)
    requires Quiet(events, exited)
    ensures Quiet(events + DataEvent(which, bytes), exited)
  {
    hide Quiet;
    if bytes == [] {
      assert events + DataEvent(which, bytes) == events;
    } else {
      QuietMore(events, exited, Data(which, bytes));
    }
  }

  lemma FinishEnds(c: Child, how: Ending)
    requires Quiet(c.events, c.exited) && (how == Drained ==> c.exited && c.outEof && c.errEof)
    ensures Ended(Finish(c, how).events, c.exited, c.outEof && c.errEof)
  {
    hide Quiet;
    assert Finish(c, how).events[..|c.events|] == c.events;
  }

  ghost predicate EventsOk(c: Child) {
    && (c.closing <==> c.poll.Released?)
    && (if c.poll.Released? then Ended(c.events, c.exited, c.outEof && c.errEof) else Quiet(c.events, c.exited))
  }

  lemma JsKeepsEvents(c: Child, a: Action)
    requires EventsOk(c) && JsStep(c, a).Some?
    ensures EventsOk(JsStep(c, a).value)
  {
    hide Quiet, Ended;
    if a.Throw? { FinishEnds(c, Threw); }
    match c.poll
    case TookBoth(o, _, e, _) =>
      QuietPush(c.events, c.exited, StdOut, o);
      QuietPush(c.events + DataEvent(StdOut, o), c.exited, StdErr, e);
    case Pushed(_) =>
      if !c.exited { QuietMore(c.events, c.exited, Exit); }
    case Polled(got) =>
      var c' := c.(exitAt := if c.exited && got then a.again else c.exitAt);
      if c.exited && c.outEof && c.errEof { FinishEnds(c', Drained); }
      FinishEnds(c', GraceOver);
    case _ =>
  }

  lemma StepInv(c: Child, a: Action)
    requires Inv(c) && Step(c, a).Some?
    ensures Inv(Step(c, a).value)
  {
    hide StreamStep, JsStep, StreamOk, Quiet, Ended, Delivered;
    match a
    case OfOut(s) =>
      StreamStepOk(c.out, s, Delivered(c.events, StdOut), TakenOut(c.poll), SeenOut(c), c.closing, c.highWater);
    case OfErr(s) =>
      StreamStepOk(c.err, s, Delivered(c.events, StdErr), TakenErr(c.poll), SeenErr(c), c.closing, c.highWater);
    case ProcessExits =>
    case _ =>
      JsKeepsStreams(c, a);
      JsKeepsEvents(c, a);
  }

  // ----- runs -----

  /** The state an interleaving of the writers, the two readers and the poll loop
      leads to, or None when an action finds its thread elsewhere. */
  function RunFrom(c: Child, actions: seq<Action>): Option<Child>
    decreases |actions|
  {
    if actions == [] then Some(c)
    else
      match Step(c, actions[0])
      case None => None
      case Some(c') => RunFrom(c', actions[1..])
  }

  function Run(highWater: nat, actions: seq<Action>): Option<Child> { RunFrom(Init(highWater), actions) }

  lemma {:induction false} RunKeepsInv(c: Child, actions: seq<Action>)
    requires Inv(c) && RunFrom(c, actions).Some?
    ensures Inv(RunFrom(c, actions).value) && RunFrom(c, actions).value.highWater == c.highWater
    decreases |actions|
  {
    hide Inv, Step;
    if actions != [] {
      StepInv(c, actions[0]);
      HighWaterStays(c, actions[0]);
      RunKeepsInv(Step(c, actions[0]).value, actions[1..]);
    }
  }

  lemma HighWaterStays(c: Child, a: Action)
    requires Step(c, a).Some?
    ensures Step(c, a).value.highWater == c.highWater
  {
    hide StreamStep;
  }

  lemma ReachableInv(highWater: nat, actions: seq<Action>)
    requires Run(highWater, actions).Some?
    ensures Inv(Run(highWater, actions).value) && Run(highWater, actions).value.highWater == highWater
  {
    RunKeepsInv(Init(highWater), actions);
  }

  /** In every interleaving and for both streams, what JavaScript was given, what the
      poll loop holds, what is buffered, what the reader holds and what is still in
      the kernel make up, in that order, what was written; and the buffer together
      with the reader's chunk never exceeds the high-water mark. */
  lemma NothingLostOrReordered(highWater: nat, actions: seq<Action>)
    requires Run(highWater, actions).Some?
    ensures var c := Run(highWater, actions).value;
      && c.out.written == Delivered(c.events, StdOut) + TakenOut(c.poll) + c.out.data + InFlight(c.out) + c.out.kernel
      && c.err.written == Delivered(c.events, StdErr) + TakenErr(c.poll) + c.err.data + InFlight(c.err) + c.err.kernel
      && |c.out.data| + |InFlight(c.out)| <= highWater && |c.err.data| + |InFlight(c.err)| <= highWater
  {
    ReachableInv(highWater, actions);
  }

  /** `close` fires at most once and last of all, right after the two `end`s. */
  lemma CloseIsLast(highWater: nat, actions: seq<Action>, i: nat)
    requires Run(highWater, actions).Some?
    requires i < |Run(highWater, actions).value.events| && Run(highWater, actions).value.events[i].Close?
    ensures var ev := Run(highWater, actions).value.events;
      && i == |ev| - 1 && i >= 2 && ev[i - 2] == End(StdOut) && ev[i - 1] == End(StdErr)
      && forall j :: 0 <= j < i - 2 ==> !ev[j].End?
  {
    ReachableInv(highWater, actions);
    var c := Run(highWater, actions).value;
    var n := |c.events| - 3;
    forall j | 0 <= j < n
      ensures !c.events[j].End? && !c.events[j].Close?
    {
      assert c.events[..n][j] == c.events[j];
    }
  }

  // ----- what a drained close can miss -----

  function StreamOf(c: Child, which: Which): Stream { if which.StdOut? then c.out else c.err }

  /** The writers' and the reader's step on one stream, if it is one. */
  function OfStream(a: Action, which: Which): Option<StreamAction> {
    match a
    case OfOut(so) => if which.StdOut? then Some(so) else None
    case OfErr(se) => if which.StdErr? then Some(se) else None
    case _ => None
  }

  /** A reader's poll or read reports an error. */
  predicate Fails(a: Action, which: Which) { OfStream(a, which) in {Some(PollFails), Some(ReadFails)} }

  /** Everything some steps put into one pipe. */
  function PutBytes(actions: seq<Action>, which: Which): Bytes {
    if actions == [] then []
    else
      (match OfStream(actions[0], which)
       case Some(Put(bytes)) => bytes
       case _ => []) + PutBytes(actions[1..], which)
  }

  /** What is in one pipe after a run. */
  function KernelAfter(highWater: nat, actions: seq<Action>, which: Which): Bytes {
    if Run(highWater, actions).Some? then StreamOf(Run(highWater, actions).value, which).kernel else []
  }

  /** The reader met an error when the pipe held bytes or bytes were still to come. */
  ghost predicate FailedTooSoon(highWater: nat, actions: seq<Action>, which: Which) {
    exists k :: 0 <= k < |actions| && FailedAt(highWater, actions, k, which)
  }

  predicate FailedAt(highWater: nat, actions: seq<Action>, k: nat, which: Which)
    requires k < |actions|
  {
    && Fails(actions[k], which)
    && (KernelAfter(highWater, actions[..k], which) != [] || PutBytes(actions[k + 1..], which) != [])
  }

  lemma {:induction false} RunConcat(c: Child, a: seq<Action>, b: seq<Action>)
    ensures RunFrom(c, a + b) == if RunFrom(c, a).Some? then RunFrom(RunFrom(c, a).value, b) else None
    decreases |a|
  {
    hide Step;
    if a == [] {
      assert a + b == b;
    } else {
      assert (a + b)[0] == a[0] && (a + b)[1..] == a[1..] + b;
      if Step(c, a[0]).Some? { RunConcat(Step(c, a[0]).value, a[1..], b); }
    }
  }

  /** After its reader has left, a pipe only takes in what is put there. */
  lemma LeftStep(c: Child, a: Action, which: Which)
    requires Step(c, a).Some? && Left(StreamOf(c, which))
    ensures var s, s' := StreamOf(c, which), StreamOf(Step(c, a).value, which);
      Left(s') && s'.early == s.early && s'.kernel == s.kernel + PutBytes([a], which)
  {
    hide StreamStep, JsStep, Left;
    var s := StreamOf(c, which);
    assert [a][1..] == [] && s.kernel + [] == s.kernel;
    match OfStream(a, which)
    case Some(b) => LeftStreamStep(s, b, c.closing, c.highWater);
    case None =>
      PipesAlone(c, a, which);
      SameReader(s, StreamOf(Step(c, a).value, which));
  }

  lemma LeftStreamStep(s: Stream, a: StreamAction, closing: bool, highWater: nat)
    requires Left(s) && StreamStep(s, a, closing, highWater).Some?
    ensures var s' := StreamStep(s, a, closing, highWater).value;
      Left(s') && s'.early == s.early && s'.kernel == if a.Put? then s.kernel + (a.bytes + []) else s.kernel
  {
    if a.Put? { assert a.bytes + [] == a.bytes; }
  }

  /** No other step touches a pipe or its reader. */
  lemma PipesAlone(c: Child, a: Action, which: Which)
    requires Step(c, a).Some? && OfStream(a, which) == None
    ensures var s, s' := StreamOf(c, which), StreamOf(Step(c, a).value, which);
      s'.kernel == s.kernel && s'.early == s.early && s'.reader == s.reader
  {
    hide StreamStep;
  }

  lemma {:induction false} LeftRun(c: Child, actions: seq<Action>, which: Which)
    requires RunFrom(c, actions).Some? && Left(StreamOf(c, which))
    ensures var s, s' := StreamOf(c, which), StreamOf(RunFrom(c, actions).value, which);
      Left(s') && s'.early == s.early && s'.kernel == s.kernel + PutBytes(actions, which)
    decreases |actions|
  {
    hide Step, StreamOf, Left;
    if actions == [] {
      assert StreamOf(c, which).kernel + [] == StreamOf(c, which).kernel;
    } else {
      LeftStep(c, actions[0], which);
      PutBytesFront(actions, which);
      LeftRun(Step(c, actions[0]).value, actions[1..], which);
    }
  }

  lemma PutBytesFront(actions: seq<Action>, which: Which)
    requires actions != []
    ensures PutBytes(actions, which) == PutBytes([actions[0]], which) + PutBytes(actions[1..], which)
  {
    assert [actions[0]][1..] == [] && PutBytes([], which) == [];
    assert forall bytes: Bytes :: bytes + [] == bytes;
  }

  /** The step at which a reader leaves. */
  lemma LeavingStep(c: Child, a: Action, which: Which)
    requires Step(c, a).Some? && !Left(StreamOf(c, which)) && Left(StreamOf(Step(c, a).value, which))
    ensures var s, s' := StreamOf(c, which), StreamOf(Step(c, a).value, which);
      && s'.kernel == s.kernel
      && (s'.early && !s.early ==> Fails(a, which) || (OfStream(a, which) == Some(SeeClosing) && c.closing))
  {
    hide StreamStep, JsStep, Left;
    match OfStream(a, which)
    case Some(b) => LeavingStreamStep(StreamOf(c, which), b, c.closing, c.highWater);
    case None =>
      PipesAlone(c, a, which);
      SameReader(StreamOf(c, which), StreamOf(Step(c, a).value, which));
  }

  lemma SameReader(s: Stream, s': Stream)
    requires s.reader == s'.reader
    ensures Left(s) == Left(s')
  {
  }

  lemma LeavingStreamStep(s: Stream, a: StreamAction, closing: bool, highWater: nat)
    requires !Left(s) && StreamStep(s, a, closing, highWater).Some? && Left(StreamStep(s, a, closing, highWater).value)
    ensures var s' := StreamStep(s, a, closing, highWater).value;
      && s'.kernel == s.kernel
      && (s'.early && !s.early ==> a in {PollFails, ReadFails} || (a == SeeClosing && closing))
  {
  }

  lemma {:induction false} FindLeaving(c: Child, actions: seq<Action>, which: Which) returns (k: nat)
    requires RunFrom(c, actions).Some?
    requires !Left(StreamOf(c, which)) && Left(StreamOf(RunFrom(c, actions).value, which))
    ensures k < |actions| && RunFrom(c, actions[..k]).Some?
    ensures var c' := RunFrom(c, actions[..k]).value;
      && !Left(StreamOf(c', which)) && Step(c', actions[k]).Some? && Left(StreamOf(Step(c', actions[k]).value, which))
      && RunFrom(Step(c', actions[k]).value, actions[k + 1..]) == RunFrom(c, actions)
    decreases |actions|
  {
    hide Step, StreamOf, Left;
    assert actions != [];
    var next := Step(c, actions[0]).value;
    if Left(StreamOf(next, which)) {
      k := 0;
      assert actions[..0] == [];
    } else {
      k := FindLeaving(next, actions[1..], which);
      assert actions[..k + 1][0] == actions[0] && actions[..k + 1][1..] == actions[1..][..k];
      assert actions[1..][k + 1..] == actions[k + 2..];
      k := k + 1;
    }
  }

  /** Once released the child has no further events. */
  lemma {:induction false} ReleasedRun(c: Child, actions: seq<Action>)
    requires RunFrom(c, actions).Some? && c.poll.Released?
    ensures RunFrom(c, actions).value.events == c.events
    decreases |actions|
  {
    hide StreamStep;
    if actions != [] { ReleasedRun(Step(c, actions[0]).value, actions[1..]); }
  }

  /** A reader that has not left has not been told to, if the close was a drained one. */
  lemma NotToldToLeave(c: Child, more: seq<Action>, which: Which)
    requires Inv(c) && RunFrom(c, more).Some? && !Left(StreamOf(c, which))
    requires var ev := RunFrom(c, more).value.events; ev != [] && ev[|ev| - 1] == Close(Drained)
    ensures !c.closing
  {
    hide RunFrom, Delivered, Quiet;
    if c.closing {
      ReleasedRun(c, more);
      SeenEof(c);
    }
  }

  lemma SeenEof(c: Child)
    requires StreamsOk(c)
    ensures (c.outEof ==> c.out.eof && Left(c.out)) && (c.errEof ==> c.err.eof && Left(c.err))
  {
    hide Delivered;
  }

  lemma DrainedSawEof(c: Child)
    requires Inv(c) && c.events != [] && c.events[|c.events| - 1] == Close(Drained)
    ensures c.exited && c.poll.Released? && Left(c.out) && Left(c.err) && c.outEof && c.errEof
  {
    hide Delivered;
    SeenEof(c);
  }

  /** A drained close leaves bytes in a pipe if and only if its reader failed too soon. */
  lemma KernelIsFailure(highWater: nat, actions: seq<Action>, which: Which)
    requires Run(highWater, actions).Some?
    requires var ev := Run(highWater, actions).value.events; ev != [] && ev[|ev| - 1] == Close(Drained)
    ensures StreamOf(Run(highWater, actions).value, which).kernel != [] <==> FailedTooSoon(highWater, actions, which)
  {
    hide Step, Inv, RunFrom, Fails, PutBytes;
    ReachableInv(highWater, actions);
    var c := Run(highWater, actions).value;
    assert Left(StreamOf(c, which)) by { DrainedSawEof(c); }
    assert !Left(StreamOf(Init(highWater), which));
    var k := FindLeaving(Init(highWater), actions, which);
    var before := RunFrom(Init(highWater), actions[..k]).value;
    var after := Step(before, actions[k]).value;
    assert actions[..k] + actions[k..] == actions;
    ReachableInv(highWater, actions[..k]);
    LeavingStep(before, actions[k], which);
    LeftRun(after, actions[k + 1..], which);
    StepInv(before, actions[k]);
    RunConcat(Init(highWater), actions[..k], actions[k..]);
    NotToldToLeave(before, actions[k..], which);
    EarlyIsWhy(before, after, c, which);
    if StreamOf(c, which).kernel != [] {
      assert Fails(actions[k], which) by { OnlyFailure(before, actions[k], which); }
      assert FailedAt(highWater, actions, k, which);
    }
    forall j | 0 <= j < |actions| && FailedAt(highWater, actions, j, which)
      ensures StreamOf(c, which).kernel != []
    {
      FailureLeaves(highWater, actions, j, which);
    }
  }

  /** Not early means nothing was left behind. */
  lemma EarlyIsWhy(before: Child, after: Child, c: Child, which: Which)
    requires Inv(before) && Inv(c)
    requires !Left(StreamOf(before, which)) && Left(StreamOf(c, which))
    requires StreamOf(c, which).early == StreamOf(after, which).early
    ensures !StreamOf(before, which).early
    ensures StreamOf(c, which).kernel != [] ==> StreamOf(after, which).early
  {
    hide Delivered, EventsOk;
  }

  lemma OnlyFailure(c: Child, a: Action, which: Which)
    requires !c.closing
    requires Fails(a, which) || (OfStream(a, which) == Some(SeeClosing) && c.closing)
    ensures Fails(a, which)
  {
  }

  /** What a failing reader leaves in the pipe stays there. */
  lemma FailureLeaves(highWater: nat, actions: seq<Action>, k: nat, which: Which)
    requires Run(highWater, actions).Some? && k < |actions| && FailedAt(highWater, actions, k, which)
    ensures StreamOf(Run(highWater, actions).value, which).kernel != []
  {
    hide Step, StreamOf, PutBytes, Left, Fails;
    assert actions[..k] + actions[k..] == actions;
    RunConcat(Init(highWater), actions[..k], actions[k..]);
    var before := RunFrom(Init(highWater), actions[..k]).value;
    assert actions[k..][0] == actions[k] && actions[k..][1..] == actions[k + 1..];
    FailingLeaves(before, actions[k], which);
    LeftRun(Step(before, actions[k]).value, actions[k + 1..], which);
  }

  lemma FailingLeaves(c: Child, a: Action, which: Which)
    requires Step(c, a).Some? && Fails(a, which)
    ensures Left(StreamOf(Step(c, a).value, which))
      && StreamOf(Step(c, a).value, which).kernel == StreamOf(c, which).kernel
  {
  }

  /** A `close` on the drained path comes after exit, and what a stream's listeners have
      been given is all that was ever written to it, unless and only unless its
      reader's poll or read failed while the pipe held bytes or with bytes still to
      come. What is missing is then the end of it, still in the pipe. */
  lemma DrainedCloseMissesNothing(highWater: nat, actions: seq<Action>, which: Which)
    requires Run(highWater, actions).Some?
    requires Run(highWater, actions).value.events != []
    requires var ev := Run(highWater, actions).value.events; ev[|ev| - 1] == Close(Drained)
    ensures var c := Run(highWater, actions).value;
            var s := StreamOf(c, which);
      && c.exited && s.written == Delivered(c.events, which) + s.kernel
      && (Delivered(c.events, which) != s.written <==> FailedTooSoon(highWater, actions, which))
  {
    hide Delivered, FailedTooSoon;
    ReachableInv(highWater, actions);
    var c := Run(highWater, actions).value;
    DrainedSawEof(c);
    KernelIsFailure(highWater, actions, which);
    var d, s := Delivered(c.events, which), StreamOf(c, which);
    assert d + [] + [] + [] + s.kernel == d + s.kernel;
    assert d + [] == d;
  }

  lemma Pass(c: Child, a: Action, rest: seq<Action>, c': Child)
    requires Step(c, a) == Some(c')
    ensures RunFrom(c, [a] + rest) == RunFrom(c', rest)
  {
    assert ([a] + rest)[1..] == rest;
  }

  /** A run in which it is missing: a byte is written, poll fails, and everything after
      goes as if the pipe had been drained. */
  lemma DrainedCloseWithABytePending(highWater: nat, b: bv8)
    ensures var r := Run(highWater, [OfOut(Put([b])), OfOut(PollFails), OfOut(SetEof), OfErr(PollFails), OfErr(SetEof),
                                     ProcessExits, Tick, TakeOut, TakeErr, Push, ChildPoll(0), Decide(0, 0)]);
      && r.Some? && r.value.events == [Exit, End(StdOut), End(StdErr), Close(Drained)]
      && r.value.out.written == [b] && Delivered(r.value.events, StdOut) == []
  {
    var left := Stream([b], [b], true, [], true, Gone, true);
    var none := Stream([], [], true, [], true, Gone, true);
    var c := Init(highWater).(out := left, err := none, gone := true);
    var tail := [Tick, TakeOut, TakeErr, Push, ChildPoll(0), Decide(0, 0)];
    BytePending(highWater, b, tail);
    NothingToTake(c);
    assert Delivered([Exit, End(StdOut), End(StdErr), Close(Drained)], StdOut) == [] by { NothingDelivered(); }
    assert [OfOut(Put([b])), OfOut(PollFails), OfOut(SetEof), OfErr(PollFails), OfErr(SetEof), ProcessExits] + tail
        == [OfOut(Put([b])), OfOut(PollFails), OfOut(SetEof), OfErr(PollFails), OfErr(SetEof),
            ProcessExits, Tick, TakeOut, TakeErr, Push, ChildPoll(0), Decide(0, 0)];
  }

  lemma NothingDelivered()
    ensures Delivered([Exit, End(StdOut), End(StdErr), Close(Drained)], StdOut) == []
  {
    var e := [Exit] + [End(StdOut)];
    var f := e + [End(StdErr)];
    DeliveredMore([], Exit, StdOut);
    DeliveredMore([Exit], End(StdOut), StdOut);
    DeliveredMore(e, End(StdErr), StdOut);
    DeliveredMore(f, Close(Drained), StdOut);
    assert [] + [Exit] == [Exit] && f + [Close(Drained)] == [Exit, End(StdOut), End(StdErr), Close(Drained)];
  }

  /** The readers' part of it. */
  lemma BytePending(highWater: nat, b: bv8, rest: seq<Action>)
    ensures var c := Init(highWater).(out := Stream([b], [b], true, [], true, Gone, true),
                                      err := Stream([], [], true, [], true, Gone, true), gone := true);
      Run(highWater, [OfOut(Put([b])), OfOut(PollFails), OfOut(SetEof), OfErr(PollFails), OfErr(SetEof),
                      ProcessExits] + rest)
      == RunFrom(c, rest)
  {
    hide RunFrom;
    var c0 := Init(highWater);
    var c1 := c0.(out := Stream([b], [b], true, [], false, Top, false));
    var c2 := c0.(out := Stream([b], [b], true, [], false, Leaving, true));
    var c3 := c0.(out := Stream([b], [b], true, [], true, Gone, true));
    var c4 := c3.(err := Stream([], [], true, [], false, Leaving, true));
    var c5 := c3.(err := Stream([], [], true, [], true, Gone, true));
    var t5 := [ProcessExits] + rest;
    var t4 := [OfErr(SetEof)] + t5;
    var t3 := [OfErr(PollFails)] + t4;
    var t2 := [OfOut(SetEof)] + t3;
    var t1 := [OfOut(PollFails)] + t2;
    assert [] + [b] == [b];
    Pass(c0, OfOut(Put([b])), t1, c1);
    Pass(c1, OfOut(PollFails), t2, c2);
    Pass(c2, OfOut(SetEof), t3, c3);
    Pass(c3, OfErr(PollFails), t4, c4);
    Pass(c4, OfErr(SetEof), t5, c5);
    Pass(c5, ProcessExits, rest, c5.(gone := true));
    assert [OfOut(Put([b])), OfOut(PollFails), OfOut(SetEof), OfErr(PollFails), OfErr(SetEof), ProcessExits] + rest
        == [OfOut(Put([b]))] + t1;
  }

  /** The poll loop's part of it. */
  lemma NothingToTake(c: Child)
    requires c.poll == Armed && c.gone && !c.exited && c.events == []
    requires c.out.eof && c.out.data == [] && c.err.eof && c.err.data == []
    ensures var r := RunFrom(c, [Tick, TakeOut, TakeErr, Push, ChildPoll(0), Decide(0, 0)]);
      && r.Some? && r.value.events == [Exit, End(StdOut), End(StdErr), Close(Drained)] && r.value.out == c.out
  {
    hide RunFrom;
    var c1 := c.(poll := Started);
    var c2 := c1.(poll := TookOut([], true));
    var c3 := c1.(poll := TookBoth([], true, [], true));
    var c4 := c1.(poll := Pushed(false), outEof := true, errEof := true);
    var c5 := c4.(poll := Polled(false), exited := true, exitAt := 0, events := [Exit]);
    var t5 := [Decide(0, 0)];
    var t4 := [ChildPoll(0)] + t5;
    var t3 := [Push] + t4;
    var t2 := [TakeErr] + t3;
    var t1 := [TakeOut] + t2;
    assert c.out.(data := []) == c.out && c.err.(data := []) == c.err;
    Pass(c, Tick, t1, c1);
    Pass(c1, TakeOut, t2, c2);
    Pass(c2, TakeErr, t3, c3);
    assert c.events + [] + [] == c.events;
    Pass(c3, Push, t4, c4);
    assert [] + [Exit] == [Exit];
    Pass(c4, ChildPoll(0), t5, c5);
    Last(c5, Decide(0, 0));
    assert [Tick, TakeOut, TakeErr, Push, ChildPoll(0), Decide(0, 0)] == [Tick] + t1;
    assert [Exit] + [End(StdOut), End(StdErr), Close(Drained)] == [Exit, End(StdOut), End(StdErr), Close(Drained)];
  }

  lemma Last(c: Child, a: Action)
    ensures RunFrom(c, [a]) == Step(c, a)
  {
    if Step(c, a).Some? { assert [a][1..] == [] && RunFrom(Step(c, a).value, []) == Step(c, a); }
  }

  /** Once the poll loop has been told of a stream's eof, no continuation of the run
      delivers another byte of it. */
  lemma {:induction false} EofIsFinal(c: Child, more: seq<Action>)
    requires Inv(c) && RunFrom(c, more).Some?
    ensures c.outEof ==> RunFrom(c, more).value.outEof
                         && Delivered(RunFrom(c, more).value.events, StdOut) == Delivered(c.events, StdOut)
    ensures c.errEof ==> RunFrom(c, more).value.errEof
                         && Delivered(RunFrom(c, more).value.events, StdErr) == Delivered(c.events, StdErr)
    decreases |more|
  {
    hide Inv, Step, Delivered;
    if more != [] {
      EofStep(c, more[0]);
      StepInv(c, more[0]);
      EofIsFinal(Step(c, more[0]).value, more[1..]);
    }
  }

  lemma EofStep(c: Child, a: Action)
    requires Inv(c) && Step(c, a).Some?
    ensures c.outEof ==> Step(c, a).value.outEof
                         && Delivered(Step(c, a).value.events, StdOut) == Delivered(c.events, StdOut)
    ensures c.errEof ==> Step(c, a).value.errEof
                         && Delivered(Step(c, a).value.events, StdErr) == Delivered(c.events, StdErr)
  {
    hide StreamStep, StreamOk, Quiet, Ended, Delivered, Finish;
    if !(a.OfOut? || a.OfErr? || a.ProcessExits?) { JsKeepsEof(c, a); }
  }

  lemma JsKeepsEof(c: Child, a: Action)
    requires StreamsOk(c) && JsStep(c, a).Some?
    ensures c.outEof ==> JsStep(c, a).value.outEof
                         && Delivered(JsStep(c, a).value.events, StdOut) == Delivered(c.events, StdOut)
    ensures c.errEof ==> JsStep(c, a).value.errEof
                         && Delivered(JsStep(c, a).value.events, StdErr) == Delivered(c.events, StdErr)
  {
    hide StreamOk, Delivered;
    forall how, which, at
      ensures Delivered(Finish(c.(exitAt := at), how).events, which) == Delivered(c.events, which)
    {
      DeliveredFinish(c.(exitAt := at), how, which);
    }
    assert c.(exitAt := c.exitAt) == c;
    DeliveredMore(c.events, Exit, StdOut);
    DeliveredMore(c.events, Exit, StdErr);
    if c.poll.TookBoth? {
      DeliveredPush(c.events, c.poll.o, c.poll.e);
    }
  }
}
