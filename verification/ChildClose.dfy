/** When a piped child's `exit` and `close` fire, told by the steps taken: by the process's
    exit, by the clock readings of the poll loop, and by the writes into its pipes.
 */
module ChildClose {
  import opened Common
  import opened ChildPipe

  lemma RunMore(highWater: nat, init: seq<Action>, a: Action)
    ensures Run(highWater, init + [a])
         == if Run(highWater, init).Some? then Step(Run(highWater, init).value, a) else None
  {
    hide Step;
    RunConcat(Init(highWater), init, [a]);
    if Run(highWater, init).Some? { Last(Run(highWater, init).value, a); }
  }

  lemma EarlierRuns(highWater: nat, init: seq<Action>, a: Action)
    requires Run(highWater, init + [a]).Some?
    ensures Run(highWater, init).Some? && Step(Run(highWater, init).value, a) == Run(highWater, init + [a])
    ensures Inv(Run(highWater, init).value) && Inv(Run(highWater, init + [a]).value)
  {
    hide Step, Inv;
    RunMore(highWater, init, a);
    ReachableInv(highWater, init);
    ReachableInv(highWater, init + [a]);
  }

  // ----- exit -----

  ghost predicate ExitSeen(actions: seq<Action>) {
    exists i, j :: 0 <= i < j < |actions| && actions[i] == ProcessExits && actions[j].ChildPoll?
  }

  lemma ExitSeenMore(init: seq<Action>, a: Action)
    ensures ExitSeen(init + [a]) <==> ExitSeen(init) || (ProcessExits in init && a.ChildPoll?)
  {
    var actions := init + [a];
    if ExitSeen(init) {
      var i, j :| 0 <= i < j < |init| && init[i] == ProcessExits && init[j].ChildPoll?;
      assert actions[i] == ProcessExits && actions[j].ChildPoll?;
    }
    if ProcessExits in init && a.ChildPoll? {
      var i :| 0 <= i < |init| && init[i] == ProcessExits;
      assert actions[i] == ProcessExits && actions[|init|].ChildPoll?;
    }
    if ExitSeen(actions) {
      var i, j :| 0 <= i < j < |actions| && actions[i] == ProcessExits && actions[j].ChildPoll?;
      if j < |init| {
        assert init[i] == ProcessExits && init[j].ChildPoll?;
      } else {
        assert init[i] == ProcessExits;
      }
    }
  }

  lemma ExitStep(c: Child, a: Action)
    requires Step(c, a).Some?
    ensures var c' := Step(c, a).value;
      && c'.gone == (c.gone || a == ProcessExits) && c'.exited == (c.exited || (c.gone && a.ChildPoll?))
  {
    hide StreamStep;
  }

  lemma {:induction false} ExitRun(highWater: nat, actions: seq<Action>)
    requires Run(highWater, actions).Some?
    ensures var c := Run(highWater, actions).value;
      (c.gone <==> ProcessExits in actions) && (c.exited <==> ExitSeen(actions))
    decreases |actions|
  {
    hide Step, ExitSeen;
    if actions == [] {
      assert !ExitSeen([]) by { NothingSeen(); }
    } else {
      var init, a := actions[..|actions| - 1], actions[|actions| - 1];
      assert actions == init + [a];
      EarlierRuns(highWater, init, a);
      ExitRun(highWater, init);
      ExitSeenMore(init, a);
      ExitStep(Run(highWater, init).value, a);
    }
  }

  lemma NothingSeen()
    ensures !ExitSeen([])
  {
  }

  /** `exit` has been emitted if and only if the process had exited before some poll. */
  lemma ExitIsExit(highWater: nat, actions: seq<Action>)
    requires Run(highWater, actions).Some?
    ensures Exit in Run(highWater, actions).value.events <==> ExitSeen(actions)
  {
    hide ExitSeen, Delivered;
    ExitRun(highWater, actions);
    ReachableInv(highWater, actions);
    ExitIsListed(Run(highWater, actions).value);
  }

  lemma ExitIsListed(c: Child)
    requires EventsOk(c)
    ensures Exit in c.events <==> c.exited
  {
    if c.poll.Released? {
      var n := |c.events| - 3;
      assert c.events == c.events[..n] + [c.events[n], c.events[n + 1], c.events[n + 2]];
      assert Exit in c.events[..n] <==> c.exited;
    }
  }

  // ----- what went into the pipes -----

  lemma PutStep(c: Child, a: Action, which: Which)
    requires Step(c, a).Some?
    ensures StreamOf(Step(c, a).value, which).written == StreamOf(c, which).written + PutBytes([a], which)
  {
    hide StreamStep, JsStep;
    var w := StreamOf(c, which).written;
    assert [a][1..] == [] && w + [] == w;
    match OfStream(a, which)
    case Some(b) =>
      PutStreamStep(StreamOf(c, which), b, c.closing, c.highWater);
      if b.Put? { assert b.bytes + [] == b.bytes; }
    case None => WrittenAlone(c, a, which);
  }

  lemma PutStreamStep(s: Stream, a: StreamAction, closing: bool, highWater: nat)
    requires StreamStep(s, a, closing, highWater).Some?
    ensures StreamStep(s, a, closing, highWater).value.written == if a.Put? then s.written + a.bytes else s.written
  {
  }

  /** No other step writes. */
  lemma WrittenAlone(c: Child, a: Action, which: Which)
    requires Step(c, a).Some? && OfStream(a, which) == None
    ensures StreamOf(Step(c, a).value, which).written == StreamOf(c, which).written
  {
    hide StreamStep;
  }

  lemma {:induction false} PutRun(c: Child, actions: seq<Action>, which: Which)
    requires RunFrom(c, actions).Some?
    ensures StreamOf(RunFrom(c, actions).value, which).written == StreamOf(c, which).written + PutBytes(actions, which)
    decreases |actions|
  {
    hide Step, StreamOf;
    if actions == [] {
      assert StreamOf(c, which).written + [] == StreamOf(c, which).written;
    } else {
      PutStep(c, actions[0], which);
      PutBytesFront(actions, which);
      PutRun(Step(c, actions[0]).value, actions[1..], which);
    }
  }

  /** What counts as written to a stream is what the writers put into its pipe, so what
      its listeners get is the beginning of that, whatever happens. */
  lemma DeliveredIsWritten(highWater: nat, actions: seq<Action>, which: Which)
    requires Run(highWater, actions).Some?
    ensures var c := Run(highWater, actions).value;
      StreamOf(c, which).written == PutBytes(actions, which) && Delivered(c.events, which) <= PutBytes(actions, which)
  {
    hide Delivered, PutBytes;
    PutRun(Init(highWater), actions, which);
    assert [] + PutBytes(actions, which) == PutBytes(actions, which);
    NothingLostOrReordered(highWater, actions);
  }

  /** A reader at the top of its loop, below the mark and with bytes in the pipe, can move
      any number of them that fits its buffer and the mark. */
  lemma ReaderMoves(c: Child, n: nat)
    requires c.out.reader == Top && !c.closing && |c.out.data| < c.highWater
    requires 0 < n <= |c.out.kernel| && n <= 262144 && |c.out.data| + n <= c.highWater
    ensures RunFrom(c, [OfOut(PollReady), OfOut(FindRoom), OfOut(ReadSome(n)), OfOut(AppendChunk)])
         == Some(c.(out := c.out.(data := c.out.data + c.out.kernel[..n], kernel := c.out.kernel[n..])))
  {
    hide RunFrom;
    var c1 := c.(out := c.out.(reader := Ready));
    var c2 := c.(out := c.out.(reader := HasRoom(c.highWater - |c.out.data|)));
    var c3 := c.(out := c.out.(reader := Holding(c.out.kernel[..n]), kernel := c.out.kernel[n..]));
    var t3 := [OfOut(AppendChunk)];
    var t2 := [OfOut(ReadSome(n))] + t3;
    var t1 := [OfOut(FindRoom)] + t2;
    Pass(c, OfOut(PollReady), t1, c1);
    Pass(c1, OfOut(FindRoom), t2, c2);
    Pass(c2, OfOut(ReadSome(n)), t3, c3);
    Last(c3, OfOut(AppendChunk));
    assert [OfOut(PollReady), OfOut(FindRoom), OfOut(ReadSome(n)), OfOut(AppendChunk)] == [OfOut(PollReady)] + t1;
  }

  // ----- the grace period -----

  /** The step looks at the clock for a sign of life and reads `at`. */
  predicate Reads(a: Action, at: int) { (a.ChildPoll? && a.at == at) || (a.Decide? && a.again == at) }

  /** By step j exit had been emitted, and the clock was read there. */
  ghost predicate Signed(highWater: nat, actions: seq<Action>, j: nat, at: int) {
    && j < |actions| && Reads(actions[j], at)
    && Run(highWater, actions[..j + 1]).Some? && Exit in Run(highWater, actions[..j + 1]).value.events
  }

  /** Nothing was handed over after step j. */
  ghost predicate Silent(highWater: nat, actions: seq<Action>, j: nat)
    requires j < |actions| && Run(highWater, actions).Some? && Run(highWater, actions[..j + 1]).Some?
  {
    var early, late := Run(highWater, actions[..j + 1]).value.events, Run(highWater, actions).value.events;
    Delivered(early, StdOut) == Delivered(late, StdOut) && Delivered(early, StdErr) == Delivered(late, StdErr)
  }

  /** Data was handed over in this turn, and the clock not read yet. */
  predicate JustGot(p: Poll) { (p.Pushed? || p.Polled?) && p.got }

  ghost predicate SignOk(highWater: nat, actions: seq<Action>)
    requires Run(highWater, actions).Some?
  {
    var c := Run(highWater, actions).value;
    c.exited && !c.poll.Released? ==> exists j :: LastSign(highWater, actions, j)
  }

  ghost predicate LastSign(highWater: nat, actions: seq<Action>, j: nat)
    requires Run(highWater, actions).Some?
  {
    var c := Run(highWater, actions).value;
    Signed(highWater, actions, j, c.exitAt) && (!JustGot(c.poll) ==> Silent(highWater, actions, j))
  }

  lemma SignedMore(highWater: nat, init: seq<Action>, a: Action, j: nat, at: int)
    requires Signed(highWater, init, j, at)
    ensures Signed(highWater, init + [a], j, at) && (init + [a])[..j + 1] == init[..j + 1]
  {
    hide Run, Reads;
    assert (init + [a])[..j + 1] == init[..j + 1];
  }

  /** Only a push hands anything over. */
  lemma DeliveredStep(c: Child, a: Action, which: Which)
    requires Step(c, a).Some?
    ensures !a.Push? || !Step(c, a).value.poll.got ==>
      Delivered(Step(c, a).value.events, which) == Delivered(c.events, which)
    ensures a.Push? ==> c.poll.TookBoth? && Step(c, a).value.poll.Pushed?
  {
    hide StreamStep, Delivered;
    forall how, at
      ensures Delivered(Finish(c.(exitAt := at), how).events, which) == Delivered(c.events, which)
    {
      DeliveredFinish(c.(exitAt := at), how, which);
    }
    assert c.(exitAt := c.exitAt) == c;
    DeliveredMore(c.events, Exit, which);
    assert Delivered(c.events, which) + [] == Delivered(c.events, which);
    if c.poll.TookBoth? { DeliveredPush(c.events, c.poll.o, c.poll.e); }
  }

  /** What a step does to the last sign of life. */
  lemma SignStep(c: Child, a: Action)
    requires Step(c, a).Some? && !Step(c, a).value.poll.Released? && Step(c, a).value.exited
    ensures var c' := Step(c, a).value;
      || (Reads(a, c'.exitAt) && !JustGot(c'.poll) && a.Decide? && c.exited)
      || (Reads(a, c'.exitAt) && a.ChildPoll? && !c.exited)
      || (c.exited && !c.poll.Released? && c'.exitAt == c.exitAt && (JustGot(c.poll) ==> JustGot(c'.poll))
          && (JustGot(c'.poll) && !JustGot(c.poll) ==> a.Push?)
          && (a.Push? ==> !JustGot(c.poll) && (c'.poll.got ==> JustGot(c'.poll))))
  {
    hide StreamStep;
  }

  lemma SignKept(highWater: nat, init: seq<Action>, a: Action)
    requires Run(highWater, init + [a]).Some? && Run(highWater, init).Some? && SignOk(highWater, init)
    ensures SignOk(highWater, init + [a])
  {
    hide Step, Run, Delivered, Inv, JustGot, Reads, EventsOk;
    EarlierRuns(highWater, init, a);
    var c, c' := Run(highWater, init).value, Run(highWater, init + [a]).value;
    if c'.exited && !c'.poll.Released? {
      SignStep(c, a);
      assert Exit in c'.events by {
        assert EventsOk(c') by { InvEvents(c'); }
        ExitIsListed(c');
      }
      var actions := init + [a];
      assert actions[..|init| + 1] == actions;
      DeliveredStep(c, a, StdOut);
      DeliveredStep(c, a, StdErr);
      if Reads(a, c'.exitAt) && (a.Decide? || a.ChildPoll?) && (!JustGot(c'.poll) || !c.exited) {
        assert LastSign(highWater, actions, |init|);
      } else {
        var j :| LastSign(highWater, init, j);
        SignedMore(highWater, init, a, j, c.exitAt);
        if !JustGot(c'.poll) { assert Silent(highWater, init, j); }
        assert LastSign(highWater, actions, j);
      }
    }
  }

  lemma InvEvents(c: Child)
    requires Inv(c)
    ensures EventsOk(c)
  {
  }

  lemma {:induction false} SignRun(highWater: nat, actions: seq<Action>)
    requires Run(highWater, actions).Some?
    ensures SignOk(highWater, actions)
    decreases |actions|
  {
    hide Step, SignOk;
    if actions == [] {
      assert SignOk(highWater, []) by { NoSignYet(highWater); }
    } else {
      var init, a := actions[..|actions| - 1], actions[|actions| - 1];
      assert actions == init + [a];
      EarlierRuns(highWater, init, a);
      SignRun(highWater, init);
      SignKept(highWater, init, a);
    }
  }

  lemma NoSignYet(highWater: nat)
    ensures SignOk(highWater, [])
  {
  }

  /** Step k gave up: with exit emitted and an eof missing, at a reading `now` of the clock
      that is more than 2000 ms after the one at step j, since when nothing came. */
  ghost predicate GaveUp(highWater: nat, actions: seq<Action>, j: nat, k: nat, at: int) {
    && j <= k < |actions| && actions[k].Decide? && actions[k].now - at > 2000
    && Signed(highWater, actions, j, at)
    && Run(highWater, actions).Some? && Silent(highWater, actions, j)
  }

  ghost predicate GraceOk(highWater: nat, actions: seq<Action>)
    requires Run(highWater, actions).Some?
  {
    var c := Run(highWater, actions).value;
    c.events != [] && c.events[|c.events| - 1] == Close(GraceOver) ==>
      !(c.outEof && c.errEof) && exists j, k, at :: GaveUp(highWater, actions, j, k, at)
  }

  /** The closing step. */
  lemma ClosingStep(c: Child, a: Action)
    requires Inv(c) && Step(c, a).Some?
    requires var e := Step(c, a).value.events; e != [] && e[|e| - 1].Close?
    ensures var c' := Step(c, a).value;
      || (c.poll.Released? && c'.events == c.events && c'.outEof == c.outEof && c'.errEof == c.errEof)
      || (c.poll.Polled? && a.Decide? && c.exited
          && c'.events == Finish(c, if c.outEof && c.errEof then Drained else GraceOver).events
          && c'.outEof == c.outEof && c'.errEof == c.errEof && c'.poll.Released?
          && (!(c.outEof && c.errEof) ==> a.now - (if c.poll.got then a.again else c.exitAt) > 2000))
      || (a.Throw? && c'.events == Finish(c, Threw).events)
  {
    hide StreamStep, StreamsOk, Delivered;
    if !c.poll.Released? { assert forall i :: 0 <= i < |c.events| ==> !c.events[i].Close?; }
  }

  lemma GraceKept(highWater: nat, init: seq<Action>, a: Action)
    requires Run(highWater, init + [a]).Some? && Run(highWater, init).Some? && GraceOk(highWater, init)
    ensures GraceOk(highWater, init + [a])
  {
    hide Step, Run, Delivered, Inv, Reads, EventsOk;
    EarlierRuns(highWater, init, a);
    var actions := init + [a];
    var c, c' := Run(highWater, init).value, Run(highWater, actions).value;
    if c'.events != [] && c'.events[|c'.events| - 1] == Close(GraceOver) {
      ClosingStep(c, a);
      if c.poll.Released? && c'.events == c.events {
        var j, k, at :| GaveUp(highWater, init, j, k, at);
        SignedMore(highWater, init, a, j, at);
        assert GaveUp(highWater, actions, j, k, at);
      } else {
        GivesUp(highWater, init, a);
      }
    }
  }

  lemma GivesUp(highWater: nat, init: seq<Action>, a: Action)
    requires Run(highWater, init + [a]).Some? && Run(highWater, init).Some?
    requires var c, c' := Run(highWater, init).value, Run(highWater, init + [a]).value;
      && Step(c, a) == Some(c') && c.poll.Polled? && a.Decide? && c.exited && !(c.outEof && c.errEof)
      && c'.events == Finish(c, GraceOver).events
      && a.now - (if c.poll.got then a.again else c.exitAt) > 2000
    ensures exists j, k, at :: GaveUp(highWater, init + [a], j, k, at)
  {
    hide Step, Run, Delivered, Inv, EventsOk, Finish;
    EarlierRuns(highWater, init, a);
    var actions := init + [a];
    var c, c' := Run(highWater, init).value, Run(highWater, actions).value;
    DeliveredFinish(c, GraceOver, StdOut);
    DeliveredFinish(c, GraceOver, StdErr);
    if c.poll.got {
      assert actions[..|init| + 1] == actions;
      assert Exit in c'.events by {
        assert EventsOk(c) by { InvEvents(c); }
        ExitIsListed(c);
        FinishKeeps(c);
      }
      assert GaveUp(highWater, actions, |init|, |init|, a.again);
    } else {
      SignRun(highWater, init);
      var j :| LastSign(highWater, init, j);
      SignedMore(highWater, init, a, j, c.exitAt);
      assert GaveUp(highWater, actions, j, |init|, c.exitAt);
    }
  }

  lemma FinishKeeps(c: Child)
    requires Exit in c.events
    ensures Exit in Finish(c, GraceOver).events
  {
  }

  lemma {:induction false} GraceRun(highWater: nat, actions: seq<Action>)
    requires Run(highWater, actions).Some?
    ensures GraceOk(highWater, actions)
    decreases |actions|
  {
    hide Step, GraceOk;
    if actions == [] {
      assert GraceOk(highWater, []) by { NoGraceYet(highWater); }
    } else {
      var init, a := actions[..|actions| - 1], actions[|actions| - 1];
      assert actions == init + [a];
      EarlierRuns(highWater, init, a);
      GraceRun(highWater, init);
      GraceKept(highWater, init, a);
    }
  }

  lemma NoGraceYet(highWater: nat)
    ensures GraceOk(highWater, [])
  {
  }

  /** `close` comes without both eofs and without an error thrown only when, exit having
      been emitted, the last sign of life was read off the clock more than 2000 ms before
      the reading the step that gave up decided by, and no data came in between. */
  lemma CloseWaitsOutTheGrace(highWater: nat, actions: seq<Action>)
    requires Run(highWater, actions).Some?
    requires var e := Run(highWater, actions).value.events; e != [] && e[|e| - 1] == Close(GraceOver)
    ensures var c := Run(highWater, actions).value;
      !(c.outEof && c.errEof) && exists j, k, at :: GaveUp(highWater, actions, j, k, at)
  {
    GraceRun(highWater, actions);
  }

  lemma {:induction false} CloseThrewIsThrown(highWater: nat, actions: seq<Action>)
    requires Run(highWater, actions).Some?
    requires var e := Run(highWater, actions).value.events; e != [] && e[|e| - 1] == Close(Threw)
    ensures Throw in actions
    decreases |actions|
  {
    hide Step, Inv;
    if actions != [] {
      var init, a := actions[..|actions| - 1], actions[|actions| - 1];
      assert actions == init + [a];
      EarlierRuns(highWater, init, a);
      ClosingStep(Run(highWater, init).value, a);
      if !a.Throw? { CloseThrewIsThrown(highWater, init); }
    }
  }

  /** A turn counts as one with data exactly if it handed some over. */
  lemma GotIsData(c: Child)
    requires c.poll.TookBoth?
    ensures Step(c, Push).Some? && Step(c, Push).value.poll.Pushed?
    ensures var c' := Step(c, Push).value;
      c'.poll.got <==> Delivered(c'.events, StdOut) != Delivered(c.events, StdOut)
                       || Delivered(c'.events, StdErr) != Delivered(c.events, StdErr)
  {
    hide Delivered;
    DeliveredPush(c.events, c.poll.o, c.poll.e);
    LongerIsOther(Delivered(c.events, StdOut), c.poll.o);
    LongerIsOther(Delivered(c.events, StdErr), c.poll.e);
  }

  lemma LongerIsOther(a: Bytes, b: Bytes)
    ensures a + b != a <==> b != []
  {
    assert |a + b| == |a| + |b|;
    assert a + [] == a;
  }

  /** At the end of a turn the loop closes if and only if exit is known and either both
      eofs are or the grace period is over, counted from this turn if it brought data. */
  lemma ClosesExactly(highWater: nat, actions: seq<Action>, again: int, now: int)
    requires Run(highWater, actions).Some? && Run(highWater, actions).value.poll.Polled?
    ensures Run(highWater, actions + [Decide(again, now)]).Some?
    ensures var c, c' := Run(highWater, actions).value, Run(highWater, actions + [Decide(again, now)]).value;
      && (c'.poll.Released? <==>
            Exit in c.events && ((c.outEof && c.errEof) || now - (if c.poll.got then again else c.exitAt) > 2000))
      && (!c'.poll.Released? ==> c'.poll == Armed && c'.events == c.events)
  {
    hide Delivered;
    RunMore(highWater, actions, Decide(again, now));
    ReachableInv(highWater, actions);
    ExitIsListed(Run(highWater, actions).value);
  }
}
