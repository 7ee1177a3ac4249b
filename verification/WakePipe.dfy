/** The wake protocol of net_wait.cpp: any number of threads call wakeNetWait while
    one thread goes in and out of waitForNetEvents. A step is one atomic operation
    on the flag, one system call on the pipe, or one decision of the waiter.
 */
module WakePipe {
  import opened Common

  /** Where one call of wakeNetWait is; Silent has returned without writing. */
  datatype Stage = Called | Won | ToWrite | Wrote | Silent

  /** `answered`: the wait, by number, that cleared the flag after this call's exchange. */
  datatype Waker = Waker(stage: Stage, answered: Option<nat>)

  /** How a wait came to its end. The last four are select's answers: the pipe is
      readable, some socket is ready, nothing is, or select failed. */
  datatype Departure = FlagUp | ByPipe | BySocket | ByTimeout | ByError

  /** Where the waiter is. */
  datatype Waiter =
    | Outside
    | Entered
    | FlagSeenDown
    | Selecting
    | Selected(left: Departure)
    | Clearing(left: Departure)
    | Emptying(left: Departure)

  /** A select that has returned, and the calls of wakeNetWait as they were then. */
  datatype Ended = Ended(how: Departure, wakers: seq<Waker>)

  /** `ready`: the pipe exists; `watched`: its descriptor is below FD_SETSIZE. `bytes`
      is what the pipe holds, at most `capacity`. `waits` counts the waits begun;
      `ended` is the select of the last one; `answering` says that it cleared the flag
      on some call; `returned` is the result of the last wait to end. */
  datatype State = State(
    flag: bool, ready: bool, watched: bool, bytes: nat, capacity: nat, waiter: Waiter, wakers: seq<Waker>,
    waits: nat, ended: Option<Ended>, answering: bool, returned: Option<bool>)

  datatype Action =
    | Wake                      // some thread calls wakeNetWait
    | Exchange(w: nat)
    | LoadWriteFd(w: nat)
    | Write(w: nat)
    | Enter(created: bool, low: bool)  // ensureWakePipe: whether pipe() succeeded if tried, and how low its number is
    | LoadFlag
    | SkipSelect(result: bool)  // pending events, no timeout, or nothing to select on
    | GoSelect
    | SelectReturns(how: Departure, stray: bool)  // stray: what FD_ISSET finds past the set's end
    | LoadFlagAgain
    | Clear
    | Read(n: nat)
    | ReadNothing

  /** rc > 0, or the flag seen up at once. */
  function Result(left: Departure): bool { left != ByTimeout && left != ByError }

  predicate Signalled(w: Waker) { w.stage != Called }

  /** A call that has signalled and that no clearing of the flag has answered yet. */
  predicate Unanswered(w: Waker) { Signalled(w) && w.answered == None }

  function Answer(w: Waker, wait: nat): Waker { if Unanswered(w) then w.(answered := Some(wait)) else w }

  function Answered(wakers: seq<Waker>, wait: nat): (r: seq<Waker>)
    ensures |r| == |wakers|
  {
    seq(|wakers|, i requires 0 <= i < |wakers| => Answer(wakers[i], wait))
  }

  function WakerStep(s: State, a: Action): Option<State> {
    match a
    case Wake => Some(s.(wakers := s.wakers + [Waker(Called, None)]))
    case Exchange(w) =>
      if w >= |s.wakers| || s.wakers[w].stage != Called then None
      else Some(s.(flag := true, wakers := s.wakers[w := Waker(if s.flag then Silent else Won, None)]))
    case LoadWriteFd(w) =>
      if w >= |s.wakers| || s.wakers[w].stage != Won then None
      else Some(s.(wakers := s.wakers[w := s.wakers[w].(stage := if s.ready then ToWrite else Silent)]))
    case Write(w) =>
      if w >= |s.wakers| || s.wakers[w].stage != ToWrite then None
      else Some(s.(bytes := if s.bytes < s.capacity then s.bytes + 1 else s.bytes,
                   wakers := s.wakers[w := s.wakers[w].(stage := Wrote)]))
    case _ => None
  }

  /** select has the pipe in its set and would find it readable. */
  predicate Readable(s: State) { s.ready && s.watched && s.bytes > 0 }

  /** An answer select can give: it reports the pipe only if it is readable and
      nothing only if it is not. */
  predicate CanReturn(s: State, how: Departure) {
    match how
    case FlagUp => false
    case ByPipe => Readable(s)
    case BySocket => true
    case ByTimeout => !Readable(s)
    case ByError => true
  }

  /** The first half of the test behind select. */
  predicate PipeReported(s: State, how: Departure, stray: bool) {
    s.ready && Result(how) && if s.watched then s.bytes > 0 else stray
  }

  function WaiterStep(s: State, a: Action): Option<State> {
    match s.waiter
    case Outside =>
      if !a.Enter? then None
      else Some(s.(ready := s.ready || a.created, watched := if s.ready then s.watched else a.low,
                   waiter := Entered, waits := s.waits + 1, ended := None, answering := false))
    case Entered =>
      if a.LoadFlag? then Some(s.(waiter := if s.flag then Clearing(FlagUp) else FlagSeenDown)) else None
    case FlagSeenDown =>
      if a.SkipSelect? then Some(s.(waiter := Outside, returned := Some(a.result)))
      else if a.GoSelect? then Some(s.(waiter := Selecting))
      else None
    case Selecting =>
      if !a.SelectReturns? || !CanReturn(s, a.how) then None
      else Some(s.(waiter := if PipeReported(s, a.how, a.stray) then Clearing(a.how) else Selected(a.how),
                   ended := Some(Ended(a.how, s.wakers))))
    case Selected(left) =>
      if !a.LoadFlagAgain? then None
      else if s.flag then Some(s.(waiter := Clearing(left)))
      else Some(s.(waiter := Outside, returned := Some(Result(left))))
    case Clearing(left) =>
      if !a.Clear? then None
      else
        var s' := s.(flag := false, wakers := Answered(s.wakers, s.waits),
                     answering := exists i :: 0 <= i < |s.wakers| && Unanswered(s.wakers[i]));
        if s.ready then Some(s'.(waiter := Emptying(left)))
        else Some(s'.(waiter := Outside, returned := Some(Result(left))))
    case Emptying(left) =>
      if a.Read? && 0 < a.n <= s.bytes then Some(s.(bytes := s.bytes - a.n))
      else if a.ReadNothing? && s.bytes == 0 then Some(s.(waiter := Outside, returned := Some(Result(left))))
      else None
  }

  predicate OfWaker(a: Action) { a.Wake? || a.Exchange? || a.LoadWriteFd? || a.Write? }

  function Step(s: State, a: Action): Option<State> {
    if OfWaker(a) then WakerStep(s, a) else WaiterStep(s, a)
  }

  function Init(capacity: nat): State {
    State(false, false, false, 0, capacity, Outside, [], 0, None, false, None)
  }

  // ----- the invariant -----

  predicate Writing(w: Waker) { w.stage == Won || w.stage == ToWrite }

  /** Past the flag check and still able to block. */
  predicate Committed(w: Waiter) { w.FlagSeenDown? || w.Selecting? }

  ghost predicate FlagOk(s: State) { forall i :: 0 <= i < |s.wakers| && Unanswered(s.wakers[i]) ==> s.flag }

  ghost predicate PipeOk(s: State) {
    Committed(s.waiter) && s.ready && s.flag && s.bytes == 0 ==>
      exists i :: 0 <= i < |s.wakers| && Writing(s.wakers[i])
  }

  /** While a wait may block, an unanswered call's byte stays in the pipe. */
  ghost predicate ByteOk(s: State) {
    && (forall i :: 0 <= i < |s.wakers| && s.wakers[i].stage.Wrote? ==> s.ready)
    && (forall i :: 0 <= i < |s.wakers| && s.wakers[i].stage.ToWrite? ==> s.ready)
    && (Committed(s.waiter) ==>
          forall i :: 0 <= i < |s.wakers| && Unanswered(s.wakers[i]) && s.wakers[i].stage.Wrote? ==> s.bytes > 0)
  }

  /** Before its clearing a wait has answered nothing. */
  ghost predicate NumbersOk(s: State) {
    forall i :: 0 <= i < |s.wakers| && s.wakers[i].answered.Some? ==>
      s.wakers[i].answered.value < s.waits
      || (s.wakers[i].answered.value == s.waits && (s.waiter.Emptying? || s.waiter.Outside?))
  }

  /** Which select the wait has behind it, and what it will return or has returned. */
  ghost predicate WaitOk(s: State) {
    match s.waiter
    case Outside => s.answering ==> s.returned == Some(s.ended.Some? ==> Result(s.ended.value.how))
    case Selected(left) => left != FlagUp && LeftBy(s, left) && !s.answering
    case Clearing(left) => LeftBy(s, left) && !s.answering
    case Emptying(left) => s.ready && LeftBy(s, left)
    case _ => s.ended == None && !s.answering
  }

  predicate LeftBy(s: State, left: Departure) {
    if left == FlagUp then s.ended == None else s.ended.Some? && s.ended.value.how == left
  }

  /** What was so when the wait's select returned. */
  ghost predicate EndedOk(s: State) {
    s.ended.Some? ==>
      var e := s.ended.value;
      && |e.wakers| <= |s.wakers|
      && (forall i :: 0 <= i < |e.wakers| && e.wakers[i].answered.Some? ==>
            e.wakers[i].answered.value < s.waits && s.wakers[i].answered == e.wakers[i].answered)
      && (e.how == ByTimeout && s.watched ==>
            forall i :: 0 <= i < |e.wakers| && Unanswered(e.wakers[i]) ==> !e.wakers[i].stage.Wrote?)
  }

  ghost predicate Inv(s: State) {
    FlagOk(s) && PipeOk(s) && ByteOk(s) && NumbersOk(s) && WaitOk(s) && EndedOk(s) && CalledOk(s)
  }

  lemma WakerStepInv(s: State, a: Action)
    requires s.capacity > 0 && Inv(s) && WakerStep(s, a).Some?
    ensures Inv(WakerStep(s, a).value)
  {
    var s' := WakerStep(s, a).value;
    if Committed(s'.waiter) && s'.ready && s'.flag && s'.bytes == 0 {
      if a.Exchange? && !s.flag {
        assert Writing(s'.wakers[a.w]);
      } else {
        var i :| 0 <= i < |s.wakers| && Writing(s.wakers[i]);
        assert Writing(s'.wakers[i]);
      }
    }
  }

  ghost predicate CalledOk(s: State) {
    forall i :: 0 <= i < |s.wakers| && s.wakers[i].stage.Called? ==> s.wakers[i].answered == None
  }

  lemma ClearInv(s: State)
    requires Inv(s) && s.waiter.Clearing?
    ensures Inv(WaiterStep(s, Clear).value)
  {
    var s' := WaiterStep(s, Clear).value;
    assert FlagOk(s') && PipeOk(s') && WaitOk(s') && CalledOk(s');
    assert ByteOk(s') && NumbersOk(s');
    assert EndedOk(s');
  }

  lemma SelectInv(s: State, how: Departure, stray: bool)
    requires Inv(s) && s.waiter.Selecting? && CanReturn(s, how)
    ensures Inv(WaiterStep(s, SelectReturns(how, stray)).value)
  {
    var s' := WaiterStep(s, SelectReturns(how, stray)).value;
    assert FlagOk(s') && PipeOk(s') && WaitOk(s') && CalledOk(s');
    assert ByteOk(s') && NumbersOk(s');
    assert EndedOk(s');
  }

  lemma EnterInv(s: State, created: bool, low: bool)
    requires Inv(s) && s.waiter.Outside?
    ensures Inv(WaiterStep(s, Enter(created, low)).value)
  {
    var s' := WaiterStep(s, Enter(created, low)).value;
    assert FlagOk(s') && PipeOk(s') && WaitOk(s') && CalledOk(s');
    assert ByteOk(s') && NumbersOk(s');
  }

  lemma WaiterStepInv(s: State, a: Action)
    requires s.capacity > 0 && Inv(s) && WaiterStep(s, a).Some?
    ensures Inv(WaiterStep(s, a).value)
  {
    match s.waiter
    case Outside => EnterInv(s, a.created, a.low);
    case Selecting => SelectInv(s, a.how, a.stray);
    case Clearing(_) => ClearInv(s);
    case Entered => ThroughInv(s, a);
    case FlagSeenDown => ThroughInv(s, a);
    case Selected(_) => ThroughInv(s, a);
    case Emptying(_) => ThroughInv(s, a);
  }

  lemma ThroughInv(s: State, a: Action)
    requires s.capacity > 0 && Inv(s) && WaiterStep(s, a).Some?
    requires s.waiter.Entered? || s.waiter.FlagSeenDown? || s.waiter.Selected? || s.waiter.Emptying?
    ensures Inv(WaiterStep(s, a).value)
  {
    var s' := WaiterStep(s, a).value;
    assert s'.wakers == s.wakers && s'.waits == s.waits && s'.ended == s.ended && s'.flag == s.flag;
    assert FlagOk(s') && PipeOk(s') && CalledOk(s');
    assert ByteOk(s') && NumbersOk(s');
    assert WaitOk(s') && EndedOk(s');
  }

  lemma StepInv(s: State, a: Action)
    requires s.capacity > 0 && Inv(s) && Step(s, a).Some?
    ensures Inv(Step(s, a).value) && Step(s, a).value.capacity == s.capacity
  {
    hide Inv;
    if OfWaker(a) { WakerStepInv(s, a); } else { WaiterStepInv(s, a); }
  }

  /** The state an interleaving of the waiter and any number of wakers leads to, or
      None when an action finds its thread elsewhere. */
  function RunFrom(s: State, actions: seq<Action>): Option<State>
    decreases |actions|
  {
    if actions == [] then Some(s)
    else
      match Step(s, actions[0])
      case None => None
      case Some(s') => RunFrom(s', actions[1..])
  }

  function Run(capacity: nat, actions: seq<Action>): Option<State> {
    RunFrom(Init(capacity), actions)
  }

  lemma {:induction false} RunKeepsInv(s: State, actions: seq<Action>)
    requires s.capacity > 0 && Inv(s) && RunFrom(s, actions).Some?
    ensures Inv(RunFrom(s, actions).value)
    decreases |actions|
  {
    hide Inv, Step;
    if actions != [] {
      StepInv(s, actions[0]);
      RunKeepsInv(Step(s, actions[0]).value, actions[1..]);
    }
  }

  lemma ReachableInv(capacity: nat, actions: seq<Action>)
    requires capacity > 0 && Run(capacity, actions).Some?
    ensures Inv(Run(capacity, actions).value)
  {
    RunKeepsInv(Init(capacity), actions);
  }

  /** Every call that has exchanged the flag is past writing to the pipe. */
  predicate Quiet(s: State) { forall i :: 0 <= i < |s.wakers| ==> !Writing(s.wakers[i]) }

  /** No wake-up is lost. In any interleaving, take a call of wakeNetWait that has
      signalled and that no wait has answered by clearing the flag. Then the flag is
      up, so the next wait goes from its check straight to clearing, with result
      true; and a wait already past its check, with the pipe there, either has a byte
      to read or a waker still about to write one. */
  lemma NoLostWakeUp(capacity: nat, actions: seq<Action>, i: nat)
    requires capacity > 0 && Run(capacity, actions).Some?
    requires i < |Run(capacity, actions).value.wakers| && Unanswered(Run(capacity, actions).value.wakers[i])
    ensures var s := Run(capacity, actions).value;
      && s.flag
      && (s.waiter.Entered? ==> Step(s, LoadFlag) == Some(s.(waiter := Clearing(FlagUp))) && Result(FlagUp))
      && (s.waiter.Outside? ==> forall created, low ::
            Step(s, Enter(created, low)).Some? && Step(Step(s, Enter(created, low)).value, LoadFlag).Some?
            && Step(Step(s, Enter(created, low)).value, LoadFlag).value.waiter == Clearing(FlagUp))
      && (Committed(s.waiter) && s.ready ==>
            s.bytes > 0 || exists j :: 0 <= j < |s.wakers| && Writing(s.wakers[j]))
  {
    ReachableInv(capacity, actions);
  }

  /** Once the wakers have all returned, an unanswered call gets the waiter out of
      select if and only if the pipe could be created with a descriptor select takes. */
  lemma WakesTheSelect(capacity: nat, actions: seq<Action>, i: nat)
    requires capacity > 0 && Run(capacity, actions).Some?
    requires i < |Run(capacity, actions).value.wakers| && Unanswered(Run(capacity, actions).value.wakers[i])
    requires Run(capacity, actions).value.waiter.Selecting? && Quiet(Run(capacity, actions).value)
    ensures var s := Run(capacity, actions).value;
      && (Step(s, SelectReturns(ByPipe, false)).Some? <==> s.ready && s.watched)
      && (Step(s, SelectReturns(ByTimeout, false)).None? <==> s.ready && s.watched)
  {
    ReachableInv(capacity, actions);
  }

  // ----- when a wake is reported as a timeout -----

  /** The answer of the last select since the last Enter, read off the actions alone;
      `last` is that of the actions before. */
  function LastSelect(last: Option<Departure>, actions: seq<Action>): Option<Departure>
    decreases |actions|
  {
    if actions == [] then last
    else
      LastSelect(if actions[0].Enter? then None else if actions[0].SelectReturns? then Some(actions[0].how) else last,
                 actions[1..])
  }

  function How(s: State): Option<Departure> { if s.ended.Some? then Some(s.ended.value.how) else None }

  lemma StepKeepsSelect(s: State, a: Action)
    requires Step(s, a).Some?
    ensures How(Step(s, a).value) == LastSelect(How(s), [a])
  {
    assert [a][1..] == [];
  }

  lemma {:induction false} RunKeepsSelect(s: State, actions: seq<Action>)
    requires RunFrom(s, actions).Some?
    ensures How(RunFrom(s, actions).value) == LastSelect(How(s), actions)
    decreases |actions|
  {
    hide Step, How;
    if actions != [] {
      StepKeepsSelect(s, actions[0]);
      assert [actions[0]][1..] == [];
      RunKeepsSelect(Step(s, actions[0]).value, actions[1..]);
    }
  }

  /** api.h promises true for every wake. A wait that answered a wake has returned
      false if and only if it went through a select and the last thing that select did
      was to report nothing ready or to fail. */
  lemma WakeAnsweredWithFalse(capacity: nat, actions: seq<Action>)
    requires capacity > 0 && Run(capacity, actions).Some?
    requires Run(capacity, actions).value.waiter.Outside? && Run(capacity, actions).value.answering
    ensures Run(capacity, actions).value.returned == Some(false)
       <==> LastSelect(None, actions) == Some(ByTimeout) || LastSelect(None, actions) == Some(ByError)
  {
    hide Step;
    ReachableInv(capacity, actions);
    RunKeepsSelect(Init(capacity), actions);
  }

  /** If that select did not fail and could see the pipe, it ended before any call the
      wait answered had written its byte: at its return each of them was still short
      of its write, or had left the writing to another. */
  lemma TimeoutCameFirst(capacity: nat, actions: seq<Action>, i: nat)
    requires capacity > 0 && Run(capacity, actions).Some?
    requires var s := Run(capacity, actions).value;
      && s.waiter.Outside? && s.answering && s.returned == Some(false) && s.watched
      && LastSelect(None, actions) != Some(ByError)
      && i < |s.wakers| && s.wakers[i].answered == Some(s.waits)
    ensures var s := Run(capacity, actions).value;
      && s.ended.Some? && s.ended.value.how == ByTimeout
      && (i < |s.ended.value.wakers| ==> !s.ended.value.wakers[i].stage.Wrote?)
  {
    hide Step;
    ReachableInv(capacity, actions);
    RunKeepsSelect(Init(capacity), actions);
  }

  // ----- runs that lose or misreport a wake -----

  lemma Pass(s: State, a: Action, rest: seq<Action>, s': State)
    requires Step(s, a) == Some(s')
    ensures RunFrom(s, [a] + rest) == RunFrom(s', rest)
  {
    assert ([a] + rest)[1..] == rest;
  }

  /** A wait that gets as far as select with nothing signalled. */
  lemma RunToSelect(capacity: nat, created: bool, low: bool, rest: seq<Action>)
    ensures var s := State(false, created, low, 0, capacity, Selecting, [], 1, None, false, None);
      Run(capacity, [Enter(created, low)] + ([LoadFlag] + ([GoSelect] + rest))) == RunFrom(s, rest)
  {
    hide RunFrom;
    var s1 := Init(capacity).(ready := created, watched := low, waiter := Entered, waits := 1);
    Pass(Init(capacity), Enter(created, low), [LoadFlag] + ([GoSelect] + rest), s1);
    var s2 := s1.(waiter := FlagSeenDown);
    Pass(s1, LoadFlag, [GoSelect] + rest, s2);
    Pass(s2, GoSelect, rest, s2.(waiter := Selecting));
  }

  /** A first call of wakeNetWait, up to its exchange. */
  lemma RunToSignal(s: State, rest: seq<Action>)
    requires s.wakers == [] && !s.flag
    ensures var s' := s.(flag := true, wakers := [Waker(Won, None)]);
      RunFrom(s, [Wake] + ([Exchange(0)] + rest)) == RunFrom(s', rest)
  {
    hide RunFrom;
    var s1 := s.(wakers := [Waker(Called, None)]);
    assert s.wakers + s1.wakers == s1.wakers;
    assert s1.wakers[0 := Waker(Won, None)] == [Waker(Won, None)];
    Pass(s, Wake, [Exchange(0)] + rest, s1);
    Pass(s1, Exchange(0), rest, s.(flag := true, wakers := [Waker(Won, None)]));
  }

  lemma Stop(s: State, a: Action)
    requires Step(s, a).Some?
    ensures RunFrom(s, [a]) == Step(s, a)
  {
    assert RunFrom(Step(s, a).value, []) == Step(s, a);
  }

  /** The wake is done with, unanswered, and the select does not see it. */
  predicate Unseen(r: Option<State>) {
    && r.Some? && r.value.waiter == Selecting && Quiet(r.value)
    && |r.value.wakers| == 1 && Unanswered(r.value.wakers[0])
    && Step(r.value, SelectReturns(ByPipe, false)).None? && Step(r.value, SelectReturns(ByTimeout, false)).Some?
  }

  /** Without the pipe a wake during a select on sockets is lost to that select. */
  lemma PipeFailureLosesAWake(capacity: nat)
    requires capacity > 0
    ensures Unseen(Run(capacity, [Enter(false, true), LoadFlag, GoSelect, Wake, Exchange(0), LoadWriteFd(0)]))
  {
    hide RunFrom, Run;
    var s := State(false, false, true, 0, capacity, Selecting, [], 1, None, false, None);
    RunToSelect(capacity, false, true, [Wake] + ([Exchange(0)] + [LoadWriteFd(0)]));
    RunToSignal(s, [LoadWriteFd(0)]);
    Stop(s.(flag := true, wakers := [Waker(Won, None)]), LoadWriteFd(0));
    assert [Enter(false, true)] + ([LoadFlag] + ([GoSelect] + ([Wake] + ([Exchange(0)] + [LoadWriteFd(0)]))))
        == [Enter(false, true), LoadFlag, GoSelect, Wake, Exchange(0), LoadWriteFd(0)];
  }

  /** With the pipe there, its descriptor at FD_SETSIZE or above and a byte in it, the
      wake is lost to the select all the same. */
  lemma HighDescriptorLosesAWake(capacity: nat)
    requires capacity > 0
    ensures var r := Run(capacity, [Enter(true, false), LoadFlag, GoSelect, Wake, Exchange(0),
                                   LoadWriteFd(0), Write(0)]);
      Unseen(r) && r.value.ready && r.value.bytes == 1
  {
    hide RunFrom, Run;
    var s := State(false, true, false, 0, capacity, Selecting, [], 1, None, false, None);
    RunToSelect(capacity, true, false, [Wake] + ([Exchange(0)] + ([LoadWriteFd(0)] + [Write(0)])));
    RunToSignal(s, [LoadWriteFd(0)] + [Write(0)]);
    var s1 := s.(flag := true, wakers := [Waker(Won, None)]);
    assert s1.wakers[0 := Waker(ToWrite, None)] == [Waker(ToWrite, None)];
    var s2 := s1.(wakers := [Waker(ToWrite, None)]);
    Pass(s1, LoadWriteFd(0), [Write(0)], s2);
    assert s2.wakers[0 := Waker(Wrote, None)] == [Waker(Wrote, None)];
    Stop(s2, Write(0));
    assert [Enter(true, false)] + ([LoadFlag] + ([GoSelect]
         + ([Wake] + ([Exchange(0)] + ([LoadWriteFd(0)] + [Write(0)])))))
        == [Enter(true, false), LoadFlag, GoSelect, Wake, Exchange(0), LoadWriteFd(0), Write(0)];
  }

  function Timeout(): Action { SelectReturns(ByTimeout, false) }

  /** A wake that comes between the end of the select and the second look at the flag
      is answered, and the wait returns false. */
  lemma WakeReportedAsTimeout(capacity: nat)
    requires capacity > 0
    ensures var r := Run(capacity, [Enter(true, true), LoadFlag, GoSelect, Timeout(), Wake, Exchange(0),
                                   LoadFlagAgain, Clear, ReadNothing]);
      && r.Some? && r.value.waiter == Outside && r.value.answering && r.value.returned == Some(false)
      && |r.value.wakers| == 1 && r.value.wakers[0].answered == Some(r.value.waits)
  {
    hide RunFrom, Run;
    var s := State(false, true, true, 0, capacity, Selecting, [], 1, None, false, None);
    RunToSelect(capacity, true, true, [Timeout()] + ([Wake] + ([Exchange(0)] + TAIL)));
    var s1 := s.(waiter := Selected(ByTimeout), ended := Some(Ended(ByTimeout, [])));
    Pass(s, Timeout(), [Wake] + ([Exchange(0)] + TAIL), s1);
    RunToSignal(s1, TAIL);
    AnswerTooLate(s1.(flag := true, wakers := [Waker(Won, None)]));
    assert [Enter(true, true)] + ([LoadFlag] + ([GoSelect] + ([Timeout()] + ([Wake] + ([Exchange(0)] + TAIL)))))
        == [Enter(true, true), LoadFlag, GoSelect, Timeout(), Wake, Exchange(0), LoadFlagAgain, Clear, ReadNothing];
  }

  const TAIL: seq<Action> := [LoadFlagAgain] + ([Clear] + [ReadNothing])

  lemma AnswerTooLate(s: State)
    requires s.flag && s.ready && s.bytes == 0 && s.waiter == Selected(ByTimeout)
    requires s.wakers == [Waker(Won, None)]
    ensures var r := RunFrom(s, TAIL);
      && r.Some? && r.value.waiter == Outside && r.value.answering && r.value.returned == Some(false)
      && r.value.wakers == [Waker(Won, Some(s.waits))] && r.value.waits == s.waits
  {
    hide RunFrom;
    var s1 := s.(waiter := Clearing(ByTimeout));
    Pass(s, LoadFlagAgain, [Clear] + [ReadNothing], s1);
    assert Unanswered(s1.wakers[0]) && Answered(s1.wakers, s.waits) == [Waker(Won, Some(s.waits))];
    var s2 := s1.(waiter := Emptying(ByTimeout), flag := false, wakers := [Waker(Won, Some(s.waits))],
                  answering := true);
    Pass(s1, Clear, [ReadNothing], s2);
    Stop(s2, ReadNothing);
  }
}
