/** The wake protocol's state told by the steps taken: the flag, the pipe, and what the waits
    returned.
 */
module WakeHistory {
  import opened Common
  import opened WakePipe

  lemma {:induction false} RunMore(s: State, init: seq<Action>, a: Action)
    ensures RunFrom(s, init + [a]) == if RunFrom(s, init).Some? then Step(RunFrom(s, init).value, a) else None
    decreases |init|
  {
    hide Step;
    if init == [] {
      assert [] + [a] == [a] && [a][1..] == [];
      if Step(s, a).Some? { assert RunFrom(Step(s, a).value, []) == Step(s, a); }
    } else {
      assert (init + [a])[0] == init[0] && (init + [a])[1..] == init[1..] + [a];
      if Step(s, init[0]).Some? { RunMore(Step(s, init[0]).value, init[1..], a); }
    }
  }

  lemma Earlier(capacity: nat, actions: seq<Action>)
    requires actions != [] && Run(capacity, actions).Some?
    ensures var init := actions[..|actions| - 1];
      Run(capacity, init).Some? && Step(Run(capacity, init).value, actions[|actions| - 1]) == Run(capacity, actions)
  {
    hide Step;
    var init, a := actions[..|actions| - 1], actions[|actions| - 1];
    assert actions == init + [a];
    RunMore(Init(capacity), init, a);
  }

  // ----- the flag and the pipe -----

  /** The calls that have exchanged the flag since it was last cleared. */
  function Pending(actions: seq<Action>): set<nat> {
    if actions == [] then {}
    else
      var a, before := actions[|actions| - 1], Pending(actions[..|actions| - 1]);
      if a.Clear? then {} else if a.Exchange? then before + {a.w} else before
  }

  /** How many bytes a pipe for so many holds after the writes and reads. */
  function Held(actions: seq<Action>, capacity: nat): int {
    if actions == [] then 0
    else
      var a, before := actions[|actions| - 1], Held(actions[..|actions| - 1], capacity);
      if a.Write? && before < capacity then before + 1 else if a.Read? then before - a.n else before
  }

  /** How low the number of the first pipe created was, if one was. */
  function Created(actions: seq<Action>): Option<bool> {
    if actions == [] then None
    else
      var a, before := actions[|actions| - 1], Created(actions[..|actions| - 1]);
      if before == None && a.Enter? && a.created then Some(a.low) else before
  }

  /** What the last wait has learnt of its result: from select, or without one. */
  function Learnt(actions: seq<Action>): Option<bool> {
    if actions == [] then None
    else
      var a, before := actions[|actions| - 1], Learnt(actions[..|actions| - 1]);
      if a.Enter? then None
      else if a.SkipSelect? then Some(a.result)
      else if a.SelectReturns? then Some(a.how == ByPipe || a.how == BySocket)
      else before
  }

  ghost predicate Told(s: State, actions: seq<Action>) {
    && (s.flag <==> Pending(actions) != {})
    && (forall i :: 0 <= i < |s.wakers| ==> (Unanswered(s.wakers[i]) <==> i in Pending(actions)))
    && (forall i :: i in Pending(actions) ==> i < |s.wakers|)
    && s.bytes == Held(actions, s.capacity)
    && (s.ready <==> Created(actions).Some?) && (s.ready ==> s.watched == Created(actions).value)
  }

  ghost predicate ResultTold(s: State, actions: seq<Action>) {
    match s.waiter
    case Outside => s.waits > 0 ==> s.returned == Some(Learnt(actions) != Some(false))
    case Selected(left) => Learnt(actions) == Some(Result(left)) && left != FlagUp
    case Clearing(left) => Learnt(actions) == if left == FlagUp then None else Some(Result(left))
    case Emptying(left) => Learnt(actions) == if left == FlagUp then None else Some(Result(left))
    case _ => Learnt(actions) == None
  }

  lemma ToldStep(s: State, actions: seq<Action>, a: Action)
    requires Told(s, actions) && CalledOk(s) && Step(s, a).Some?
    ensures Told(Step(s, a).value, actions + [a])
  {
    assert (actions + [a])[..|actions|] == actions;
    hide Pending, Held, Created;
    PendingMore(actions, a);
    PipeMore(actions, a, s.capacity);
    if OfWaker(a) { WakerTold(s, actions, a); } else { WaiterTold(s, actions, a); }
  }

  lemma PendingMore(actions: seq<Action>, a: Action)
    ensures Pending(actions + [a])
         == if a.Clear? then {} else if a.Exchange? then Pending(actions) + {a.w} else Pending(actions)
  {
    assert (actions + [a])[..|actions|] == actions;
  }

  lemma PipeMore(actions: seq<Action>, a: Action, capacity: nat)
    ensures var before := Held(actions, capacity);
      Held(actions + [a], capacity)
      == if a.Write? && before < capacity then before + 1 else if a.Read? then before - a.n else before
    ensures var before := Created(actions);
      Created(actions + [a]) == if before == None && a.Enter? && a.created then Some(a.low) else before
    ensures Learnt(actions + [a])
         == if a.Enter? then None
            else if a.SkipSelect? then Some(a.result)
            else if a.SelectReturns? then Some(a.how == ByPipe || a.how == BySocket)
            else Learnt(actions)
  {
    assert (actions + [a])[..|actions|] == actions;
  }

  lemma WakerTold(s: State, actions: seq<Action>, a: Action)
    requires Told(s, actions) && CalledOk(s) && Step(s, a).Some? && OfWaker(a)
    ensures Told(Step(s, a).value, actions + [a])
  {
    hide Pending, Held, Created, Learnt;
    PendingMore(actions, a);
    PipeMore(actions, a, s.capacity);
    if a.Exchange? { assert a.w in Pending(actions + [a]); }
  }

  lemma WaiterTold(s: State, actions: seq<Action>, a: Action)
    requires Told(s, actions) && Step(s, a).Some? && !OfWaker(a)
    ensures Told(Step(s, a).value, actions + [a])
  {
    hide Pending, Held, Created, Learnt;
    PendingMore(actions, a);
    PipeMore(actions, a, s.capacity);
  }

  lemma ResultStep(s: State, actions: seq<Action>, a: Action)
    requires ResultTold(s, actions) && Step(s, a).Some?
    ensures ResultTold(Step(s, a).value, actions + [a])
  {
    hide Learnt, WakerStep, WaiterStep;
    PipeMore(actions, a, s.capacity);
    if OfWaker(a) { WakerAlone(s, a); } else { WaiterResult(s, actions, a, Learnt(actions + [a])); }
  }

  lemma WakerAlone(s: State, a: Action)
    requires WakerStep(s, a).Some?
    ensures var s' := WakerStep(s, a).value;
      s'.waiter == s.waiter && s'.waits == s.waits && s'.returned == s.returned
  {
  }

  lemma WaiterResult(s: State, actions: seq<Action>, a: Action, learnt: Option<bool>)
    requires ResultTold(s, actions) && WaiterStep(s, a).Some?
    requires learnt == if a.Enter? then None
                       else if a.SkipSelect? then Some(a.result)
                       else if a.SelectReturns? then Some(a.how == ByPipe || a.how == BySocket)
                       else Learnt(actions)
    ensures var s' := WaiterStep(s, a).value;
      match s'.waiter
      case Outside => s'.waits > 0 ==> s'.returned == Some(learnt != Some(false))
      case Selected(left) => learnt == Some(Result(left)) && left != FlagUp
      case Clearing(left) => learnt == if left == FlagUp then None else Some(Result(left))
      case Emptying(left) => learnt == if left == FlagUp then None else Some(Result(left))
      case _ => learnt == None
  {
    hide Learnt, Answered, Unanswered;
  }

  lemma {:induction false} RunTold(capacity: nat, actions: seq<Action>)
    requires capacity > 0 && Run(capacity, actions).Some?
    ensures var s := Run(capacity, actions).value;
      Told(s, actions) && ResultTold(s, actions) && s.capacity == capacity && |s.wakers| == Wakes(actions)
    decreases |actions|
  {
    hide Step, Told, ResultTold, Inv;
    if actions == [] {
      StartTold(capacity);
    } else {
      Earlier(capacity, actions);
      var init, a := actions[..|actions| - 1], actions[|actions| - 1];
      assert actions == init + [a];
      RunTold(capacity, init);
      ReachableInv(capacity, init);
      InvCalled(Run(capacity, init).value);
      ToldStep(Run(capacity, init).value, init, a);
      ResultStep(Run(capacity, init).value, init, a);
      WakesStep(Run(capacity, init).value, a);
    }
  }

  lemma InvCalled(s: State)
    requires Inv(s)
    ensures CalledOk(s)
  {
  }

  lemma StartTold(capacity: nat)
    ensures var s := Init(capacity);
      Run(capacity, []) == Some(s) && Told(s, []) && ResultTold(s, []) && s.capacity == capacity && s.wakers == []
  {
  }

  function Wakes(actions: seq<Action>): nat {
    if actions == [] then 0 else Wakes(actions[..|actions| - 1]) + if actions[|actions| - 1].Wake? then 1 else 0
  }

  lemma WakesStep(s: State, a: Action)
    requires Step(s, a).Some?
    ensures var s' := Step(s, a).value;
      s'.capacity == s.capacity && |s'.wakers| == |s.wakers| + if a.Wake? then 1 else 0
  {
    hide Unanswered;
  }

  /** In every interleaving the flag is up exactly if some call has exchanged it since it
      was last cleared, and those calls are the unanswered ones; the pipe is there exactly
      if creating it succeeded once, is watched if its first number was low, and holds what
      was written less what was read. */
  lemma StateIsHistory(capacity: nat, actions: seq<Action>)
    requires capacity > 0 && Run(capacity, actions).Some?
    ensures var s := Run(capacity, actions).value;
      && |s.wakers| == Wakes(actions)
      && (s.flag <==> Pending(actions) != {})
      && (forall i :: 0 <= i < |s.wakers| ==> (Unanswered(s.wakers[i]) <==> i in Pending(actions)))
      && s.bytes == Held(actions, capacity)
      && (s.ready <==> Created(actions).Some?) && (s.ready ==> s.watched == Created(actions).value)
  {
    hide Pending, Held, Created, Wakes, Learnt;
    RunTold(capacity, actions);
  }

  /** Every wait that is over returned false exactly if it took that way round the select,
      or the select reported nothing ready or failed. */
  lemma EveryWaitsResult(capacity: nat, actions: seq<Action>)
    requires capacity > 0 && Run(capacity, actions).Some?
    requires var s := Run(capacity, actions).value; s.waiter.Outside? && s.waits > 0
    ensures Run(capacity, actions).value.returned == Some(Learnt(actions) != Some(false))
  {
    hide Pending, Held, Created, Wakes, Learnt;
    RunTold(capacity, actions);
  }

  /** Of the calls that exchange the flag between two clearings the first one writes to the
      pipe, and no other. */
  lemma OneWriterPerClearing(capacity: nat, actions: seq<Action>, w: nat)
    requires capacity > 0 && Run(capacity, actions + [Exchange(w)]).Some?
    ensures var s := Run(capacity, actions + [Exchange(w)]).value;
      w < |s.wakers| && s.wakers[w].stage == if Pending(actions) == {} then Won else Silent
  {
    hide Pending, Held, Created, Wakes, Learnt;
    var more := actions + [Exchange(w)];
    Earlier(capacity, more);
    assert more[..|more| - 1] == actions;
    RunTold(capacity, actions);
  }
}
