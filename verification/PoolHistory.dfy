/** The fs pool told by the steps of its threads: which job is submitted, when it is started,
    what it came to, and in which order an owner's promises are settled.
 */
module PoolHistory {
  import opened Common
  import opened FsPool

  lemma {:induction false} RunMore(s: State, init: seq<Action>, a: Action)
    ensures RunFrom(s, init + [a]) == if RunFrom(s, init).Some? then Step(RunFrom(s, init).value, a) else None
    decreases |init|
  {
    hide Step;
    if init == [] {
      assert [] + [a] == [a] && [a][1..] == [];
      if Step(s, a).Some? { assert RunFrom(Step(s, a).value, []) == Step(s, a); }
    } else {
      assert (init + [a])[0] == init[0] && (init + [a])[1..] == init[1..] + [a];
      if Step(s, init[0]).Some? { RunMore(Step(s, init[0]).value, init[1..], a); }
    }
  }

  lemma Earlier(actions: seq<Action>)
    requires actions != [] && Run(actions).Some?
    ensures var init := actions[..|actions| - 1];
      Run(init).Some? && Step(Run(init).value, actions[|actions| - 1]) == Run(actions)
  {
    hide Step;
    var init, a := actions[..|actions| - 1], actions[|actions| - 1];
    assert actions == init + [a];
    RunMore(Init(), init, a);
  }

  // ----- jobs are started in the order they were submitted -----

  /** How many calls o has made. */
  function Calls(actions: seq<Action>, o: Owner): nat {
    if actions == [] then 0
    else Calls(actions[..|actions| - 1], o) + if actions[|actions| - 1] == Begin(o) then 1 else 0
  }

  /** Whose call, and its number. */
  type Call = (Owner, int)

  function CallOf(j: Job): Call { (j.owner, j.id) }

  function CallsOf(jobs: seq<Job>): (c: seq<Call>)
    ensures |c| == |jobs|
  {
    seq(|jobs|, i requires 0 <= i < |jobs| => CallOf(jobs[i]))
  }

  /** The calls handed to the pool: each time, its owner's last. */
  function Submitted(actions: seq<Action>): seq<Call> {
    if actions == [] then []
    else
      var init, a := actions[..|actions| - 1], actions[|actions| - 1];
      Submitted(init) + if a.Submit? then [(a.o, Calls(init, a.o))] else []
  }

  function JobOf(r: Option<State>, w: nat): seq<Call> {
    if r.Some? && w < |r.value.workers| && r.value.workers[w].Running? then [CallOf(r.value.workers[w].job)] else []
  }

  /** The calls pool threads were running right after they had looked for a job. */
  function Started(actions: seq<Action>): seq<Call> {
    if actions == [] then []
    else
      var a := actions[|actions| - 1];
      Started(actions[..|actions| - 1]) + if a.Pop? then JobOf(Run(actions), a.w) else []
  }

  ghost predicate Numbered(s: State, actions: seq<Action>) {
    forall o: Owner ::
      && LocalOf(s, o).next == Calls(actions, o) + 1
      && (LocalOf(s, o).place.Submitting? ==> LocalOf(s, o).place.id == Calls(actions, o))
  }

  lemma NumberedStep(s: State, actions: seq<Action>, a: Action)
    requires Numbered(s, actions) && Step(s, a).Some?
    ensures Numbered(Step(s, a).value, actions + [a])
  {
    assert (actions + [a])[..|actions|] == actions;
    forall o: Owner
      ensures var s' := Step(s, a).value;
        && LocalOf(s', o).next == Calls(actions + [a], o) + 1
        && (LocalOf(s', o).place.Submitting? ==> LocalOf(s', o).place.id == Calls(actions + [a], o))
    {
      NumberedFor(s, actions, a, o);
    }
  }

  lemma NumberedFor(s: State, actions: seq<Action>, a: Action, o: Owner)
    requires Numbered(s, actions) && Step(s, a).Some?
    ensures var s' := Step(s, a).value;
      && LocalOf(s', o).next == Calls(actions, o) + (if a == Begin(o) then 2 else 1)
      && (LocalOf(s', o).place.Submitting? ==>
            LocalOf(s', o).place.id == Calls(actions, o) + if a == Begin(o) then 1 else 0)
  {
    hide PoolStep;
    if OfPool(a) { PoolKeepsLocals(s, a); }
  }

  lemma PoolKeepsLocals(s: State, a: Action)
    requires PoolStep(s, a).Some?
    ensures PoolStep(s, a).value.locals == s.locals
  {
  }

  lemma CallsMore(jobs: seq<Job>, j: Job)
    ensures CallsOf(jobs + [j]) == CallsOf(jobs) + [CallOf(j)]
    ensures jobs != [] ==> CallsOf(jobs) == [CallOf(jobs[0])] + CallsOf(jobs[1..])
  {
  }

  lemma QueueStep(s: State, actions: seq<Action>, a: Action)
    requires Numbered(s, actions) && Step(s, a).Some?
    ensures var s' := Step(s, a).value;
      CallsOf(s.queue) + (if a.Submit? then [(a.o, Calls(actions, a.o))] else [])
      == (if a.Pop? then JobOf(Step(s, a), a.w) else []) + CallsOf(s'.queue)
  {
    hide CallsOf;
    assert CallsOf(s.queue) + [] == CallsOf(s.queue) == [] + CallsOf(s.queue);
    if a.Submit? {
      var j := Job(a.o, LocalOf(s, a.o).place.id);
      CallsMore(s.queue, j);
      assert [] + CallsOf(s.queue + [j]) == CallsOf(s.queue + [j]);
    }
    if a.Pop? { CallsMore(s.queue, s.queue[0]); }
  }

  lemma {:induction false} NumberedRun(actions: seq<Action>)
    requires Run(actions).Some?
    ensures Numbered(Run(actions).value, actions)
    decreases |actions|
  {
    hide Step;
    if actions == [] {
      assert Run([]) == Some(Init());
    } else {
      Earlier(actions);
      var init, a := actions[..|actions| - 1], actions[|actions| - 1];
      assert actions == init + [a];
      NumberedRun(init);
      NumberedStep(Run(init).value, init, a);
    }
  }

  /** In every interleaving the jobs the pool has started and those it has queued are, in
      order, the calls handed to it, numbered from 1 for each owner. */
  lemma {:induction false} FirstComeFirstServed(actions: seq<Action>)
    requires Run(actions).Some?
    ensures Submitted(actions) == Started(actions) + CallsOf(Run(actions).value.queue)
    decreases |actions|
  {
    hide Step, CallsOf, Run;
    if actions == [] {
      NothingQueued();
    } else {
      Earlier(actions);
      var init, a := actions[..|actions| - 1], actions[|actions| - 1];
      var s, s' := Run(init).value, Run(actions).value;
      FirstComeFirstServed(init);
      NumberedRun(init);
      QueueStep(s, init, a);
      var more := if a.Submit? then [(a.o, Calls(init, a.o))] else [];
      var job := if a.Pop? then JobOf(Run(actions), a.w) else [];
      assert Started(init) + CallsOf(s.queue) + more == Started(init) + (CallsOf(s.queue) + more);
      assert Started(init) + (job + CallsOf(s'.queue)) == Started(init) + job + CallsOf(s'.queue);
    }
  }

  lemma NothingQueued()
    ensures Run([]).Some? && CallsOf(Run([]).value.queue) == []
  {
  }

  // ----- results -----

  function WorkDone(r: Option<State>, a: Action): seq<Record> {
    if r.Some? && a.Work? && a.w < |r.value.workers| && r.value.workers[a.w].Running?
    then [Record(r.value.workers[a.w].job, a.result)] else []
  }

  /** What the jobs came to, by the steps that ran them. */
  function Worked(actions: seq<Action>): seq<Record> {
    if actions == [] then []
    else
      var init := actions[..|actions| - 1];
      Worked(init) + WorkDone(Run(init), actions[|actions| - 1])
  }

  lemma WorkStep(s: State, a: Action)
    requires Step(s, a).Some?
    ensures Step(s, a).value.ran == s.ran + WorkDone(Some(s), a)
  {
    assert s.ran + [] == s.ran;
  }

  lemma {:induction false} RanIsWorked(actions: seq<Action>)
    requires Run(actions).Some?
    ensures Run(actions).value.ran == Worked(actions)
    decreases |actions|
  {
    hide Step, WorkDone;
    if actions != [] {
      Earlier(actions);
      RanIsWorked(actions[..|actions| - 1]);
      WorkStep(Run(actions[..|actions| - 1]).value, actions[|actions| - 1]);
    }
  }

  /** In every interleaving a promise is settled with what its own job came to when a pool
      thread ran it. */
  lemma SettledWithWhatWasWorked(actions: seq<Action>, rec: Record)
    requires Run(actions).Some? && rec in Run(actions).value.settled
    ensures rec in Worked(actions)
  {
    RanIsWorked(actions);
    SettledOnceWithItsResult(actions, rec.job);
  }

  // ----- order -----

  function Of(o: Owner, recs: seq<Record>): seq<Record> {
    if recs == [] then []
    else Of(o, recs[..|recs| - 1]) + if recs[|recs| - 1].job.owner == o then [recs[|recs| - 1]] else []
  }

  function HandedIn(r: Option<State>, a: Action, o: Owner): seq<Record> {
    if r.Some? && a.Finish? && a.w < |r.value.workers| && r.value.workers[a.w].Ran?
       && r.value.workers[a.w].rec.job.owner == o
    then [r.value.workers[a.w].rec] else []
  }

  /** o's finished jobs in the order pool threads handed them in. */
  function Finished(actions: seq<Action>, o: Owner): seq<Record> {
    if actions == [] then []
    else
      var init := actions[..|actions| - 1];
      Finished(init, o) + HandedIn(Run(init), actions[|actions| - 1], o)
  }

  lemma OfMore(o: Owner, recs: seq<Record>, rec: Record)
    ensures Of(o, recs + [rec]) == Of(o, recs) + if rec.job.owner == o then [rec] else []
  {
    assert (recs + [rec])[..|recs|] == recs;
  }

  lemma OrderStep(s: State, a: Action, o: Owner)
    requires Inv(s) && Step(s, a).Some?
    ensures var s' := Step(s, a).value;
      Of(o, s'.settled) + TakenBy(s', o) + DoneOf(s', o)
      == Of(o, s.settled) + TakenBy(s, o) + DoneOf(s, o) + HandedIn(Some(s), a, o)
  {
    hide Of, Inv;
    var all := Of(o, s.settled) + TakenBy(s, o) + DoneOf(s, o);
    assert all + [] == all;
    InvMakesReady(s, a);
    match a
    case Settle(p) => SettleOrder(s, p, o);
    case Take(p) => TakeOrder(s, p, o);
    case Finish(w) => FinishOrder(s, w, o);
    case Begin(_) => TakesNothing(s, a, o);
    case Submit(_) => TakesNothing(s, a, o);
    case EndTick(_) => TakesNothing(s, a, o);
    case _ =>
  }

  lemma TakesNothing(s: State, a: Action, o: Owner)
    requires (a.Begin? || a.Submit? || a.EndTick?) && Step(s, a).Some?
    ensures var s' := Step(s, a).value;
      TakenBy(s', o) == TakenBy(s, o) && DoneOf(s', o) == DoneOf(s, o) && s'.settled == s.settled
  {
  }

  lemma SettleOrder(s: State, p: Owner, o: Owner)
    requires Step(s, Settle(p)).Some? && SettleReady(s, Settle(p))
    ensures var s' := Step(s, Settle(p)).value;
      Of(o, s'.settled) + TakenBy(s', o) + DoneOf(s', o) == Of(o, s.settled) + TakenBy(s, o) + DoneOf(s, o)
  {
    hide Of;
    var taken := TakenBy(s, p);
    OfMore(o, s.settled, taken[0]);
    if p == o {
      assert taken == [taken[0]] + taken[1..];
      assert Of(o, s.settled) + [taken[0]] + taken[1..] == Of(o, s.settled) + taken;
    } else {
      assert Of(o, s.settled) + [] == Of(o, s.settled);
    }
  }

  lemma TakeOrder(s: State, p: Owner, o: Owner)
    requires Step(s, Take(p)).Some?
    ensures var s' := Step(s, Take(p)).value;
      Of(o, s'.settled) + TakenBy(s', o) + DoneOf(s', o) == Of(o, s.settled) + TakenBy(s, o) + DoneOf(s, o)
  {
    hide Of;
    if p == o {
      var d := Of(o, s.settled);
      assert d + DoneOf(s, o) + [] == d + [] + DoneOf(s, o);
    }
  }

  lemma FinishOrder(s: State, w: nat, o: Owner)
    requires Step(s, Finish(w)).Some?
    ensures var s' := Step(s, Finish(w)).value;
      Of(o, s'.settled) + TakenBy(s', o) + DoneOf(s', o)
      == Of(o, s.settled) + TakenBy(s, o) + DoneOf(s, o) + HandedIn(Some(s), Finish(w), o)
  {
    hide Of;
    var head, rec := Of(o, s.settled) + TakenBy(s, o), s.workers[w].rec;
    assert head + (DoneOf(s, o) + [rec]) == head + DoneOf(s, o) + [rec];
    assert head + DoneOf(s, o) + [] == head + DoneOf(s, o);
  }

  /** In every interleaving an owner's promises are settled in the order its jobs were
      finished in; the rest of them, in order, is in its tick and on its done list. */
  lemma {:induction false} SettledInOrder(actions: seq<Action>, o: Owner)
    requires Run(actions).Some?
    ensures var s := Run(actions).value;
      Of(o, s.settled) + TakenBy(s, o) + DoneOf(s, o) == Finished(actions, o)
    decreases |actions|
  {
    hide Step, Of, HandedIn, Inv;
    if actions == [] {
      NothingSettled(o);
    } else {
      Earlier(actions);
      var init := actions[..|actions| - 1];
      SettledInOrder(init, o);
      ReachableInv(init);
      OrderStep(Run(init).value, actions[|actions| - 1], o);
    }
  }

  lemma NothingSettled(o: Owner)
    ensures Run([]).Some? && Of(o, Run([]).value.settled) + TakenBy(Run([]).value, o) + DoneOf(Run([]).value, o) == []
  {
  }
}
