/** The asynchronous fs calls: JavaScript threads submit jobs to one pool, pool
    threads run them, and each JavaScript thread's tick settles the promises of its
    own jobs. Every section under a lock, every run of a job and every settling is
    one step.
 */
module FsPool {
  import opened Common

  type Owner = nat

  type Id = n: int | 1 <= n witness 1

  type Result = int

  datatype Job = Job(owner: Owner, id: Id)

  /** A job's run and what came of it. */
  datatype Record = Record(job: Job, result: Result)

  /** A pool thread between its steps. */
  datatype Worker = Waiting | Running(job: Job) | Ran(rec: Record)

  /** A JavaScript thread: outside, past creating the promise of `id`, or in a tick
      with the finished operations it has taken and not looked at yet. */
  datatype Place = Outside | Submitting(id: Id) | Ticking(taken: seq<Record>)

  datatype Local = Local(next: Id, promises: set<Id>, place: Place)

  /** `ran` and `settled` record every run and every settling so far. */
  datatype State = State(
    queue: seq<Job>, workers: seq<Worker>, done: map<Owner, seq<Record>>,
    locals: map<Owner, Local>, ran: seq<Record>, settled: seq<Record>)

  function LocalOf(s: State, o: Owner): Local { if o in s.locals then s.locals[o] else Local(1, {}, Outside) }

  function DoneOf(s: State, o: Owner): seq<Record> { if o in s.done then s.done[o] else [] }

  function TakenBy(s: State, o: Owner): seq<Record> {
    if LocalOf(s, o).place.Ticking? then LocalOf(s, o).place.taken else []
  }

  datatype Action =
    | Begin(o: Owner)                // next id, new promise
    | Submit(o: Owner)               // push under mu_
    | Start(n: nat)                  // the pool's threads, once
    | Pop(w: nat)
    | Work(w: nat, result: Result)   // a job that throws has an EIO result
    | Finish(w: nat)                 // push under doneMu_
    | Take(o: Owner)                 // js_fs_async_tick with promises outstanding
    | Settle(o: Owner)
    | EndTick(o: Owner)

  function WithLocal(s: State, o: Owner, l: Local): State { s.(locals := s.locals[o := l]) }

  function OwnerStep(s: State, a: Action): Option<State> {
    match a
    case Begin(o) =>
      var l := LocalOf(s, o);
      if l.place.Outside?
      then Some(WithLocal(s, o, Local(l.next + 1, l.promises + {l.next}, Submitting(l.next))))
      else None
    case Submit(o) =>
      var l := LocalOf(s, o);
      if l.place.Submitting?
      then Some(WithLocal(s, o, l.(place := Outside)).(queue := s.queue + [Job(o, l.place.id)]))
      else None
    case Take(o) =>
      var l := LocalOf(s, o);
      if l.place.Outside? && l.promises != {}
      then Some(WithLocal(s, o, l.(place := Ticking(DoneOf(s, o)))).(done := s.done[o := []]))
      else None
    case Settle(o) =>
      var l := LocalOf(s, o);
      if l.place.Ticking? && l.place.taken != [] then
        var rec := l.place.taken[0];
        var rest := l.(place := Ticking(l.place.taken[1..]));
        if rec.job.id !in l.promises then Some(WithLocal(s, o, rest))
        else Some(WithLocal(s, o, rest.(promises := l.promises - {rec.job.id})).(settled := s.settled + [rec]))
      else None
    case EndTick(o) =>
      var l := LocalOf(s, o);
      if l.place == Ticking([]) then Some(WithLocal(s, o, l.(place := Outside))) else None
    case _ => None
  }

  function PoolStep(s: State, a: Action): Option<State> {
    match a
    case Start(n) => if s.workers == [] then Some(s.(workers := seq(n, _ => Waiting))) else None
    case Pop(w) =>
      if w < |s.workers| && s.workers[w].Waiting? && s.queue != []
      then Some(s.(queue := s.queue[1..], workers := s.workers[w := Running(s.queue[0])]))
      else None
    case Work(w, result) =>
      if w < |s.workers| && s.workers[w].Running? then
        var rec := Record(s.workers[w].job, result);
        Some(s.(workers := s.workers[w := Ran(rec)], ran := s.ran + [rec]))
      else None
    case Finish(w) =>
      if w < |s.workers| && s.workers[w].Ran? then
        var rec := s.workers[w].rec;
        var o := rec.job.owner;
        Some(s.(workers := s.workers[w := Waiting], done := s.done[o := DoneOf(s, o) + [rec]]))
      else None
    case _ => None
  }

  predicate OfPool(a: Action) { a.Start? || a.Pop? || a.Work? || a.Finish? }

  function Step(s: State, a: Action): Option<State> {
    if OfPool(a) then PoolStep(s, a) else OwnerStep(s, a)
  }

  function Init(): State { State([], [], map[], map[], [], []) }

  // ----- counting -----

  function Jobs(recs: seq<Record>): (r: seq<Job>)
    ensures |r| == |recs|
  {
    seq(|recs|, i requires 0 <= i < |recs| => recs[i].job)
  }

  predicate Issued(s: State, j: Job) { j.id < LocalOf(s, j.owner).next }

  function BeingSubmitted(s: State, j: Job): nat {
    if LocalOf(s, j.owner).place == Submitting(j.id) then 1 else 0
  }

  /** How many times a job is on its way to being run, or has been run. */
  function Times(s: State, j: Job): nat {
    BeingSubmitted(s, j) + multiset(s.queue)[j] + multiset(s.workers)[Running(j)] + multiset(Jobs(s.ran))[j]
  }

  /** In how many places a finished run is. */
  function Copies(s: State, rec: Record): nat {
    multiset(s.workers)[Ran(rec)] + multiset(DoneOf(s, rec.job.owner))[rec]
    + multiset(TakenBy(s, rec.job.owner))[rec] + multiset(s.settled)[rec]
  }

  ghost predicate OncePerJob(s: State) {
    forall j: Job :: Times(s, j) == if Issued(s, j) then 1 else 0
  }

  ghost predicate RecordsKept(s: State) {
    forall rec: Record :: Copies(s, rec) == multiset(s.ran)[rec]
  }

  ghost predicate OwnRecords(s: State) {
    forall o: Owner, rec :: rec in DoneOf(s, o) + TakenBy(s, o) ==> rec.job.owner == o
  }

  ghost predicate PromisesMatch(s: State) {
    forall j: Job :: j.id in LocalOf(s, j.owner).promises <==> Issued(s, j) && j !in Jobs(s.settled)
  }

  ghost predicate Inv(s: State) { OncePerJob(s) && RecordsKept(s) && OwnRecords(s) && PromisesMatch(s) }

  lemma JobsMore(recs: seq<Record>, rec: Record)
    ensures Jobs(recs + [rec]) == Jobs(recs) + [rec.job]
  {
  }

  lemma Pushed<T>(s: seq<T>, x: T, y: T)
    ensures multiset(s + [x])[y] == multiset(s)[y] + if y == x then 1 else 0
  {
  }

  lemma Popped<T>(s: seq<T>, y: T)
    requires s != []
    ensures multiset(s)[y] == multiset(s[1..])[y] + if y == s[0] then 1 else 0
  {
    assert s == [s[0]] + s[1..];
  }

  lemma Replaced<T>(s: seq<T>, i: nat, x: T, y: T)
    requires i < |s|
    ensures multiset(s[i := x])[y] + (if y == s[i] then 1 else 0) == multiset(s)[y] + if y == x then 1 else 0
  {
    assert s[i] in multiset(s);
  }

  lemma JobsHas(recs: seq<Record>, rec: Record)
    requires rec in recs
    ensures rec.job in Jobs(recs)
  {
    var i :| 0 <= i < |recs| && recs[i] == rec;
    assert Jobs(recs)[i] == rec.job;
  }

  /** A job was run at most once, so two of its recorded runs are the same one. */
  lemma {:induction false} OneRun(recs: seq<Record>, a: Record, b: Record)
    requires a in recs && b in recs && a.job == b.job && multiset(Jobs(recs))[a.job] <= 1
    ensures a == b && multiset(recs)[a] == 1
  {
    var i :| 0 <= i < |recs| && recs[i] == a;
    var k :| 0 <= k < |recs| && recs[k] == b;
    TwoPlaces(Jobs(recs), i, k);
    var init := recs[..i] + recs[i + 1..];
    assert recs == recs[..i] + [a] + recs[i + 1..];
    if a in init {
      var m :| 0 <= m < |init| && init[m] == a;
      TwoPlaces(Jobs(recs), i, if m < i then m else m + 1);
    }
    assert multiset(recs) == multiset(init) + multiset{a};
  }

  lemma TwoPlaces<T>(s: seq<T>, i: nat, k: nat)
    requires i < |s| && k < |s| && s[i] == s[k] && multiset(s)[s[i]] <= 1
    ensures i == k
  {
    if i < k { Twice(s, i, k); }
    if k < i { Twice(s, k, i); }
  }

  lemma Twice<T>(s: seq<T>, i: nat, k: nat)
    requires i < k < |s| && s[i] == s[k]
    ensures multiset(s)[s[i]] >= 2
  {
    assert s == s[..k] + [s[k]] + s[k + 1..];
    assert s[..k][i] == s[i];
  }

  /** A run that is anywhere was made, of a job that was issued. */
  lemma SettledWereIssued(s: State, j: Job)
    requires Inv(s) && (j in Jobs(s.settled) || j in Jobs(s.ran))
    ensures Issued(s, j) && multiset(Jobs(s.ran))[j] == 1
  {
    if j in Jobs(s.settled) {
      var i :| 0 <= i < |s.settled| && Jobs(s.settled)[i] == j;
      var rec := s.settled[i];
      assert rec in multiset(s.settled);
      assert Copies(s, rec) == multiset(s.ran)[rec];
      JobsHas(s.ran, rec);
    }
    assert j in multiset(Jobs(s.ran));
    assert Times(s, j) == if Issued(s, j) then 1 else 0;
  }

  /** What a tick has in hand is not settled yet, so its promise is there. */
  lemma TakenIsUnsettled(s: State, rec: Record)
    requires Inv(s) && rec in TakenBy(s, rec.job.owner)
    ensures rec.job !in Jobs(s.settled) && rec.job.id in LocalOf(s, rec.job.owner).promises
  {
    assert rec in multiset(TakenBy(s, rec.job.owner));
    assert Copies(s, rec) == multiset(s.ran)[rec];
    JobsHas(s.ran, rec);
    SettledWereIssued(s, rec.job);
    if rec.job in Jobs(s.settled) {
      var i :| 0 <= i < |s.settled| && Jobs(s.settled)[i] == rec.job;
      var other := s.settled[i];
      assert other in multiset(s.settled);
      assert Copies(s, other) == multiset(s.ran)[other];
      OneRun(s.ran, rec, other);
    }
  }

  function One(b: bool): nat { if b then 1 else 0 }

  /** What a tick is about to settle is its own and has its promise. */
  ghost predicate SettleReady(s: State, a: Action) {
    a.Settle? && TakenBy(s, a.o) != [] ==>
      TakenBy(s, a.o)[0].job.owner == a.o && TakenBy(s, a.o)[0].job.id in LocalOf(s, a.o).promises
  }

  lemma OwnerTimes(s: State, a: Action, j: Job)
    requires OwnerStep(s, a).Some?
    ensures var s' := OwnerStep(s, a).value;
      Times(s', j) - Times(s, j) == One(Issued(s', j)) - One(Issued(s, j))
  {
    hide Jobs;
    match a
    case Submit(o) => SubmitTimes(s, o, j);
    case Begin(_) =>
    case Take(_) =>
    case Settle(_) =>
    case EndTick(_) =>
    case _ =>
  }

  lemma SubmitTimes(s: State, o: Owner, j: Job)
    requires OwnerStep(s, Submit(o)).Some?
    ensures var s' := OwnerStep(s, Submit(o)).value;
      Times(s', j) == Times(s, j) && Issued(s', j) == Issued(s, j)
  {
    hide Jobs;
    Pushed(s.queue, Job(o, LocalOf(s, o).place.id), j);
  }

  lemma PoolTimes(s: State, a: Action, j: Job)
    requires PoolStep(s, a).Some?
    ensures var s' := PoolStep(s, a).value;
      Times(s', j) == Times(s, j) && Issued(s', j) == Issued(s, j)
  {
    match a
    case Start(n) => AllWaiting(n);
    case Pop(w) => PopTimes(s, w, j);
    case Work(w, result) => WorkTimes(s, w, result, j);
    case Finish(w) => Replaced(s.workers, w, Waiting, Running(j));
  }

  lemma PopTimes(s: State, w: nat, j: Job)
    requires w < |s.workers| && s.workers[w].Waiting? && s.queue != []
    ensures Times(s.(queue := s.queue[1..], workers := s.workers[w := Running(s.queue[0])]), j) == Times(s, j)
  {
    Popped(s.queue, j);
    Replaced(s.workers, w, Running(s.queue[0]), Running(j));
  }

  lemma WorkTimes(s: State, w: nat, result: Result, j: Job)
    requires w < |s.workers| && s.workers[w].Running?
    ensures var rec := Record(s.workers[w].job, result);
      Times(s.(workers := s.workers[w := Ran(rec)], ran := s.ran + [rec]), j) == Times(s, j)
  {
    var rec := Record(s.workers[w].job, result);
    JobsMore(s.ran, rec);
    Pushed(Jobs(s.ran), rec.job, j);
    Replaced(s.workers, w, Ran(rec), Running(j));
  }

  lemma OwnerCopies(s: State, a: Action, rec: Record)
    requires OwnerStep(s, a).Some? && SettleReady(s, a)
    ensures var s' := OwnerStep(s, a).value;
      Copies(s', rec) == Copies(s, rec) && s'.ran == s.ran
  {
    match a
    case Take(o) => TakeCopies(s, o, rec);
    case Settle(o) => SettleCopies(s, o, rec);
    case Begin(_) =>
    case Submit(_) =>
    case EndTick(_) =>
    case _ =>
  }

  lemma TakeCopies(s: State, o: Owner, rec: Record)
    requires OwnerStep(s, Take(o)).Some?
    ensures var s' := OwnerStep(s, Take(o)).value;
      Copies(s', rec) == Copies(s, rec) && s'.ran == s.ran
  {
    assert DoneOf(OwnerStep(s, Take(o)).value, o) == [];
  }

  lemma SettleCopies(s: State, o: Owner, rec: Record)
    requires OwnerStep(s, Settle(o)).Some? && SettleReady(s, Settle(o))
    ensures var s' := OwnerStep(s, Settle(o)).value;
      Copies(s', rec) == Copies(s, rec) && s'.ran == s.ran
  {
    var taken := TakenBy(s, o);
    Popped(taken, rec);
    Pushed(s.settled, taken[0], rec);
    assert TakenBy(OwnerStep(s, Settle(o)).value, o) == taken[1..];
  }

  lemma PoolCopies(s: State, a: Action, rec: Record)
    requires PoolStep(s, a).Some?
    ensures var s' := PoolStep(s, a).value;
      Copies(s', rec) - Copies(s, rec) == multiset(s'.ran)[rec] - multiset(s.ran)[rec]
  {
    hide Copies;
    match a
    case Start(n) => StartCopies(s, n, rec);
    case Pop(w) => PopCopies(s, w, rec);
    case Work(w, result) => WorkCopies(s, w, result, rec);
    case Finish(w) => FinishCopies(s, w, rec);
  }

  lemma StartCopies(s: State, n: nat, rec: Record)
    requires s.workers == []
    ensures Copies(s.(workers := seq(n, _ => Waiting)), rec) == Copies(s, rec)
  {
    AllWaiting(n);
  }

  lemma PopCopies(s: State, w: nat, rec: Record)
    requires w < |s.workers| && s.workers[w].Waiting? && s.queue != []
    ensures Copies(s.(queue := s.queue[1..], workers := s.workers[w := Running(s.queue[0])]), rec) == Copies(s, rec)
  {
    Replaced(s.workers, w, Running(s.queue[0]), Ran(rec));
  }

  lemma WorkCopies(s: State, w: nat, result: Result, rec: Record)
    requires w < |s.workers| && s.workers[w].Running?
    ensures var made := Record(s.workers[w].job, result);
            var s' := s.(workers := s.workers[w := Ran(made)], ran := s.ran + [made]);
      Copies(s', rec) - Copies(s, rec) == multiset(s'.ran)[rec] - multiset(s.ran)[rec]
  {
    var made := Record(s.workers[w].job, result);
    Pushed(s.ran, made, rec);
    Replaced(s.workers, w, Ran(made), Ran(rec));
  }

  lemma FinishCopies(s: State, w: nat, rec: Record)
    requires w < |s.workers| && s.workers[w].Ran?
    ensures var made := s.workers[w].rec;
            var o := made.job.owner;
      Copies(s.(workers := s.workers[w := Waiting], done := s.done[o := DoneOf(s, o) + [made]]), rec) == Copies(s, rec)
  {
    var made := s.workers[w].rec;
    Pushed(DoneOf(s, made.job.owner), made, rec);
    Replaced(s.workers, w, Waiting, Ran(rec));
  }

  lemma {:induction false} AllWaiting(n: nat)
    ensures multiset(seq(n, _ => Waiting)) == multiset{}[Waiting := n]
  {
    var ws: seq<Worker> := seq(n, _ => Waiting);
    if n == 0 {
      assert ws == [];
    } else {
      var less: seq<Worker> := seq(n - 1, _ => Waiting);
      AllWaiting(n - 1);
      assert ws == less + [Waiting];
    }
  }

  lemma StepOwnRecords(s: State, a: Action, o: Owner, rec: Record)
    requires Step(s, a).Some? && OwnRecords(s)
    requires rec in DoneOf(Step(s, a).value, o) + TakenBy(Step(s, a).value, o)
    ensures rec.job.owner == o
  {
    if rec !in DoneOf(s, o) + TakenBy(s, o) {
      assert a.Finish? && rec == s.workers[a.w].rec;
    }
  }

  lemma StepPromises(s: State, a: Action, j: Job)
    requires Step(s, a).Some? && SettleReady(s, a)
    requires j.id in LocalOf(s, j.owner).promises <==> Issued(s, j) && j !in Jobs(s.settled)
    requires a == Begin(j.owner) && j.id == LocalOf(s, j.owner).next ==> j !in Jobs(s.settled)
    ensures var s' := Step(s, a).value;
      j.id in LocalOf(s', j.owner).promises <==> Issued(s', j) && j !in Jobs(s'.settled)
  {
    if a.Settle? {
      var taken := TakenBy(s, a.o);
      JobsMore(s.settled, taken[0]);
    }
  }

  lemma InvMakesReady(s: State, a: Action)
    requires Inv(s)
    ensures SettleReady(s, a)
  {
    if a.Settle? && TakenBy(s, a.o) != [] {
      var rec := TakenBy(s, a.o)[0];
      assert rec in DoneOf(s, a.o) + TakenBy(s, a.o);
      TakenIsUnsettled(s, rec);
    }
  }

  lemma StepInv(s: State, a: Action)
    requires Inv(s) && Step(s, a).Some?
    ensures Inv(Step(s, a).value)
  {
    hide OwnerStep, PoolStep, Times, Copies, Issued, SettleReady, LocalOf, DoneOf, TakenBy, Jobs;
    var s' := Step(s, a).value;
    InvMakesReady(s, a);
    forall j: Job
      ensures Times(s', j) == if Issued(s', j) then 1 else 0
    {
      if OfPool(a) { PoolTimes(s, a, j); } else { OwnerTimes(s, a, j); }
    }
    forall rec: Record
      ensures Copies(s', rec) == multiset(s'.ran)[rec]
    {
      if OfPool(a) { PoolCopies(s, a, rec); } else { OwnerCopies(s, a, rec); }
    }
    forall j: Job
      ensures j.id in LocalOf(s', j.owner).promises <==> Issued(s', j) && j !in Jobs(s'.settled)
    {
      if j in Jobs(s.settled) { SettledWereIssued(s, j); }
      NextIsNotIssued(s, j);
      StepPromises(s, a, j);
    }
    forall o: Owner, rec | rec in DoneOf(s', o) + TakenBy(s', o)
      ensures rec.job.owner == o
    {
      StepOwnRecords(s, a, o, rec);
    }
  }

  lemma NextIsNotIssued(s: State, j: Job)
    ensures j.id == LocalOf(s, j.owner).next ==> !Issued(s, j)
  {
  }

  // ----- runs -----

  /** The state an interleaving of JavaScript threads and pool threads leads to, or
      None when an action finds its thread elsewhere. */
  function RunFrom(s: State, actions: seq<Action>): Option<State>
    decreases |actions|
  {
    if actions == [] then Some(s)
    else
      match Step(s, actions[0])
      case None => None
      case Some(s') => RunFrom(s', actions[1..])
  }

  function Run(actions: seq<Action>): Option<State> { RunFrom(Init(), actions) }

  lemma {:induction false} RunKeepsInv(s: State, actions: seq<Action>)
    requires Inv(s) && RunFrom(s, actions).Some?
    ensures Inv(RunFrom(s, actions).value)
    decreases |actions|
  {
    hide Inv, Step;
    if actions != [] {
      StepInv(s, actions[0]);
      RunKeepsInv(Step(s, actions[0]).value, actions[1..]);
    }
  }

  lemma ReachableInv(actions: seq<Action>)
    requires Run(actions).Some?
    ensures Inv(Run(actions).value)
  {
    RunKeepsInv(Init(), actions);
  }

  /** In every interleaving an issued job is in exactly one place, once: being
      submitted, queued, running, or run once with its one finished run held by its
      pool thread, on its owner's done list, in its owner's tick, or settled. */
  lemma EveryJobInOnePlace(actions: seq<Action>, j: Job)
    requires Run(actions).Some? && Issued(Run(actions).value, j)
    ensures var s := Run(actions).value;
      && BeingSubmitted(s, j) + multiset(s.queue)[j] + multiset(s.workers)[Running(j)] + multiset(Jobs(s.ran))[j] == 1
      && (j in Jobs(s.ran) ==> exists rec :: rec in s.ran && rec.job == j && Copies(s, rec) == 1)
      && (forall a, b :: a in s.ran && b in s.ran && a.job == j && b.job == j ==> a == b)
  {
    ReachableInv(actions);
    var s := Run(actions).value;
    assert Times(s, j) == 1;
    if j in Jobs(s.ran) {
      var i :| 0 <= i < |s.ran| && Jobs(s.ran)[i] == j;
      OneRun(s.ran, s.ran[i], s.ran[i]);
      assert Copies(s, s.ran[i]) == multiset(s.ran)[s.ran[i]];
    }
    forall a, b | a in s.ran && b in s.ran && a.job == j && b.job == j
      ensures a == b
    {
      OneRun(s.ran, a, b);
    }
  }

  /** In every interleaving each promise is settled at most once, with the result of
      its own job's run; and it is outstanding exactly while it is issued and not
      settled. */
  lemma SettledOnceWithItsResult(actions: seq<Action>, j: Job)
    requires Run(actions).Some?
    ensures var s := Run(actions).value;
      && multiset(Jobs(s.settled))[j] <= 1
      && (forall rec :: rec in s.settled ==> rec in s.ran)
      && (j.id in LocalOf(s, j.owner).promises <==> Issued(s, j) && j !in Jobs(s.settled))
  {
    ReachableInv(actions);
    var s := Run(actions).value;
    forall rec | rec in s.settled
      ensures rec in s.ran
    {
      assert rec in multiset(s.settled);
      assert Copies(s, rec) == multiset(s.ran)[rec];
    }
    if multiset(Jobs(s.settled))[j] > 1 {
      var i, k := TwoOf(Jobs(s.settled), j);
      SettledInOnePlace(s, i, k);
    }
  }

  lemma TwoOf<T>(s: seq<T>, x: T) returns (i: nat, k: nat)
    requires multiset(s)[x] > 1
    ensures i < k < |s| && s[i] == x == s[k]
  {
    i :| 0 <= i < |s| && s[i] == x;
    assert s == s[..i] + [x] + s[i + 1..];
    if x in s[..i] {
      k :| 0 <= k < i && s[..i][k] == x;
      i, k := k, i;
    } else {
      assert x in multiset(s[i + 1..]);
      k :| 0 <= k < |s| - i - 1 && s[i + 1..][k] == x;
      k := k + i + 1;
    }
  }

  lemma SettledInOnePlace(s: State, i: nat, k: nat)
    requires Inv(s) && i < |s.settled| && k < |s.settled| && s.settled[i].job == s.settled[k].job
    ensures i == k
  {
    var a, b := s.settled[i], s.settled[k];
    assert a in multiset(s.settled) && b in multiset(s.settled);
    assert Copies(s, a) == multiset(s.ran)[a] && Copies(s, b) == multiset(s.ran)[b];
    assert a in s.ran && b in s.ran;
    JobsHas(s.ran, a);
    assert Jobs(s.settled)[i] == a.job;
    SettledWereIssued(s, a.job);
    OneRun(s.ran, a, b);
    TwoPlaces(s.settled, i, k);
  }

  /** Only the owner's tick settles a job, the promise is always still there when it
      does, and no other step settles anything. */
  lemma OnlyTheOwnerSettles(actions: seq<Action>, a: Action)
    requires Run(actions).Some? && Step(Run(actions).value, a).Some?
    ensures var s := Run(actions).value;
            var s' := Step(s, a).value;
      if a.Settle? then s'.settled == s.settled + [LocalOf(s, a.o).place.taken[0]]
                        && s'.settled[|s.settled|].job.owner == a.o
      else s'.settled == s.settled
  {
    ReachableInv(actions);
    var s := Run(actions).value;
    InvMakesReady(s, a);
  }

  /** When nothing is queued, running, finished or in a tick, no promise is left. */
  lemma NoPromiseLeftBehind(actions: seq<Action>, j: Job)
    requires Run(actions).Some?
    requires var s := Run(actions).value;
      && s.queue == [] && (forall w :: 0 <= w < |s.workers| ==> s.workers[w].Waiting?)
      && DoneOf(s, j.owner) == [] && LocalOf(s, j.owner).place.Outside?
    ensures j.id !in LocalOf(Run(actions).value, j.owner).promises
  {
    ReachableInv(actions);
    var s := Run(actions).value;
    assert j.id in LocalOf(s, j.owner).promises <==> Issued(s, j) && j !in Jobs(s.settled);
    if Issued(s, j) {
      assert Times(s, j) == 1 && Running(j) !in multiset(s.workers);
      var i :| 0 <= i < |s.ran| && Jobs(s.ran)[i] == j;
      var rec := s.ran[i];
      assert Copies(s, rec) == multiset(s.ran)[rec] && Ran(rec) !in multiset(s.workers);
      assert rec in multiset(s.ran);
      JobsHas(s.settled, rec);
    }
  }
}
