/** The single-producer single-consumer event ring of FsWatcher: a watcher thread
    runs pushEvent, the JS thread runs drain, and each atomic load, store or
    exchange and each write of a slot's field is one step of the machine below.
 */
module WatchRing {
  import opened Common

  const CAP := 1024

  datatype EventKind = Change | Rename | Error

  datatype Event = Event(kind: EventKind, filename: string)

  /** Where pushEvent(e) is; t and n are its locals. */
  datatype Producer =
    | Away
    | Called(e: Event)
    | HasTail(e: Event, t: nat)
    | Full(e: Event)
    | Claimed(e: Event, t: nat)
    | TypeWritten(e: Event, t: nat)
    | SlotWritten(e: Event, t: nat)

  /** Where drain is; h is its local. */
  datatype Consumer =
    | Out
    | Looping
    | HasHead(h: nat)
    | Taking(h: nat)
    | Taken(h: nat)
    | Cleared(h: nat)
    | Flushing

  /** What has happened so far, oldest first. A push is accepted when its tail is
      published and dropped when it raises the flag. */
  datatype Entry = Accepted(a: Event) | Dropped(d: Event) | Popped(p: Event) | ErrorEmitted

  datatype State = State(
    ring: seq<Event>, head: nat, tail: nat, overflow: bool,
    producer: Producer, consumer: Consumer, log: seq<Entry>)

  datatype ProducerAction = Push(event: Event) | LoadTail | LoadOtherHead | RaiseOverflow
   | WriteType | WriteName | Publish

  datatype ConsumerAction =
    | Drain | LoadHead | LoadOtherTail | Take(left: string) | Clear | Advance | ExchangeOverflow

  datatype Action = ByProducer(p: ProducerAction) | ByConsumer(c: ConsumerAction)

  function Init(): State {
    State(seq(CAP, _ => Event(Change, "")), 0, 0, false, Away, Out, [])
  }

  /** Indices in range, which every run keeps (see Inv). */
  ghost predicate Shaped(s: State) {
    && |s.ring| == CAP && s.head < CAP && s.tail < CAP
    && (match s.producer
        case HasTail(_, t) => t < CAP
        case Claimed(_, t) => t < CAP
        case TypeWritten(_, t) => t < CAP
        case SlotWritten(_, t) => t < CAP
        case _ => true)
    && (match s.consumer
        case HasHead(h) => h < CAP
        case Taking(h) => h < CAP
        case Taken(h) => h < CAP
        case Cleared(h) => h < CAP
        case _ => true)
  }

  /** One step of pushEvent, or None when the watcher thread is not there. */
  function ProducerStep(s: State, a: ProducerAction): Option<State>
    requires Shaped(s)
  {
    match s.producer
    case Away => if a.Push? then Some(s.(producer := Called(a.event))) else None
    case Called(e) => if a.LoadTail? then Some(s.(producer := HasTail(e, s.tail))) else None
    case HasTail(e, t) =>
      if !a.LoadOtherHead? then None
      else Some(s.(producer := if (t + 1) % CAP == s.head then Full(e) else Claimed(e, t)))
    case Full(e) =>
      if a.RaiseOverflow? then Some(s.(overflow := true, producer := Away, log := s.log + [Dropped(e)])) else None
    case Claimed(e, t) =>
      if !a.WriteType? then None
      else Some(s.(ring := s.ring[t := s.ring[t].(kind := e.kind)], producer := TypeWritten(e, t)))
    case TypeWritten(e, t) =>
      if !a.WriteName? then None
      else Some(s.(ring := s.ring[t := s.ring[t].(filename := e.filename)], producer := SlotWritten(e, t)))
    case SlotWritten(e, t) =>
      if a.Publish? then Some(s.(tail := (t + 1) % CAP, producer := Away, log := s.log + [Accepted(e)])) else None
  }

  /** One step of drain. A moved-from string holds whatever the library leaves in it. */
  function ConsumerStep(s: State, a: ConsumerAction): Option<State>
    requires Shaped(s)
  {
    match s.consumer
    case Out => if a.Drain? then Some(s.(consumer := Looping)) else None
    case Looping => if a.LoadHead? then Some(s.(consumer := HasHead(s.head))) else None
    case HasHead(h) =>
      if !a.LoadOtherTail? then None
      else Some(s.(consumer := if h == s.tail then Flushing else Taking(h)))
    case Taking(h) =>
      if !a.Take? then None
      else Some(s.(ring := s.ring[h := s.ring[h].(filename := a.left)], consumer := Taken(h),
                   log := s.log + [Popped(s.ring[h])]))
    case Taken(h) =>
      if a.Clear? then Some(s.(ring := s.ring[h := s.ring[h].(filename := "")], consumer := Cleared(h))) else None
    case Cleared(h) => if a.Advance? then Some(s.(head := (h + 1) % CAP, consumer := Looping)) else None
    case Flushing =>
      if !a.ExchangeOverflow? then None
      else Some(s.(overflow := false, consumer := Out, log := if s.overflow then s.log + [ErrorEmitted] else s.log))
  }

  function Step(s: State, a: Action): Option<State>
    requires Shaped(s)
  {
    match a
    case ByProducer(p) => ProducerStep(s, p)
    case ByConsumer(c) => ConsumerStep(s, c)
  }

  // ----- reading the log -----

  function AcceptedIn(log: seq<Entry>): seq<Event> {
    if log == [] then []
    else
      var l := log[|log| - 1];
      AcceptedIn(log[..|log| - 1]) + if l.Accepted? then [l.a] else []
  }

  function PoppedIn(log: seq<Entry>): seq<Event> {
    if log == [] then []
    else
      var l := log[|log| - 1];
      PoppedIn(log[..|log| - 1]) + if l.Popped? then [l.p] else []
  }

  /** Drops since the last synthetic Error. */
  function UnreportedDrops(log: seq<Entry>): nat {
    if log == [] then 0
    else
      var l := log[|log| - 1];
      if l.ErrorEmitted? then 0
      else UnreportedDrops(log[..|log| - 1]) + if l.Dropped? then 1 else 0
  }

  lemma LogGrows(log: seq<Entry>, l: Entry)
    ensures AcceptedIn(log + [l]) == if l.Accepted? then AcceptedIn(log) + [l.a] else AcceptedIn(log)
    ensures PoppedIn(log + [l]) == if l.Popped? then PoppedIn(log) + [l.p] else PoppedIn(log)
    ensures UnreportedDrops(log + [l])
         == if l.ErrorEmitted? then 0 else UnreportedDrops(log) + if l.Dropped? then 1 else 0
  {
    assert (log + [l])[..|log|] == log;
  }

  // ----- the invariant -----

  /** Heads stored so far: an event taken but not yet advanced past still owns its slot. */
  function Heads(s: State): int {
    |PoppedIn(s.log)| - if s.consumer.Taken? || s.consumer.Cleared? then 1 else 0
  }

  /** The queue as numbers: `first` is the oldest unread event, `heads` the heads stored. */
  ghost predicate InOrder(s: State, heads: int, acc: seq<Event>, pop: seq<Event>)
    requires |s.ring| == CAP
  {
    && |pop| <= |acc| && pop == acc[..|pop|]
    && 0 <= heads <= |acc| <= heads + CAP - 1
    && s.head == heads % CAP && s.tail == |acc| % CAP
    && forall k: nat :: |pop| <= k < |acc| ==> s.ring[k % CAP] == acc[k]
  }

  ghost predicate ProducerOk(s: State, held: int)
    requires |s.ring| == CAP
  {
    match s.producer
    case HasTail(e, t) => t == s.tail
    case Claimed(e, t) => t == s.tail && held <= CAP - 2
    case TypeWritten(e, t) => t == s.tail && held <= CAP - 2 && s.ring[t % CAP].kind == e.kind
    case SlotWritten(e, t) => t == s.tail && held <= CAP - 2 && s.ring[t % CAP] == e
    case _ => true
  }

  ghost predicate ConsumerOk(s: State, held: int) {
    match s.consumer
    case HasHead(h) => h == s.head
    case Taking(h) => h == s.head && held > 0
    case Taken(h) => h == s.head && held > 0
    case Cleared(h) => h == s.head && held > 0
    case _ => true
  }

  /** Events between the stored head and the published tail. */
  function Held(s: State): int { |AcceptedIn(s.log)| - Heads(s) }

  ghost predicate Inv(s: State) {
    && Shaped(s)
    && InOrder(s, Heads(s), AcceptedIn(s.log), PoppedIn(s.log))
    && ProducerOk(s, Held(s)) && ConsumerOk(s, Held(s))
    && (s.overflow <==> UnreportedDrops(s.log) > 0)
  }

  lemma SlotsDiffer(j: nat, k: nat)
    requires j < k < j + CAP
    ensures j % CAP != k % CAP
  {
  }

  lemma NextSlot(k: nat)
    ensures (k % CAP + 1) % CAP == (k + 1) % CAP
  {
  }

  lemma FullWhenMeets(heads: nat, n: nat)
    requires heads <= n <= heads + CAP - 1
    ensures (n + 1) % CAP == heads % CAP <==> n - heads == CAP - 1
    ensures n % CAP == heads % CAP <==> n == heads
  {
  }

  lemma ClaimKeepsInv(s: State)
    requires Inv(s) && s.producer.HasTail?
    ensures ProducerStep(s, LoadOtherHead).Some? && Inv(ProducerStep(s, LoadOtherHead).value)
  {
    hide AcceptedIn, PoppedIn, UnreportedDrops;
    FullWhenMeets(Heads(s), |AcceptedIn(s.log)|);
    NextSlot(|AcceptedIn(s.log)|);
  }

  lemma WritesKeepInv(s: State, a: ProducerAction)
    requires Inv(s) && ProducerStep(s, a).Some? && (s.producer.Claimed? || s.producer.TypeWritten?)
    ensures Inv(ProducerStep(s, a).value)
  {
    hide AcceptedIn, PoppedIn, UnreportedDrops;
    TailSlotIsFree(s, ProducerStep(s, a).value);
  }

  lemma PublishKeepsInv(s: State)
    requires Inv(s) && s.producer.SlotWritten?
    ensures ProducerStep(s, Publish).Some? && Inv(ProducerStep(s, Publish).value)
  {
    hide AcceptedIn, PoppedIn, UnreportedDrops, InOrder;
    var s' := ProducerStep(s, Publish).value;
    LogGrows(s.log, Accepted(s.producer.e));
    OneMoreInOrder(s, s', Heads(s), AcceptedIn(s.log), PoppedIn(s.log), s.producer.e);
  }

  lemma OneMoreInOrder(s: State, s': State, heads: int, acc: seq<Event>, pop: seq<Event>, e: Event)
    requires |s.ring| == CAP && InOrder(s, heads, acc, pop) && |acc| - heads <= CAP - 2 && s.ring[s.tail] == e
    requires s'.ring == s.ring && s'.head == s.head && s'.tail == (s.tail + 1) % CAP
    ensures InOrder(s', heads, acc + [e], pop)
  {
    NextSlot(|acc|);
  }

  lemma ProducerKeepsInv(s: State, a: ProducerAction)
    requires Inv(s) && ProducerStep(s, a).Some?
    ensures Inv(ProducerStep(s, a).value)
  {
    hide AcceptedIn, PoppedIn, UnreportedDrops;
    match s.producer
    case HasTail(_, _) => ClaimKeepsInv(s);
    case Full(e) => LogGrows(s.log, Dropped(e));
    case Claimed(_, _) => WritesKeepInv(s, a);
    case TypeWritten(_, _) => WritesKeepInv(s, a);
    case SlotWritten(_, _) => PublishKeepsInv(s);
    case _ =>
  }

  /** Writing the slot at the tail disturbs no unread event. */
  lemma TailSlotIsFree(s: State, s': State)
    requires Inv(s) && Held(s) <= CAP - 2
    requires |s'.ring| == CAP && forall i :: 0 <= i < CAP && i != s.tail ==> s'.ring[i] == s.ring[i]
    ensures var acc, pop := AcceptedIn(s.log), PoppedIn(s.log);
      forall k: nat :: |pop| <= k < |acc| ==> s'.ring[k % CAP] == acc[k]
  {
    hide AcceptedIn, PoppedIn, UnreportedDrops;
    var acc, pop := AcceptedIn(s.log), PoppedIn(s.log);
    forall k: nat | |pop| <= k < |acc|
      ensures s'.ring[k % CAP] == acc[k]
    {
      SlotsDiffer(k, |acc|);
    }
  }

  lemma TakeKeepsInv(s: State, left: string)
    requires Inv(s) && s.consumer.Taking?
    ensures ConsumerStep(s, Take(left)).Some? && Inv(ConsumerStep(s, Take(left)).value)
  {
    hide AcceptedIn, PoppedIn, UnreportedDrops;
    var s' := ConsumerStep(s, Take(left)).value;
    var acc, pop := AcceptedIn(s.log), PoppedIn(s.log);
    LogGrows(s.log, Popped(s.ring[s.head]));
    assert s.ring[|pop| % CAP] == acc[|pop|];
    HeadSlotIsRead(s, s');
  }

  lemma ClearKeepsInv(s: State)
    requires Inv(s) && s.consumer.Taken?
    ensures ConsumerStep(s, Clear).Some? && Inv(ConsumerStep(s, Clear).value)
  {
    hide AcceptedIn, PoppedIn, UnreportedDrops;
    HeadSlotIsRead(s, ConsumerStep(s, Clear).value);
  }

  lemma AdvanceKeepsInv(s: State)
    requires Inv(s) && s.consumer.Cleared?
    ensures ConsumerStep(s, Advance).Some? && Inv(ConsumerStep(s, Advance).value)
  {
    hide AcceptedIn, PoppedIn, UnreportedDrops;
    NextSlot(Heads(s));
  }

  lemma FlushKeepsInv(s: State)
    requires Inv(s) && s.consumer.Flushing?
    ensures ConsumerStep(s, ExchangeOverflow).Some? && Inv(ConsumerStep(s, ExchangeOverflow).value)
  {
    hide AcceptedIn, PoppedIn, UnreportedDrops;
    LogGrows(s.log, ErrorEmitted);
  }

  lemma LoadsKeepInv(s: State, a: ConsumerAction)
    requires Inv(s) && ConsumerStep(s, a).Some? && (s.consumer.Out? || s.consumer.Looping? || s.consumer.HasHead?)
    ensures Inv(ConsumerStep(s, a).value)
  {
    hide AcceptedIn, PoppedIn, UnreportedDrops;
    FullWhenMeets(Heads(s), |AcceptedIn(s.log)|);
  }

  lemma ConsumerKeepsInv(s: State, a: ConsumerAction)
    requires Inv(s) && ConsumerStep(s, a).Some?
    ensures Inv(ConsumerStep(s, a).value)
  {
    ConsumerActionFits(s, a);
    hide Inv, ConsumerStep;
    match s.consumer
    case Taking(h) => TakeKeepsInv(s, a.left);
    case Taken(h) => ClearKeepsInv(s);
    case Cleared(h) => AdvanceKeepsInv(s);
    case Flushing => FlushKeepsInv(s);
    case _ => LoadsKeepInv(s, a);
  }

  lemma ConsumerActionFits(s: State, a: ConsumerAction)
    requires Shaped(s) && ConsumerStep(s, a).Some?
    ensures s.consumer.Taking? ==> a.Take?
    ensures s.consumer.Taken? ==> a == Clear
    ensures s.consumer.Cleared? ==> a == Advance
    ensures s.consumer.Flushing? ==> a == ExchangeOverflow
  {
  }

  /** Writing the slot at the head disturbs neither the events behind it nor the
      slot the producer is filling. */
  lemma HeadSlotIsRead(s: State, s': State)
    requires Inv(s) && Held(s) > 0
    requires |s'.ring| == CAP && forall i :: 0 <= i < CAP && i != s.head ==> s'.ring[i] == s.ring[i]
    ensures var acc := AcceptedIn(s.log);
      forall k: nat :: Heads(s) < k < |acc| ==> s'.ring[k % CAP] == acc[k]
    ensures s.head != s.tail
  {
    hide AcceptedIn, PoppedIn, UnreportedDrops;
    var acc := AcceptedIn(s.log);
    forall k: nat | Heads(s) < k < |acc|
      ensures s'.ring[k % CAP] == acc[k]
    {
      SlotsDiffer(Heads(s), k);
    }
    SlotsDiffer(Heads(s), |acc|);
  }

  // ----- runs -----

  /** The state any interleaving of the two threads leads to, or None when one of
      the actions finds its thread elsewhere. */
  function Run(actions: seq<Action>): (r: Option<State>)
    ensures r.Some? ==> Inv(r.value)
  {
    if actions == [] then
      InitInv();
      Some(Init())
    else
      match Run(actions[..|actions| - 1])
      case None => None
      case Some(s) => StepKeepingInv(s, actions[|actions| - 1])
  }

  function StepKeepingInv(s: State, a: Action): (r: Option<State>)
    requires Inv(s)
    ensures r == Step(s, a)
    ensures r.Some? ==> Inv(r.value)
  {
    var r := Step(s, a);
    if r.Some? then
      KeepsInv(s, a);
      r
    else r
  }

  lemma KeepsInv(s: State, a: Action)
    requires Inv(s) && Step(s, a).Some?
    ensures Inv(Step(s, a).value)
  {
    match a
    case ByProducer(p) => ProducerKeepsInv(s, p);
    case ByConsumer(c) => ConsumerKeepsInv(s, c);
  }

  lemma InitInv()
    ensures Inv(Init())
  {
  }

  /** The unread events, read off the ring and its two indices. */
  function FirstUnread(s: State): nat {
    if s.consumer.Taken? || s.consumer.Cleared? then (s.head + 1) % CAP else s.head
  }

  /** The slots from first up to tail, around the ring. */
  function Window(ring: seq<Event>, first: nat, tail: nat): (w: seq<Event>)
    requires |ring| == CAP
    ensures |w| < CAP
  {
    seq((tail + CAP - first) % CAP, i requires 0 <= i => ring[(first + i) % CAP])
  }

  function Contents(s: State): seq<Event>
    requires |s.ring| == CAP && s.head < CAP
  {
    Window(s.ring, FirstUnread(s), s.tail)
  }

  lemma WindowPush(ring: seq<Event>, first: nat, tail: nat, ring': seq<Event>)
    requires |ring| == CAP == |ring'| && first < CAP && tail < CAP
    requires forall i :: 0 <= i < CAP && i != tail ==> ring'[i] == ring[i]
    requires (tail + 1) % CAP != first
    ensures Window(ring', first, (tail + 1) % CAP) == Window(ring, first, tail) + [ring'[tail]]
    ensures |Window(ring, first, tail)| < CAP - 1
  {
    var n := |Window(ring, first, tail)|;
    assert (first + n) % CAP == tail;
    var w, w' := Window(ring, first, tail), Window(ring', first, (tail + 1) % CAP);
    assert |w'| == n + 1;
    forall i | 0 <= i < n
      ensures w'[i] == w[i]
    {
      SlotsDiffer(first + i, first + n);
    }
  }

  lemma WindowPop(ring: seq<Event>, first: nat, tail: nat, ring': seq<Event>)
    requires |ring| == CAP == |ring'| && first < CAP && tail < CAP && first != tail
    requires forall i :: 0 <= i < CAP && i != first ==> ring'[i] == ring[i]
    ensures Window(ring, first, tail) == [ring[first]] + Window(ring', (first + 1) % CAP, tail)
  {
    hide Window;
    WindowPopLength(first, tail);
    var w, w' := Window(ring, first, tail), Window(ring', (first + 1) % CAP, tail);
    WindowIs(ring, first, tail);
    WindowIs(ring', (first + 1) % CAP, tail);
    forall i | 0 <= i < |w'|
      ensures w'[i] == w[i + 1]
    {
      BehindFirst(first, i);
    }
    FirstSlot(first);
  }

  lemma BehindFirst(first: nat, i: nat)
    requires first < CAP && i + 1 < CAP
    ensures var j := (first + (i + 1)) % CAP; ((first + 1) % CAP + i) % CAP == j && j != first
  {
    SlotsDiffer(first, first + 1 + i);
    RingIndex(first + 1, i);
  }

  lemma FirstSlot(first: nat)
    requires first < CAP
    ensures (first + 0) % CAP == first
  {
  }

  lemma WindowIs(ring: seq<Event>, first: nat, tail: nat)
    requires |ring| == CAP && first < CAP && tail < CAP
    ensures var w := Window(ring, first, tail);
      |w| == (tail + CAP - first) % CAP && forall i :: 0 <= i < |w| ==> w[i] == ring[(first + i) % CAP]
  {
  }

  lemma WindowPopLength(first: nat, tail: nat)
    requires first < CAP && tail < CAP && first != tail
    ensures (tail + CAP - first) % CAP == (tail + CAP - (first + 1) % CAP) % CAP + 1
  {
    assert (first + 1) % CAP == if first == CAP - 1 then 0 else first + 1;
    assert (tail + CAP - first) % CAP == if tail > first then tail - first else tail + CAP - first;
  }

  lemma WindowFull(ring: seq<Event>, first: nat, tail: nat)
    requires |ring| == CAP && first < CAP && tail < CAP
    ensures |Window(ring, first, tail)| == CAP - 1 <==> (tail + 1) % CAP == first
    ensures Window(ring, first, tail) == [] <==> first == tail
  {
  }

  /** The two sides are between the steps that touch the same slot. */
  predicate Collide(s: State) {
    && (s.producer.Claimed? || s.producer.TypeWritten? || s.producer.SlotWritten?)
    && (s.consumer.Taking? || s.consumer.Taken? || s.consumer.Cleared?)
    && s.producer.t == s.consumer.h
  }

  lemma RingDistance(first: nat, n: nat)
    requires first <= n < first + CAP
    ensures (n % CAP + CAP - first % CAP) % CAP == n - first
  {
  }

  lemma RingIndex(first: nat, i: nat)
    ensures (first % CAP + i) % CAP == (first + i) % CAP
  {
  }

  lemma ContentsAreTheRest(s: State)
    requires Inv(s)
    ensures AcceptedIn(s.log) == PoppedIn(s.log) + Contents(s)
  {
    hide AcceptedIn, PoppedIn, UnreportedDrops;
    var acc, pop := AcceptedIn(s.log), PoppedIn(s.log);
    NextSlot(Heads(s));
    assert FirstUnread(s) == |pop| % CAP;
    RingDistance(|pop|, |acc|);
    assert |Contents(s)| == |acc| - |pop|;
    forall i: nat | i < |Contents(s)|
      ensures Contents(s)[i] == acc[|pop| + i]
    {
      RingIndex(|pop|, i);
      assert s.ring[(|pop| + i) % CAP] == acc[|pop| + i];
    }
    assert acc == acc[..|pop|] + acc[|pop|..];
    assert acc[|pop|..] == Contents(s);
  }

  /** The exchange reports the drops since the last Error, if there are any. */
  ghost predicate Flushes(s: State)
    requires Shaped(s)
  {
    var r := Step(s, ByConsumer(ExchangeOverflow));
    && r.Some? && r.value.log == (if UnreportedDrops(s.log) > 0 then s.log + [ErrorEmitted] else s.log)
    && UnreportedDrops(r.value.log) == 0
  }

  /** In every interleaving: what drain has handed out followed by what the ring
      holds is what was accepted, in order; the two threads are never on one slot;
      the ring never holds more than 1023 events; the flag is up exactly when some
      drop has not been followed by a synthetic Error; and the exchange that ends a
      drain emits that Error exactly then, and leaves no drop unreported. */
  lemma EveryInterleaving(actions: seq<Action>)
    requires Run(actions).Some?
    ensures var s := Run(actions).value;
      && |s.ring| == CAP && s.head < CAP
      && AcceptedIn(s.log) == PoppedIn(s.log) + Contents(s)
      && |Contents(s)| <= 1023
      && !Collide(s)
      && (s.overflow <==> UnreportedDrops(s.log) > 0)
      && (s.consumer.Flushing? ==> Flushes(s))
  {
    hide AcceptedIn, PoppedIn, UnreportedDrops;
    var s := Run(actions).value;
    ContentsAreTheRest(s);
    LogGrows(s.log, ErrorEmitted);
    if Held(s) > 0 { SlotsDiffer(Heads(s), |AcceptedIn(s.log)|); }
  }

  /** A push is turned away exactly when, at the load of the head, 1023 slots are
      still owned by the reader. */
  lemma DropsOnlyWhenFull(actions: seq<Action>)
    requires Run(actions).Some? && Run(actions).value.producer.HasTail?
    ensures Step(Run(actions).value, ByProducer(LoadOtherHead)).Some?
    ensures var s := Run(actions).value;
      var owned := |Contents(s)| + if s.consumer.Taken? || s.consumer.Cleared? then 1 else 0;
      Step(s, ByProducer(LoadOtherHead)).value.producer.Full? <==> owned == 1023
  {
    hide AcceptedIn, PoppedIn, UnreportedDrops, Contents;
    var s := Run(actions).value;
    ContentsAreTheRest(s);
    assert |AcceptedIn(s.log)| == |PoppedIn(s.log)| + |Contents(s)|;
    NextSlot(|AcceptedIn(s.log)|);
    FullWhenMeets(Heads(s), |AcceptedIn(s.log)|);
  }

  // ----- the calls, one at a time -----

  /** The object itself, with no other thread inside a call. */
  class FsWatcher {
    const ring: array<Event>
    var head: nat
    var tail: nat
    var overflow: bool

    ghost predicate Valid()
      reads this
    {
      ring.Length == CAP && head < CAP && tail < CAP
    }

    ghost function Queue(): (q: seq<Event>)
      reads this, ring
      requires Valid()
      ensures |q| < CAP
    {
      Window(ring[..], head, tail)
    }

    constructor ()
      ensures Valid() && Queue() == [] && !overflow && fresh(ring)
    {
      ring := new Event[CAP](_ => Event(Change, ""));
      head, tail, overflow := 0, 0, false;
    }

    method PushEvent(kind: EventKind, filename: string)
      requires Valid()
      modifies this`tail, this`overflow, ring
      ensures Valid()
      ensures |old(Queue())| < 1023 ==>
        Queue() == old(Queue()) + [Event(kind, filename)] && overflow == old(overflow)
      ensures |old(Queue())| == 1023 ==> Queue() == old(Queue()) && overflow
    {
      WindowFull(ring[..], head, tail);
      ghost var before := ring[..];
      var t := tail;
      var n := (t + 1) % CAP;
      if n == head {
        overflow := true;
        return;
      }
      ring[t] := ring[t].(kind := kind);
      ring[t] := ring[t].(filename := filename);
      tail := n;
      WindowPush(before, head, t, ring[..]);
    }

    /** Appends everything queued to `out`, then the synthetic Error if a push was
        dropped since the last drain. */
    method Drain(out: seq<Event>) returns (out': seq<Event>)
      requires Valid()
      modifies this`head, this`overflow, ring
      ensures Valid() && Queue() == [] && !overflow
      ensures !old(overflow) ==> out' == out + old(Queue())
      ensures old(overflow) ==>
        out' == out + old(Queue()) + [Event(Error, "fs.watch ring overflow \U{2014} events dropped")]
    {
      hide Window;
      out' := out;
      while head != tail
        invariant Valid() && overflow == old(overflow) && tail == old(tail)
        invariant out' + Queue() == out + old(Queue())
        decreases |Queue()|
      {
        WindowFull(ring[..], head, tail);
        ghost var before, h := ring[..], head;
        out' := out' + [ring[head]];
        ring[head] := ring[head].(filename := "");
        head := (head + 1) % CAP;
        WindowPop(before, h, tail, ring[..]);
      }
      WindowFull(ring[..], head, tail);
      if overflow {
        overflow := false;
        out' := out' + [Event(Error, DROPPED)];
      }
    }
  }

  const DROPPED := "fs.watch ring overflow \U{2014} events dropped"
}
