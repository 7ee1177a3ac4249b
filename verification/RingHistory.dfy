/** The event ring told by the steps of its two threads: what was pushed, and how drains end. */
module RingHistory {
  import opened Common
  import opened WatchRing

  /** The events pushEvent was called with. */
  function PushedIn(actions: seq<Action>): seq<Event> {
    if actions == [] then []
    else
      var a := actions[|actions| - 1];
      PushedIn(actions[..|actions| - 1]) + if a.ByProducer? && a.p.Push? then [a.p.event] else []
  }

  /** The events some call has put into the ring or dropped. */
  function SettledIn(log: seq<Entry>): seq<Event> {
    if log == [] then []
    else
      var l := log[|log| - 1];
      SettledIn(log[..|log| - 1]) + if l.Accepted? then [l.a] else if l.Dropped? then [l.d] else []
  }

  function InHand(p: Producer): seq<Event> { if p.Away? then [] else [p.e] }

  function Count(actions: seq<Action>, c: ConsumerAction): nat {
    if actions == [] then 0
    else Count(actions[..|actions| - 1], c) + if actions[|actions| - 1] == ByConsumer(c) then 1 else 0
  }

  lemma SettledMore(log: seq<Entry>, l: Entry)
    ensures SettledIn(log + [l])
         == SettledIn(log) + if l.Accepted? then [l.a] else if l.Dropped? then [l.d] else []
  {
    assert (log + [l])[..|log|] == log;
  }

  lemma Earlier(actions: seq<Action>)
    requires actions != [] && Run(actions).Some?
    ensures var init := actions[..|actions| - 1];
      Run(init).Some? && Step(Run(init).value, actions[|actions| - 1]) == Run(actions)
  {
    hide Step;
  }

  lemma PushStep(s: State, a: Action)
    requires Shaped(s) && Step(s, a).Some?
    ensures var s' := Step(s, a).value;
      SettledIn(s'.log) + InHand(s'.producer)
      == SettledIn(s.log) + InHand(s.producer) + if a.ByProducer? && a.p.Push? then [a.p.event] else []
  {
    hide SettledIn;
    var s' := Step(s, a).value;
    if s'.log != s.log {
      var l := s'.log[|s.log|];
      assert s'.log == s.log + [l];
      SettledMore(s.log, l);
    }
    var before := SettledIn(s.log) + InHand(s.producer);
    assert before + [] == before;
    assert SettledIn(s.log) + [] == SettledIn(s.log);
    assert forall e: Event :: SettledIn(s.log) + [e] + [] == SettledIn(s.log) + [e];
  }

  /** In every interleaving the pushes, each as it was called, are in order those that were
      accepted or dropped and the one still on its way. */
  lemma {:induction false} EveryPushIsSettled(actions: seq<Action>)
    requires Run(actions).Some?
    ensures var s := Run(actions).value; PushedIn(actions) == SettledIn(s.log) + InHand(s.producer)
    decreases |actions|
  {
    hide Step, SettledIn, InHand;
    if actions == [] {
      NothingPushed();
    } else {
      Earlier(actions);
      EveryPushIsSettled(actions[..|actions| - 1]);
      PushStep(Run(actions[..|actions| - 1]).value, actions[|actions| - 1]);
    }
  }

  lemma NothingPushed()
    ensures SettledIn(Init().log) + InHand(Init().producer) == []
  {
  }

  /** Every drain that has come to its end went through the exchange of the flag. */
  lemma {:induction false} DrainsEndInTheExchange(actions: seq<Action>)
    requires Run(actions).Some?
    ensures Count(actions, Drain)
         == Count(actions, ExchangeOverflow) + if Run(actions).value.consumer.Out? then 0 else 1
    decreases |actions|
  {
    hide Step;
    if actions != [] {
      Earlier(actions);
      DrainsEndInTheExchange(actions[..|actions| - 1]);
      DrainStep(Run(actions[..|actions| - 1]).value, actions[|actions| - 1]);
    }
  }

  lemma DrainStep(s: State, a: Action)
    requires Shaped(s) && Step(s, a).Some?
    ensures var s' := Step(s, a).value;
      && (a == ByConsumer(Drain) ==> s.consumer.Out? && !s'.consumer.Out?)
      && (a == ByConsumer(ExchangeOverflow) ==> !s.consumer.Out? && s'.consumer.Out?)
      && (a != ByConsumer(Drain) && a != ByConsumer(ExchangeOverflow) ==> s'.consumer.Out? == s.consumer.Out?)
  {
  }

  /** And it goes there exactly when it finds the ring empty. */
  lemma StopsExactlyWhenEmpty(actions: seq<Action>)
    requires Run(actions).Some? && Run(actions).value.consumer.HasHead?
    ensures Step(Run(actions).value, ByConsumer(LoadOtherTail)).Some?
    ensures var s := Run(actions).value;
      Step(s, ByConsumer(LoadOtherTail)).value.consumer.Flushing? <==> AcceptedIn(s.log) == PoppedIn(s.log)
  {
    hide AcceptedIn, PoppedIn, UnreportedDrops;
    var s := Run(actions).value;
    FullWhenMeets(Heads(s), |AcceptedIn(s.log)|);
    var acc, pop := AcceptedIn(s.log), PoppedIn(s.log);
    assert acc[..|acc|] == acc;
  }
}
