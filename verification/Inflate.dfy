/** mz_inflate as its caller sees it: a deterministic transducer of bytes behind a
    stream that eats as much of its input per call as it likes and hands its output
    over as far as there is room.
 */
module Inflate {
  import opened Common

  /** What one more byte makes of a stream that has eaten `past`. */
  datatype Next = More(made: Bytes) | End(made: Bytes) | Fault

  type Inflater = (Bytes, bv8) -> Next

  /** What some input makes of it: eaten whole, over with input to spare, or bad. */
  datatype Fed = Going(made: Bytes) | Ended(made: Bytes, rest: Bytes) | Faulted

  function After(made: Bytes, f: Fed): Fed {
    match f
    case Going(more) => Going(made + more)
    case Ended(more, rest) => Ended(made + more, rest)
    case Faulted => Faulted
  }

  function Feed(m: Inflater, past: Bytes, input: Bytes): (f: Fed)
    ensures f.Ended? ==> |f.rest| < |input| && f.rest == input[|input| - |f.rest|..]
    decreases |input|
  {
    if input == [] then Going([])
    else
      match m(past, input[0])
      case Fault => Faulted
      case End(made) => Ended(made, input[1..])
      case More(made) => After(made, Feed(m, past + [input[0]], input[1..]))
  }

  lemma AfterAfter(a: Bytes, b: Bytes, f: Fed)
    ensures After(a, After(b, f)) == After(a + b, f)
    ensures After([], f) == f
  {
    if !f.Faulted? { assert (a + b) + f.made == a + (b + f.made) && [] + f.made == f.made; }
  }

  function Feed2(m: Inflater, past: Bytes, a: Bytes, b: Bytes): Fed {
    match Feed(m, past, a)
    case Going(made) => After(made, Feed(m, past + a, b))
    case Ended(made, rest) => Ended(made, rest + b)
    case Faulted => Faulted
  }

  /** Feeding in two pieces is feeding at once. */
  lemma {:induction false} FeedConcat(m: Inflater, past: Bytes, a: Bytes, b: Bytes)
    ensures Feed(m, past, a + b) == Feed2(m, past, a, b)
    decreases |a|
  {
    hide After;
    if a == [] {
      assert a + b == b && past + a == past;
      AfterAfter([], [], Feed(m, past, b));
    } else {
      assert (a + b)[0] == a[0] && (a + b)[1..] == a[1..] + b;
      match m(past, a[0])
      case Fault =>
      case End(made) =>
      case More(made) => FeedMore(m, past, a, b, made);
    }
  }

  lemma {:induction false} FeedMore(m: Inflater, past: Bytes, a: Bytes, b: Bytes, made: Bytes)
    requires a != [] && m(past, a[0]) == More(made)
    ensures Feed(m, past, a + b) == Feed2(m, past, a, b)
    decreases |a|, 0
  {
    var past' := past + [a[0]];
    assert (a + b)[0] == a[0] && (a + b)[1..] == a[1..] + b && past' + a[1..] == past + a;
    FeedConcat(m, past', a[1..], b);
    var f := Feed(m, past', a[1..]);
    if f.Going? { AfterAfter(made, f.made, Feed(m, past + a, b)); }
  }

  datatype Code = Ok | StreamEnd | BufError | DataError

  /** The stream between a caller and the transducer. `appetite` says how many bytes
      each call eats; any stream that keeps to the interface has one. */
  class MzStream {
    const inflater: Inflater
    const appetite: nat -> nat
    var nextIn: Bytes
    var past: Bytes
    var pending: Bytes
    var over: bool
    var broken: bool
    var calls: nat

    constructor (inflater: Inflater, appetite: nat -> nat)
      ensures this.inflater == inflater && Idle() && past == [] && nextIn == []
    {
      this.inflater, this.appetite := inflater, appetite;
      nextIn, past, pending, over, broken, calls := [], [], [], false, false, 0;
    }

    /** Nothing is owed for what was eaten so far. */
    predicate Idle()
      reads this
    {
      !over && !broken && pending == []
    }

    /** What the stream and the input it points at still make. */
    ghost function Rest(): (f: Fed)
      reads this
    {
      if broken then Faulted
      else if over then Ended(pending, nextIn)
      else After(pending, Feed(inflater, past, nextIn))
    }

    predicate Drained()
      reads this
    {
      over && pending == []
    }

    method Eat(k: nat)
      requires Idle() && 0 < k <= |nextIn|
      modifies this`nextIn, this`past, this`pending, this`over, this`broken
      ensures Rest() == old(Rest()) && |nextIn| < old(|nextIn|) + (if broken then 1 else 0)
      ensures !broken && !over ==> past + nextIn == old(past + nextIn)
    {
      var bite, left := nextIn[..k], nextIn[k..];
      assert nextIn == bite + left;
      FeedConcat(inflater, past, bite, left);
      AfterAfter([], [], Feed(inflater, past, nextIn));
      match Feed(inflater, past, bite)
      case Going(made) => past, nextIn, pending := past + bite, left, made;
      case Ended(made, rest) => nextIn, pending, over := rest + left, made, true;
      case Faulted => broken := true;
    }

    /** One mz_inflate call with room for `room` bytes. It eats nothing while output
        is pending, otherwise at least one byte if there is one; it leaves no output
        pending unless it filled the room. */
    method Call(room: nat) returns (rc: Code, out: Bytes)
      requires room > 0
      modifies this`nextIn, this`past, this`pending, this`over, this`broken, this`calls
      ensures rc == DataError <==> broken
      ensures broken ==> old(Rest()) == Faulted
      ensures !broken ==> old(Rest()) == After(out, Rest())
      ensures !broken ==> (rc == StreamEnd <==> Drained())
      ensures !broken && |out| < room ==> pending == []
      ensures rc == BufError ==> old(nextIn) == []
      ensures !broken && !over ==> past + nextIn == old(past + nextIn)
      ensures |nextIn| <= old(|nextIn|)
      ensures !broken && |nextIn| == old(|nextIn|) ==>
        |pending| + |out| == old(|pending|) && (out == [] ==> Drained() || nextIn == [])
    {
      ghost var f := Rest();
      var asked := nextIn == [];
      calls := calls + 1;
      if broken { return DataError, []; }
      if !over && pending == [] && nextIn != [] {
        var want := if appetite(calls) == 0 then 1 else appetite(calls);
        Eat(if want < |nextIn| then want else |nextIn|);
        if broken { return DataError, []; }
      }
      ghost var made := pending;
      var n := if room < |pending| then room else |pending|;
      out, pending := pending[..n], pending[n..];
      assert f == After(out, Rest()) by {
        assert made == out + pending;
        AfterAfter(out, pending, Feed(inflater, past, nextIn));
      }
      rc := if over && pending == [] then StreamEnd else if asked then BufError else Ok;
    }
  }
}
