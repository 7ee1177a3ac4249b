/** HKDF (sections 2.2 and 2.3 of RFC 5869) over an abstract HMAC. */
module Hkdf {
  import opened Common

  /** HMAC with one hash: a function of key and message with a fixed output length,
      which is 0 for a hash that is not known, or None where the platform's call
      fails. */
  datatype Mac = Mac(length: nat, hmac: (Bytes, Bytes) -> Option<Bytes>)

  ghost predicate IsMac(m: Mac) {
    forall k: Bytes, msg: Bytes :: m.hmac(k, msg).Some? ==> |m.hmac(k, msg).value| == m.length
  }

  function Extract(m: Mac, ikm: Bytes, salt: Bytes): Option<Bytes> {
    m.hmac(if salt == [] then Zeros(m.length) else salt, ikm)
  }

  /** T(n) of the standard, T(0) being empty. */
  function T(m: Mac, prk: Bytes, info: Bytes, n: nat): Option<Bytes>
    requires n < 256
  {
    if n == 0 then Some([])
    else
      match T(m, prk, info, n - 1)
      case None => None
      case Some(t) => m.hmac(prk, t + info + [n as bv8])
  }

  /** T(1) | ... | T(n). */
  function Stream(m: Mac, prk: Bytes, info: Bytes, n: nat): Option<Bytes>
    requires n < 256
  {
    if n == 0 then Some([])
    else
      match (Stream(m, prk, info, n - 1), T(m, prk, info, n))
      case (Some(s), Some(t)) => Some(s + t)
      case _ => None
  }

  lemma {:induction false} StreamLength(m: Mac, prk: Bytes, info: Bytes, n: nat)
    requires IsMac(m) && n < 256 && Stream(m, prk, info, n).Some?
    ensures |Stream(m, prk, info, n).value| == n * m.length
  {
    hide T;
    if n > 0 {
      StreamLength(m, prk, info, n - 1);
      BlockLength(m, prk, info, n);
      assert (n - 1) * m.length + m.length == n * m.length;
    }
  }

  lemma BlockLength(m: Mac, prk: Bytes, info: Bytes, n: nat)
    requires IsMac(m) && 0 < n < 256 && T(m, prk, info, n).Some?
    ensures |T(m, prk, info, n).value| == m.length
  {
  }

  /** How many blocks give `length` bytes. */
  function Blocks(length: nat, each: nat): (n: nat)
    requires each > 0
    ensures n * each >= length && (n > 0 ==> (n - 1) * each < length)
  {
    BlocksBound(length, each);
    (length + each - 1) / each
  }

  lemma BlocksBound(length: nat, each: nat)
    requires each > 0
    ensures var n := (length + each - 1) / each; n * each >= length && (n > 0 ==> (n - 1) * each < length)
  {
    var n := (length + each - 1) / each;
    assert length + each - 1 == n * each + (length + each - 1) % each;
    assert (n - 1) * each == n * each - each;
  }

  lemma Monotone(a: nat, b: nat, each: nat)
    requires a <= b
    ensures a * each <= b * each
  {
  }

  /** The number of blocks fits the one-octet counter. */
  lemma CounterFits(length: nat, each: nat)
    requires each > 0 && length <= 255 * each
    ensures Blocks(length, each) <= 255
  {
    var n := Blocks(length, each);
    if n >= 256 { Monotone(255, n - 1, each); }
  }

  predicate Allowed(m: Mac, length: nat) { m.length > 0 && length <= 255 * m.length }

  /** The standard's output: the first `length` bytes of the stream, or nothing past
      255 blocks, for an unknown hash, or if a call of HMAC fails. */
  ghost function Derived(m: Mac, ikm: Bytes, salt: Bytes, info: Bytes, length: nat): Option<Bytes>
    requires IsMac(m)
  {
    if !Allowed(m, length) || Extract(m, ikm, salt) == None then None
    else Taken(m, Extract(m, ikm, salt).value, info, length)
  }

  ghost function Taken(m: Mac, prk: Bytes, info: Bytes, length: nat): Option<Bytes>
    requires IsMac(m) && Allowed(m, length)
  {
    CounterFits(length, m.length);
    var s := Stream(m, prk, info, Blocks(length, m.length));
    if s == None then None
    else
      StreamLength(m, prk, info, Blocks(length, m.length));
      Some(s.value[..length])
  }

  // ----- the loop -----

  /** The loop is past k blocks of n, with t the last of them. */
  ghost predicate Passed(m: Mac, prk: Bytes, info: Bytes, k: nat, n: nat, out: Bytes, t: Bytes) {
    k <= n <= 255 && Stream(m, prk, info, k) == Some(out) && T(m, prk, info, k) == Some(t)
  }

  lemma AtStart(m: Mac, prk: Bytes, info: Bytes, n: nat)
    requires n <= 255
    ensures Passed(m, prk, info, 0, n, [], [])
  {
  }

  /** One pass of the loop. */
  lemma OnePass(m: Mac, prk: Bytes, info: Bytes, k: nat, n: nat, out: Bytes, t: Bytes)
    requires Passed(m, prk, info, k, n, out, t) && k < n
    ensures var next := m.hmac(prk, t + info + [(k + 1) as bv8]);
      if next.Some? then Passed(m, prk, info, k + 1, n, out + next.value, next.value)
      else Stream(m, prk, info, n) == None
  {
    if T(m, prk, info, k + 1) == None { StreamStops(m, prk, info, k + 1, n); }
  }

  lemma {:induction false} StreamStops(m: Mac, prk: Bytes, info: Bytes, k: nat, n: nat)
    requires k <= n < 256 && Stream(m, prk, info, k) == None
    ensures Stream(m, prk, info, n) == None
  {
    hide T;
    if k < n { StreamStops(m, prk, info, k, n - 1); }
  }

  /** The stream is long enough with the last block and not before it. */
  lemma LongEnough(m: Mac, prk: Bytes, info: Bytes, k: nat, n: nat, out: Bytes, t: Bytes, length: nat)
    requires IsMac(m) && m.length > 0 && n == Blocks(length, m.length) && Passed(m, prk, info, k, n, out, t)
    ensures |out| < length <==> k < n
  {
    hide Stream, T, Blocks;
    StreamLength(m, prk, info, k);
    if k < n { Monotone(k, n - 1, m.length); }
  }

  lemma FewBlocks(m: Mac, length: nat)
    requires Allowed(m, length)
    ensures m.length > 0 && Blocks(length, m.length) <= 255
  {
    CounterFits(length, m.length);
  }

  lemma Failed(m: Mac, prk: Bytes, info: Bytes, length: nat)
    requires IsMac(m) && Allowed(m, length) && Blocks(length, m.length) < 256
    requires Stream(m, prk, info, Blocks(length, m.length)) == None
    ensures Taken(m, prk, info, length) == None
  {
  }

  lemma Finished(m: Mac, prk: Bytes, info: Bytes, length: nat, n: nat, out: Bytes, t: Bytes)
    requires IsMac(m) && Allowed(m, length) && n == Blocks(length, m.length) && Passed(m, prk, info, n, n, out, t)
    ensures |out| >= length && Taken(m, prk, info, length) == Some(out[..length])
  {
    hide Stream, T, Blocks;
    StreamLength(m, prk, info, n);
  }

  /** The loop of hkdf, with its one-byte counter. */
  method Expand(m: Mac, prk: Bytes, info: Bytes, outLen: nat) returns (r: Option<Bytes>)
    requires IsMac(m) && Allowed(m, outLen)
    ensures r == Taken(m, prk, info, outLen)
  {
    hide *;
    FewBlocks(m, outLen);
    ghost var n := Blocks(outLen, m.length);
    var out: Bytes, t: Bytes, i: nat := [], [], 1;
    ghost var k := 0;
    AtStart(m, prk, info, n);
    LongEnough(m, prk, info, k, n, out, t, outLen);
    while |out| < outLen
      invariant k <= n && i < 256 && (k < 255 ==> i == k + 1)
      invariant Passed(m, prk, info, k, n, out, t) && (|out| < outLen <==> k < n)
      decreases n - k
    {
      OnePass(m, prk, info, k, n, out, t);
      var next := m.hmac(prk, t + info + [i as bv8]);
      if next == None {
        Failed(m, prk, info, outLen);
        return None;
      }
      t := next.value;
      out := out + t;
      i := (i + 1) % 256;
      k := k + 1;
      LongEnough(m, prk, info, k, n, out, t, outLen);
    }
    Finished(m, prk, info, outLen, n, out, t);
    r := Some(out[..outLen]);
  }

  /** hkdf. */
  method Derive(m: Mac, ikm: Bytes, salt: Bytes, info: Bytes, outLen: nat) returns (r: Option<Bytes>)
    requires IsMac(m)
    ensures r == Derived(m, ikm, salt, info, outLen)
  {
    hide Taken, IsMac;
    if m.length == 0 || outLen > 255 * m.length { return None; }
    var saltKey := if salt == [] then Zeros(m.length) else salt;
    var prk := m.hmac(saltKey, ikm);
    if prk == None { return None; }
    r := Expand(m, prk.value, info, outLen);
  }

  // ----- lengths -----

  lemma {:induction false} StreamPrefix(m: Mac, prk: Bytes, info: Bytes, k: nat, n: nat)
    requires k <= n < 256 && Stream(m, prk, info, n).Some?
    ensures Stream(m, prk, info, k).Some? && Stream(m, prk, info, k).value <= Stream(m, prk, info, n).value
  {
    hide T;
    if k < n { StreamPrefix(m, prk, info, k, n - 1); }
  }

  lemma Within(short: nat, long: nat, each: nat)
    requires each > 0 && short <= long <= 255 * each
    ensures short <= 255 * each && Blocks(short, each) <= Blocks(long, each) <= 255
  {
    hide Blocks;
    CounterFits(long, each);
    var k, n := Blocks(short, each), Blocks(long, each);
    if k > n { Monotone(n, k - 1, each); }
  }

  predicate IsStart(n: nat, a: Option<Bytes>, b: Option<Bytes>) {
    a.Some? && b.Some? && |a.value| == n && a.value <= b.value
  }

  /** Asking for less gives the beginning of what asking for more gives, whatever
      block boundaries lie between. */
  lemma ShorterIsPrefix(m: Mac, ikm: Bytes, salt: Bytes, info: Bytes, short: nat, long: nat)
    requires IsMac(m) && short <= long && Derived(m, ikm, salt, info, long).Some?
    ensures IsStart(short, Derived(m, ikm, salt, info, short), Derived(m, ikm, salt, info, long))
  {
    hide Stream, Extract, Blocks, IsMac;
    var prk := Extract(m, ikm, salt).value;
    Within(short, long, m.length);
    var k, n := Blocks(short, m.length), Blocks(long, m.length);
    StreamPrefix(m, prk, info, k, n);
    StreamLength(m, prk, info, k);
    StreamLength(m, prk, info, n);
  }

  // ----- the standard's equations -----

  /** Blocks that satisfy T(i) = HMAC(PRK, T(i - 1) | info | i). */
  ghost predicate Chain(m: Mac, prk: Bytes, info: Bytes, t: seq<Bytes>) {
    |t| <= 255 && forall i :: 0 <= i < |t| ==> Chained(m, prk, info, t, i)
  }

  predicate Chained(m: Mac, prk: Bytes, info: Bytes, t: seq<Bytes>, i: nat)
    requires i < |t| <= 255
  {
    m.hmac(prk, (if i == 0 then [] else t[i - 1]) + info + [(i + 1) as bv8]) == Some(t[i])
  }

  /** prk is extracted, and t are as many blocks as hold `length` bytes. */
  ghost predicate Expands(m: Mac, ikm: Bytes, salt: Bytes, info: Bytes, length: nat, prk: Bytes, t: seq<Bytes>) {
    && m.hmac(if salt == [] then seq(m.length, _ => 0) else salt, ikm) == Some(prk) && Chain(m, prk, info, t)
    && |t| * m.length >= length && (t != [] ==> (|t| - 1) * m.length < length)
  }

  lemma ChainShorter(m: Mac, prk: Bytes, info: Bytes, t: seq<Bytes>)
    requires Chain(m, prk, info, t) && t != []
    ensures Chain(m, prk, info, t[..|t| - 1])
  {
    var init := t[..|t| - 1];
    forall i | 0 <= i < |init|
      ensures Chained(m, prk, info, init, i)
    {
      assert Chained(m, prk, info, t, i);
    }
  }

  lemma {:induction false} ConcatMore(chunks: seq<Bytes>, b: Bytes)
    ensures Concat(chunks + [b]) == Concat(chunks) + b
  {
    if chunks == [] {
      assert [b][1..] == [] && [] + [b] == [b];
      assert b + [] == b && Concat([b]) == b + Concat([]);
    } else {
      ConcatMore(chunks[1..], b);
      assert (chunks + [b])[1..] == chunks[1..] + [b];
    }
  }

  lemma {:induction false} StreamOfChain(m: Mac, prk: Bytes, info: Bytes, t: seq<Bytes>)
    requires Chain(m, prk, info, t)
    ensures Stream(m, prk, info, |t|) == Some(Concat(t))
    ensures T(m, prk, info, |t|) == Some(if t == [] then [] else t[|t| - 1])
    decreases |t|
  {
    if t != [] {
      var init, last := t[..|t| - 1], t[|t| - 1];
      assert t == init + [last];
      ChainShorter(m, prk, info, t);
      StreamOfChain(m, prk, info, init);
      ConcatMore(init, last);
      assert Chained(m, prk, info, t, |t| - 1);
    }
  }

  lemma {:induction false} ChainOfStream(m: Mac, prk: Bytes, info: Bytes, n: nat) returns (t: seq<Bytes>)
    requires n < 256 && Stream(m, prk, info, n).Some?
    ensures |t| == n && Chain(m, prk, info, t)
  {
    if n == 0 { return []; }
    var init := ChainOfStream(m, prk, info, n - 1);
    StreamOfChain(m, prk, info, init);
    t := init + [T(m, prk, info, n).value];
    forall i | 0 <= i < n
      ensures Chained(m, prk, info, t, i)
    {
      if i < n - 1 { assert Chained(m, prk, info, init, i); }
    }
  }

  lemma BlocksOnce(length: nat, each: nat, n: nat)
    requires each > 0 && n * each >= length && (n > 0 ==> (n - 1) * each < length)
    ensures Blocks(length, each) == n
  {
    hide Blocks;
    var k := Blocks(length, each);
    if k < n { Monotone(k, n - 1, each); }
    if n < k { Monotone(n, k - 1, each); }
  }

  /** What is derived is the first bytes of any blocks that satisfy the equations. */
  lemma DerivedIs(m: Mac, ikm: Bytes, salt: Bytes, info: Bytes, length: nat, prk: Bytes, t: seq<Bytes>)
    requires IsMac(m) && m.length > 0 && Expands(m, ikm, salt, info, length, prk, t)
    ensures |Concat(t)| >= length && Derived(m, ikm, salt, info, length) == Some(Concat(t)[..length])
  {
    hide Stream, T, Blocks, Chain;
    BlocksOnce(length, m.length, |t|);
    StreamOfChain(m, prk, info, t);
    AtMost255(m, prk, info, t);
    StreamLength(m, prk, info, |t|);
    ExtractIs(m, ikm, salt);
    Monotone(|t|, 255, m.length);
  }

  lemma AtMost255(m: Mac, prk: Bytes, info: Bytes, t: seq<Bytes>)
    requires Chain(m, prk, info, t)
    ensures |t| <= 255
  {
  }

  lemma ExtractIs(m: Mac, ikm: Bytes, salt: Bytes)
    ensures Extract(m, ikm, salt) == m.hmac(if salt == [] then seq(m.length, _ => 0) else salt, ikm)
  {
    assert Zeros(m.length) == seq(m.length, _ => 0);
  }

  /** And nothing is derived exactly for an unknown hash, past 255 blocks, or if some
      call of HMAC fails before there are enough. */
  lemma DerivedWhen(m: Mac, ikm: Bytes, salt: Bytes, info: Bytes, length: nat)
    requires IsMac(m)
    ensures Derived(m, ikm, salt, info, length) == None
        <==> m.length == 0 || length > 255 * m.length || !exists prk, t :: Expands(m, ikm, salt, info, length, prk, t)
  {
    hide Stream, T, Blocks, Chain;
    if m.length > 0 && length <= 255 * m.length {
      if prk, t :| Expands(m, ikm, salt, info, length, prk, t) {
        DerivedIs(m, ikm, salt, info, length, prk, t);
      }
      if Derived(m, ikm, salt, info, length).Some? {
        ExtractIs(m, ikm, salt);
        var prk, n := Extract(m, ikm, salt).value, Blocks(length, m.length);
        FewBlocks(m, length);
        var t := ChainOfStream(m, prk, info, n);
        assert Expands(m, ikm, salt, info, length, prk, t);
      }
    }
  }
}
