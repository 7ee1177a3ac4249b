/** Division facts the byte-level proofs lean on. */
module Arith {

  function Pow2(n: nat): (p: nat)
    ensures p >= 1
  {
    if n == 0 then 1 else 2 * Pow2(n - 1)
  }

  lemma {:induction false} Pow2Add(m: nat, n: nat)
    ensures Pow2(m + n) == Pow2(m) * Pow2(n)
  {
    if n > 0 {
      Pow2Add(m, n - 1);
      assert Pow2(m + n) == 2 * Pow2(m + (n - 1));
      Associate(Pow2(m), 2, Pow2(n - 1));
    }
  }

  lemma Associate(a: nat, b: nat, c: nat)
    ensures b * (a * c) == a * (b * c)
  {
  }

  lemma {:induction false} Pow2Monotone(m: nat, n: nat)
    requires m <= n
    ensures Pow2(m) <= Pow2(n)
  {
    if m < n { Pow2Monotone(m, n - 1); }
  }

  lemma MulBounds(n: nat, d: int)
    requires 0 < n
    ensures d >= 1 ==> n * d >= n
    ensures d <= -1 ==> n * d <= -(n as int)
  {
  }

  lemma ModUnique(t: int, n: nat, q: int, k: nat)
    requires 0 < n && t == n * q + k && k < n
    ensures t % n == k && t / n == q
  {
    MulBounds(n, q - t / n);
  }

  lemma DivTwice(t: nat, a: nat, b: nat)
    requires 0 < a && 0 < b
    ensures 0 < a * b && t / a / b == t / (a * b)
  {
    var q, r := t / a / b, t / a % b;
    assert t == a * (b * q + r) + t % a;
    assert a * (b * q) == (a * b) * q;
    assert a * r + t % a < a * b by {
      assert a * r + a == a * (r + 1);
      assert a * (r + 1) <= a * b;
    }
    ModUnique(t, a * b, q, a * r + t % a);
  }

  lemma Division(t: int, m: nat)
    requires 0 < m
    ensures t == m * (t / m) + t % m && 0 <= t % m < m
  {
  }

  /** (256h + l) mod 256m and (256h) mod 256m. */
  lemma ModShift(h: nat, l: nat, m: nat)
    requires 0 < m && l < 256
    ensures 0 < 256 * m && (256 * h + l) % (256 * m) == 256 * (h % m) + l
  {
    ModUnique(256 * h + l, 256 * m, h / m, 256 * (h % m) + l);
  }

  lemma ModAdd(a: int, n: nat, q: int)
    requires 0 < n
    ensures (a + n * q) % n == a % n
  {
    ModUnique(a + n * q, n, a / n + q, a % n);
  }
}
