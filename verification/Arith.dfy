/** Sums over counters and the index arithmetic of clients and their lists. */
module Arith {
  import opened Types

  /** size_t addition, subtraction and multiplication wrap around. */
  function Add(a: nat, b: nat): (w: nat)
    ensures w < WORD
  {
    (a + b) % WORD
  }

  function Sub(a: nat, b: nat): (w: nat)
    ensures w < WORD
  {
    (a - b) % WORD
  }

  function Mul(a: nat, b: nat): (w: nat)
    ensures w < WORD
  {
    (a * b) % WORD
  }

  lemma AddWraps(s: nat, x: nat)
    ensures Add(s % WORD, x) == (s + x) % WORD
  {
  }

  lemma Unwrapped(x: nat)
    requires x < WORD
    ensures x % WORD == x
  {
  }

  lemma MulUnwrapped(a: nat, b: nat)
    requires a * b < WORD
    ensures Mul(a, b) == a * b
  {
    Unwrapped(a * b);
  }

  lemma SubWraps(a: nat, u: nat, free: nat, k: int)
    requires a < WORD && free < WORD && a - u == free + k * WORD
    ensures Sub(a, u % WORD) == free
  {
    var m := u / WORD;
    assert a - u % WORD == free + (k + m) * WORD;
  }

  /** Replacing one wrapped summand shifts a wrapped sum. */
  lemma SumShift(sum: nat, u: nat, step: nat, total: nat)
    requires u <= sum && sum % WORD == total && total + step < WORD
    ensures (sum - u + Add(u, step)) % WORD == total + step
  {
    var k, m := sum / WORD, (u + step) / WORD;
    assert sum - u + Add(u, step) == (k - m) * WORD + total + step;
  }

  lemma SumUnshift(sum: nat, u: nat, step: nat, total: nat)
    requires u <= sum && sum % WORD == total && step <= total
    ensures (sum - u + Sub(u, step)) % WORD == total - step
  {
    var k, m := sum / WORD, (u - step) / WORD;
    assert sum - u + Sub(u, step) == (k - m) * WORD + total - step;
  }

  lemma {:induction false} SumHas(s: seq<nat>, lo: nat, hi: nat, i: nat)
    requires lo <= i < hi <= |s|
    ensures s[i] <= Sum(s, lo, hi)
    decreases hi
  {
    if i < hi - 1 { SumHas(s, lo, hi - 1, i); }
  }

  function Sum(s: seq<nat>, lo: nat, hi: nat): nat
    requires lo <= hi <= |s|
    decreases hi
  {
    if lo == hi then 0 else Sum(s, lo, hi - 1) + s[hi - 1]
  }

  lemma {:induction false} SumUpdate(s: seq<nat>, lo: nat, hi: nat, i: nat, v: nat)
    requires lo <= hi <= |s| && i < |s|
    ensures Sum(s[i := v], lo, hi) == if lo <= i < hi then Sum(s, lo, hi) - s[i] + v else Sum(s, lo, hi)
    decreases hi
  {
    if lo < hi { SumUpdate(s, lo, hi - 1, i, v); }
  }

  lemma {:induction false} SumSame(s: seq<nat>, t: seq<nat>, lo: nat, hi: nat)
    requires lo <= hi <= |s| && hi <= |t|
    requires forall i :: lo <= i < hi ==> s[i] == t[i]
    ensures Sum(s, lo, hi) == Sum(t, lo, hi)
    decreases hi
  {
    if lo < hi { SumSame(s, t, lo, hi - 1); }
  }

  /** List q of client c of n clients with p lists each. */
  function Fl(c: nat, q: nat, p: nat): nat {
    c * p + q
  }

  lemma FlBound(c: nat, q: nat, n: nat, p: nat)
    requires c < n && q < p
    ensures Fl(c, q, p) < n * p && Fl(c, p, p) <= n * p
  {
    assert (c + 1) * p <= n * p;
  }

  lemma FlEnds(c: nat, n: nat, p: nat)
    requires c < n
    ensures c * p + p <= n * p
  {
    assert (c + 1) * p <= n * p;
  }

  /** A list belongs to one client only. */
  lemma FlOwner(c: nat, q: nat, d: nat, p: nat)
    requires q < p
    ensures Fl(d, 0, p) <= Fl(c, q, p) < Fl(d, p, p) <==> c == d
  {
    if c < d { assert (c + 1) * p <= d * p; }
    if d < c { assert (d + 1) * p <= c * p; }
  }

  lemma MulMonotone(a: nat, b: nat, c: nat)
    ensures a <= b ==> a * c <= b * c
  {
  }

  lemma MulNext(a: nat, c: nat)
    ensures (a + 1) * c == a * c + c
  {
  }

  /** The client and queue of a list. */
  lemma FlClient(fl: nat, n: nat, p: nat)
    requires p > 0 && fl < n * p
    ensures fl / p < n && fl % p < p && Fl(fl / p, fl % p, p) == fl
  {
    var c := fl / p;
    assert fl == c * p + fl % p;
    MulMonotone(n, c, p);
  }

  /** Quotient and remainder are the only ones. */
  lemma Quotient(q: nat, n: nat, x: nat)
    requires x < n
    ensures (q * n + x) / n == q && (q * n + x) % n == x
  {
    var y := q * n + x;
    var p := y / n;
    assert y == p * n + y % n;
    MulMonotone(p + 1, q, n);
    MulMonotone(q + 1, p, n);
    MulNext(p, n);
    MulNext(q, n);
  }
}
