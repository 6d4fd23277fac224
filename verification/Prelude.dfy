/**
 Notions shared by every component: 64-bit unsigned arithmetic as the counters
 use it, optional values, and finite sums.
 */
module Prelude {

  datatype Option<+T> = None | Some(value: T)

  const U64: nat := 0x1_0000_0000_0000_0000

  /** A system time holds fewer seconds than this; adding up to more panics. */
  const TIME_LIMIT: nat := 0x8000_0000_0000_0000

  /** A value of the counters' 64-bit unsigned integer type. */
  type u64 = n: nat | n < 0x1_0000_0000_0000_0000

  type Byte = n: nat | n < 256

  /** What an atomic `fetch_add` stores: addition modulo 2^64. */
  function Wrap(n: nat): u64 {
    if n < U64 then n else n % U64
  }

  function SaturatingAdd(a: u64, b: u64): u64 {
    if a + b < U64 then a + b else U64 - 1
  }

  function SaturatingSub(a: nat, b: nat): nat {
    if a < b then 0 else a - b
  }

  function Min(a: nat, b: nat): nat {
    if a < b then a else b
  }

  function Max(a: nat, b: nat): nat {
    if a < b then b else a
  }

  lemma {:induction false} WrapAdd(a: nat, b: nat)
    ensures Wrap(Wrap(a) + b) == Wrap(a + b)
  {
    assert a == U64 * (a / U64) + a % U64;
    ModShift(a % U64 + b, a / U64);
  }

  /** Adding something is seen exactly when it is not a multiple of 2^64. */
  lemma {:induction false} WrapCancels(x: nat, d: nat)
    ensures Wrap(x + d) == Wrap(x) <==> Wrap(d) == 0
  {
    WrapAdd(x, d);
    WrapAdd(d, Wrap(x));
  }

  lemma {:induction false} ModShift(r: nat, q: nat)
    ensures (r + U64 * q) % U64 == r % U64
    decreases q
  {
    if q == 0 {
    } else {
      ModShift(r, q - 1);
      var x := r + U64 * (q - 1);
      assert r + U64 * q == x + U64;
      assert (x + U64) % U64 == x % U64;
    }
  }

  /** Sum of `f` over the indices below `n`. */
  ghost function SumTo(n: nat, f: nat -> nat): nat {
    if n == 0 then 0 else SumTo(n - 1, f) + f(n - 1)
  }

  /** Two index functions that agree below `n` have the same sum. */
  lemma {:induction false} SumToAgree(n: nat, f: nat -> nat, g: nat -> nat)
    requires forall i :: 0 <= i < n ==> f(i) == g(i)
    ensures SumTo(n, f) == SumTo(n, g)
  {
    if n == 0 {
    } else {
      SumToAgree(n - 1, f, g);
    }
  }

  /** Changing one index by some amount changes the sum by that amount. */
  lemma {:induction false} SumToChange(n: nat, f: nat -> nat, g: nat -> nat, k: nat)
    requires k < n
    requires forall i :: 0 <= i < n && i != k ==> f(i) == g(i)
    ensures SumTo(n, g) == SumTo(n, f) - f(k) + g(k)
  {
    if k == n - 1 {
      SumToAgree(n - 1, f, g);
    } else {
      SumToChange(n - 1, f, g, k);
    }
  }

  lemma {:induction false} SumToZero(n: nat, f: nat -> nat)
    requires forall i :: 0 <= i < n ==> f(i) == 0
    ensures SumTo(n, f) == 0
  {
    if n == 0 {
    } else {
      SumToZero(n - 1, f);
    }
  }

  /** Index-wise ordering carries over to sums. */
  lemma {:induction false} SumToMonotone(n: nat, f: nat -> nat, g: nat -> nat)
    requires forall i :: 0 <= i < n ==> f(i) <= g(i)
    ensures SumTo(n, f) <= SumTo(n, g)
  {
    if n == 0 {
    } else {
      SumToMonotone(n - 1, f, g);
    }
  }
}
