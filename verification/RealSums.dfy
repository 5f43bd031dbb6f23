// Finite sums of reals: the arithmetic every numeric model in this project rests on.
module RealSums {

  function Abs(x: real): (r: real)
    ensures r >= 0.0 && (r == x || r == -x)
  {
    if x < 0.0 then -x else x
  }

  function Max(x: real, y: real): real { if x < y then y else x }

  function Min(x: real, y: real): real { if x < y then x else y }

  /** `s[i]`, or zero outside the sequence, so that it can be summed as a total function. */
  function At(s: seq<real>, i: int): real {
    if 0 <= i < |s| then s[i] else 0.0
  }

  /** Left-to-right sum of a sequence. */
  function Sum(s: seq<real>): real {
    if |s| == 0 then 0.0 else Sum(s[..|s| - 1]) + s[|s| - 1]
  }

  /** The sum of `f(0), ..., f(n - 1)`. */
  function SumF(f: int -> real, n: nat): real {
    if n == 0 then 0.0 else SumF(f, n - 1) + f(n - 1)
  }

  // Each lemma below takes the functions it relates as arguments and their relation as a
  // pointwise hypothesis, so that callers never have to equate two lambdas.

  lemma {:induction false} SumExt(f: int -> real, g: int -> real, n: nat)
    requires forall i :: 0 <= i < n ==> f(i) == g(i)
    ensures SumF(f, n) == SumF(g, n)
  {
    if n > 0 {
      SumExt(f, g, n - 1);
    }
  }

  lemma {:induction false} SumAdd(h: int -> real, f: int -> real, g: int -> real, n: nat)
    requires forall i :: 0 <= i < n ==> h(i) == f(i) + g(i)
    ensures SumF(h, n) == SumF(f, n) + SumF(g, n)
  {
    if n > 0 {
      SumAdd(h, f, g, n - 1);
    }
  }

  lemma {:induction false} SumScale(h: int -> real, c: real, f: int -> real, n: nat)
    requires forall i :: 0 <= i < n ==> h(i) == c * f(i)
    ensures SumF(h, n) == c * SumF(f, n)
  {
    if n > 0 {
      SumScale(h, c, f, n - 1);
    }
  }

  lemma {:induction false} SumMono(f: int -> real, g: int -> real, n: nat)
    requires forall i :: 0 <= i < n ==> f(i) <= g(i)
    ensures SumF(f, n) <= SumF(g, n)
  {
    if n > 0 {
      SumMono(f, g, n - 1);
    }
  }

  lemma NextMultiple(n: nat, c: real)
    ensures (n + 1) as real * c == n as real * c + c
    ensures 0 as real * c == 0.0
  {
    assert (n + 1) as real == n as real + 1.0;
  }

  lemma {:induction false} SumConst(c: real, f: int -> real, n: nat)
    requires forall i :: 0 <= i < n ==> f(i) == c
    ensures SumF(f, n) == n as real * c
  {
    if n > 0 {
      SumConst(c, f, n - 1);
      NextMultiple(n - 1, c);
    } else {
      NextMultiple(0, c);
    }
  }

  lemma ProductNonNegative(x: real, y: real)
    requires x >= 0.0 && y >= 0.0
    ensures x * y >= 0.0
  { }

  /** A product, named so that proofs can keep it symbolic. */
  function Mul(x: real, y: real): real { x * y }

  lemma MulPlus(c: real, x: real, y: real)
    ensures Mul(c, x + y) == Mul(c, x) + Mul(c, y)
    ensures Mul(c, 0.0) == 0.0
  { }

  lemma {:induction false} MulSum(h: int -> real, c: real, f: int -> real, n: nat)
    requires forall i :: 0 <= i < n ==> h(i) == Mul(c, f(i))
    ensures SumF(h, n) == Mul(c, SumF(f, n))
  {
    hide Mul;
    MulPlus(c, 0.0, 0.0);
    if n > 0 {
      MulSum(h, c, f, n - 1);
      MulPlus(c, SumF(f, n - 1), f(n - 1));
    }
  }

  // ---- tables ----

  type Table = (int, int) -> real

  function Row(m: Table, i: int, b: nat): real { SumF(j => m(i, j), b) }

  function Col(m: Table, j: int, a: nat): real { SumF(i => m(i, j), a) }

  function ByRows(m: Table, a: nat, b: nat): real { SumF(i => Row(m, i, b), a) }

  function ByCols(m: Table, a: nat, b: nat): real { SumF(j => Col(m, j, a), b) }

  /** Summing a table by rows or by columns gives the same total. */
  lemma {:induction false} SumSwap(m: Table, a: nat, b: nat)
    ensures ByRows(m, a, b) == ByCols(m, a, b)
  {
    if a == 0 {
      SumConst(0.0, j => Col(m, j, 0), b);
    } else {
      SumSwap(m, a - 1, b);
      SumAdd(j => Col(m, j, a), j => Col(m, j, a - 1), j => m(a - 1, j), b);
    }
  }

  /** The sum of an indicator picks out one term. */
  lemma {:induction false} SumSingle(f: int -> real, n: nat, k: int)
    requires 0 <= k < n
    requires forall i :: 0 <= i < n && i != k ==> f(i) == 0.0
    ensures SumF(f, n) == f(k)
  {
    if k == n - 1 {
      SumConst(0.0, f, n - 1);
    } else {
      SumSingle(f, n - 1, k);
    }
  }

  lemma {:induction false} SumSeq(s: seq<real>)
    ensures Sum(s) == SumF(i => At(s, i), |s|)
  {
    if |s| > 0 {
      var t := s[..|s| - 1];
      SumSeq(t);
      SumExt(i => At(s, i), i => At(t, i), |t|);
    }
  }

  lemma {:induction false} SumConcat(s: seq<real>, t: seq<real>)
    ensures Sum(s + t) == Sum(s) + Sum(t)
  {
    if |t| == 0 {
      assert s + t == s;
    } else {
      assert (s + t)[..|s + t| - 1] == s + t[..|t| - 1];
      SumConcat(s, t[..|t| - 1]);
    }
  }
}
