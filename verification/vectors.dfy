/** Dense real vectors and index lists, with the summation facts the
    scoring engine's conservation proofs rest on. `double` is modelled as
    `real`, so every sum is exact and independent of the order in which
    the source adds its terms. */
module Vectors {

  /** Sum of the first `k` entries of `s`, added left to right. */
  function SumTo(s: seq<real>, k: nat): real
    requires k <= |s|
  {
    if k == 0 then 0.0 else SumTo(s, k - 1) + s[k - 1]
  }

  function Sum(s: seq<real>): real {
    SumTo(s, |s|)
  }

  function Zeros(n: nat): seq<real> {
    seq(n, _ => 0.0)
  }

  predicate NonNegative(s: seq<real>) {
    forall i :: 0 <= i < |s| ==> 0.0 <= s[i]
  }

  predicate Positive(s: seq<real>) {
    forall i :: 0 <= i < |s| ==> 0.0 < s[i]
  }

  /** Every entry of `xs` is a valid index into a vector of length `n`. */
  predicate InRange(xs: seq<int>, n: int) {
    forall j :: 0 <= j < |xs| ==> 0 <= xs[j] < n
  }

  /** How many times `x` appears in `xs`. */
  function Occurrences(xs: seq<int>, x: int): nat {
    if |xs| == 0 then 0 else (if xs[0] == x then 1 else 0) + Occurrences(xs[1..], x)
  }

  /** `amount` added once for every listing of `x` in `xs`. */
  function Repeated(xs: seq<int>, x: int, amount: real): real {
    if |xs| == 0 then 0.0 else (if xs[0] == x then amount else 0.0) + Repeated(xs[1..], x, amount)
  }

  lemma {:induction false} RepeatedIsScaled(xs: seq<int>, x: int, amount: real)
    ensures Repeated(xs, x, amount) == amount * Occurrences(xs, x) as real
  {
    if |xs| > 0 {
      RepeatedIsScaled(xs[1..], x, amount);
    }
  }

  lemma {:induction false} RepeatedNonNegative(xs: seq<int>, x: int, amount: real)
    requires 0.0 <= amount
    ensures 0.0 <= Repeated(xs, x, amount)
  {
    if |xs| > 0 {
      RepeatedNonNegative(xs[1..], x, amount);
    }
  }

  /** `n` copies of `amount`, added one at a time. */
  function Copies(amount: real, n: nat): real {
    if n == 0 then 0.0 else Copies(amount, n - 1) + amount
  }

  lemma {:induction false} CopiesIsScaled(amount: real, n: nat)
    ensures Copies(amount, n) == amount * n as real
  {
    if n > 0 {
      CopiesIsScaled(amount, n - 1);
      assert amount * (n - 1) as real + amount == amount * n as real;
    }
  }

  /** Copies can be peeled off the front as well as the back. */
  lemma {:induction false} CopiesFirst(amount: real, n: nat)
    ensures Copies(amount, n + 1) == amount + Copies(amount, n)
  {
    if n > 0 {
      CopiesFirst(amount, n - 1);
    }
  }

  /** `m` equal shares of `total` add back up to `total`. */
  lemma EqualSharesAddUp(total: real, m: nat)
    requires 0 < m
    ensures Copies(total / m as real, m) == total
  {
    CopiesIsScaled(total / m as real, m);
  }

  /** Bounds on a total of `e` terms bound their average. */
  lemma QuotientBounds(total: real, e: real, lo: real, hi: real)
    requires 0.0 < e && lo * e <= total <= hi * e
    ensures lo <= total / e <= hi
  {
    assert total / e * e == total;
  }

  /** A total between `m` copies of `lo` and `m` copies of `hi` has an
      average between `lo` and `hi`. */
  lemma AverageOfBounded(total: real, m: nat, lo: real, hi: real)
    requires 0 < m && Copies(lo, m) <= total <= Copies(hi, m)
    ensures lo <= total / m as real <= hi
  {
    CopiesIsScaled(lo, m);
    CopiesIsScaled(hi, m);
    QuotientBounds(total, m as real, lo, hi);
  }

  /** Sum of `w[i]` over the indices `i` listed in `idx`, a repeated index
      counted once per repetition. */
  function SumAt(w: seq<real>, idx: seq<int>): real
    requires InRange(idx, |w|)
  {
    if |idx| == 0 then 0.0 else w[idx[0]] + SumAt(w, idx[1..])
  }

  /** Entries between `lo` and `hi` give an indexed total between as many
      copies of `lo` and of `hi` as there are indices. */
  lemma {:induction false} SumAtBounds(w: seq<real>, idx: seq<int>, lo: real, hi: real)
    requires InRange(idx, |w|)
    requires forall j :: 0 <= j < |idx| ==> lo <= w[idx[j]] <= hi
    ensures Copies(lo, |idx|) <= SumAt(w, idx) <= Copies(hi, |idx|)
    decreases |idx|
  {
    if |idx| > 0 {
      var rest := idx[1..];
      assert InRange(rest, |w|);
      forall j | 0 <= j < |rest|
        ensures lo <= w[rest[j]] <= hi
      {
        assert rest[j] == idx[j + 1];
      }
      SumAtBounds(w, rest, lo, hi);
      CopiesFirst(lo, |rest|);
      CopiesFirst(hi, |rest|);
    }
  }

  function Abs(x: real): real {
    if x < 0.0 then -x else x
  }

  lemma SingleEntrySum(v: seq<real>)
    requires |v| == 1
    ensures Sum(v) == v[0]
  {
    assert Sum(v) == SumTo(v, 0) + v[0];
  }

  /** Changing one entry changes a prefix sum that covers it by the difference. */
  lemma {:induction false} SumToUpdate(s: seq<real>, i: int, v: real, k: nat)
    requires 0 <= i < |s| && k <= |s|
    ensures SumTo(s[i := v], k) == SumTo(s, k) + (if i < k then v - s[i] else 0.0)
  {
    if k > 0 {
      SumToUpdate(s, i, v, k - 1);
    }
  }

  lemma SumUpdate(s: seq<real>, i: int, v: real)
    requires 0 <= i < |s|
    ensures Sum(s[i := v]) == Sum(s) - s[i] + v
  {
    SumToUpdate(s, i, v, |s|);
  }

  /** Prefix sums are linear in the vector. */
  lemma {:induction false} SumToLinear(r: seq<real>, u: seq<real>, v: seq<real>, x: real, y: real, k: nat)
    requires k <= |r| && k <= |u| && k <= |v|
    requires forall i :: 0 <= i < k ==> r[i] == x * u[i] + y * v[i]
    ensures SumTo(r, k) == x * SumTo(u, k) + y * SumTo(v, k)
  {
    if k > 0 {
      SumToLinear(r, u, v, x, y, k - 1);
      calc {
        SumTo(r, k);
        SumTo(r, k - 1) + r[k - 1];
        x * SumTo(u, k - 1) + y * SumTo(v, k - 1) + (x * u[k - 1] + y * v[k - 1]);
        x * (SumTo(u, k - 1) + u[k - 1]) + y * (SumTo(v, k - 1) + v[k - 1]);
      }
    }
  }

  lemma {:induction false} SumToNonNegative(s: seq<real>, k: nat)
    requires k <= |s| && NonNegative(s)
    ensures 0.0 <= SumTo(s, k)
  {
    if k > 0 {
      SumToNonNegative(s, k - 1);
    }
  }

  lemma {:induction false} SumToPositive(s: seq<real>, k: nat)
    requires 0 < k <= |s| && Positive(s)
    ensures 0.0 < SumTo(s, k)
  {
    if k > 1 {
      SumToPositive(s, k - 1);
    }
  }

  /** A prefix sum of non-negative entries is zero exactly when each entry is. */
  lemma {:induction false} SumToZero(s: seq<real>, k: nat)
    requires k <= |s| && NonNegative(s)
    ensures SumTo(s, k) == 0.0 <==> forall i :: 0 <= i < k ==> s[i] == 0.0
  {
    if k > 0 {
      SumToZero(s, k - 1);
      SumToNonNegative(s, k - 1);
    }
  }

  /** `k` copies of `c` sum to `k * c`. */
  lemma {:induction false} SumToConstant(s: seq<real>, c: real, k: nat)
    requires k <= |s|
    requires forall i :: 0 <= i < |s| ==> s[i] == c
    ensures SumTo(s, k) == k as real * c
  {
    if k > 0 {
      SumToConstant(s, c, k - 1);
      assert (k - 1) as real * c + c == k as real * c;
    }
  }

  lemma {:induction false} SumAtNonNegative(w: seq<real>, idx: seq<int>)
    requires InRange(idx, |w|) && NonNegative(w)
    ensures 0.0 <= SumAt(w, idx)
    decreases |idx|
  {
    if |idx| > 0 {
      SumAtNonNegative(w, idx[1..]);
    }
  }

  lemma {:induction false} SumAtPositive(w: seq<real>, idx: seq<int>)
    requires InRange(idx, |w|) && Positive(w) && 0 < |idx|
    ensures 0.0 < SumAt(w, idx)
    decreases |idx|
  {
    if |idx| > 1 {
      SumAtPositive(w, idx[1..]);
    } else {
      assert idx[1..] == [];
    }
  }
}
