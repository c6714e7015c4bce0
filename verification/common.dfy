/**
 Shared vocabulary of the model: Python's `None`-or-value results, raised
 errors, and sums over sequences of numbers.
 */
module Common {

  /** A value that may be absent (Python's `Optional[...]`, `None`). */
  datatype Option<+T> = None | Some(value: T) {
    function GetOr(default: T): T {
      match this
      case Some(v) => v
      case None => default
    }
  }

  /** A computation that either returns a value or raises an error with a message. */
  datatype Result<+T> = Ok(value: T) | Err(message: string)

  /** Python's `min(a, b)` on integers. */
  function Min(a: int, b: int): int
  {
    if a <= b then a else b
  }

  /** Sum of a sequence of reals (Python's `sum(...)` over floats). */
  function SumReal(s: seq<real>): real
  {
    if |s| == 0 then 0.0 else SumReal(s[..|s| - 1]) + s[|s| - 1]
  }

  /** Sum of a sequence of naturals (Python's `sum(...)` over ints). */
  function SumNat(s: seq<nat>): nat
  {
    if |s| == 0 then 0 else SumNat(s[..|s| - 1]) + s[|s| - 1]
  }

  /** The arithmetic mean, guarded against an empty divisor the way the source guards it. */
  function Mean(s: seq<real>): real
  {
    if |s| == 0 then 0.0 else SumReal(s) / (|s| as real)
  }

  /** The mean of three values is their sum over three. */
  lemma MeanOfThree(a: real, b: real, c: real)
    ensures Mean([a, b, c]) == (a + b + c) / 3.0
  {
    var s := [a, b, c];
    assert s[..2] == [a, b] && [a, b][..1] == [a] && [a][..0] == [];
    assert SumReal([a]) == a;
    assert SumReal([a, b]) == a + b;
    assert SumReal(s) == a + b + c;
  }

  lemma {:induction false} SumRealAppend(s: seq<real>, t: seq<real>)
    ensures SumReal(s + t) == SumReal(s) + SumReal(t)
    decreases |t|
  {
    if |t| == 0 {
      assert s + t == s;
    } else {
      assert (s + t)[..|s + t| - 1] == s + t[..|t| - 1];
      SumRealAppend(s, t[..|t| - 1]);
    }
  }

  lemma {:induction false} SumNatAppend(s: seq<nat>, t: seq<nat>)
    ensures SumNat(s + t) == SumNat(s) + SumNat(t)
    decreases |t|
  {
    if |t| == 0 {
      assert s + t == s;
    } else {
      assert (s + t)[..|s + t| - 1] == s + t[..|t| - 1];
      SumNatAppend(s, t[..|t| - 1]);
    }
  }

  /** Appending one element adds it to the sum. */
  lemma SumNatSnoc(s: seq<nat>, x: nat)
    ensures SumNat(s + [x]) == SumNat(s) + x
  {
    assert (s + [x])[..|s|] == s;
  }

  /** Appending one element adds it to the sum. */
  lemma SumRealSnoc(s: seq<real>, x: real)
    ensures SumReal(s + [x]) == SumReal(s) + x
  {
    assert (s + [x])[..|s|] == s;
  }

  /** Every element at least `lo` puts the sum at least `n * lo`. */
  lemma {:induction false} SumNatLowerBound(s: seq<nat>, lo: nat)
    requires forall i :: 0 <= i < |s| ==> lo <= s[i]
    ensures |s| * lo <= SumNat(s)
    decreases |s|
  {
    if |s| > 0 {
      SumNatLowerBound(s[..|s| - 1], lo);
      assert |s| * lo == (|s| - 1) * lo + lo;
    }
  }

  /** Every element within [lo, hi] puts the sum within [n*lo, n*hi]. */
  lemma {:induction false} SumRealBounds(s: seq<real>, lo: real, hi: real)
    requires forall i :: 0 <= i < |s| ==> lo <= s[i] <= hi
    ensures (|s| as real) * lo <= SumReal(s) <= (|s| as real) * hi
    decreases |s|
  {
    if |s| > 0 {
      var m := (|s| - 1) as real;
      SumRealBounds(s[..|s| - 1], lo, hi);
      assert (|s| as real) * lo == m * lo + lo;
      assert (|s| as real) * hi == m * hi + hi;
    }
  }

  /** The mean of values drawn from [lo, hi] stays within [lo, hi]. */
  lemma MeanBounds(s: seq<real>, lo: real, hi: real)
    requires |s| > 0
    requires forall i :: 0 <= i < |s| ==> lo <= s[i] <= hi
    ensures lo <= Mean(s) <= hi
  {
    SumRealBounds(s, lo, hi);
    var n := |s| as real;
    assert n * lo <= SumReal(s) <= n * hi;
    assert SumReal(s) / n >= lo by {
      assert SumReal(s) >= n * lo;
    }
    assert SumReal(s) / n <= hi by {
      assert SumReal(s) <= n * hi;
    }
  }

  /** A quotient is determined by any value that multiplies back to the dividend. */
  lemma DivideExact(a: real, b: real, q: real)
    requires b > 0.0 && q * b == a
    ensures a / b == q
  {
  }

  /** Dividing by a positive number and multiplying back is the identity. */
  lemma DivideMultiply(a: real, b: real)
    requires b > 0.0
    ensures (a / b) * b == a
  {
  }

  /** Python's true division `t / n` of two counts. */
  function Ratio(t: nat, n: nat): (r: real)
    requires n > 0
    ensures r >= 0.0
  {
    (t as real) / (n as real)
  }

  /** A ratio of counts multiplies back to the dividend. */
  lemma RatioTimes(t: nat, n: nat)
    requires n > 0
    ensures Ratio(t, n) * (n as real) == t as real
  {
    DivideMultiply(t as real, n as real);
  }

  /** Any value equal to a ratio of counts multiplies back to the dividend. */
  lemma RatioTimesEq(r: real, t: nat, n: nat)
    requires n > 0 && r == Ratio(t, n)
    ensures r * (n as real) == t as real
  {
    RatioTimes(t, n);
  }

  /** A part over a whole that holds it lies in [0, 1]. */
  lemma RatioWithin(a: real, b: real)
    requires 0.0 <= a <= b && b > 0.0
    ensures 0.0 <= a / b <= 1.0
  {
    DivideMultiply(a, b);
  }
}
