/**
 * The digit reducer `reduce_to_single_digit`: repeatedly replace a
 * non-negative integer by the sum of its decimal digits until it is at most 9.
 */
module DigitalRoot {

  /** Sum of the decimal digits of `n`, i.e. of the characters of `str(n)`. */
  function DigitSum(n: nat): nat
  {
    if n < 10 then n else n % 10 + DigitSum(n / 10)
  }

  lemma {:induction false} DigitSumBounded(n: nat)
    ensures DigitSum(n) <= n
    ensures n > 9 ==> DigitSum(n) < n
  {
    if n >= 10 {
      DigitSumBounded(n / 10);
    }
  }

  lemma AddNines(k: nat, a: nat)
    ensures (9 * k + a) % 9 == a % 9
  {
  }

  /** Casting out nines: the digit sum keeps the residue modulo 9. */
  lemma {:induction false} DigitSumMod9(n: nat)
    ensures DigitSum(n) % 9 == n % 9
  {
    if n >= 10 {
      var q, r := n / 10, n % 10;
      var s := DigitSum(q);
      DigitSumMod9(q);
      assert DigitSum(n) == 9 * (s / 9) + (r + q % 9);
      AddNines(s / 9, r + q % 9);
      assert n == 9 * (q + q / 9) + (r + q % 9);
      AddNines(q + q / 9, r + q % 9);
    }
  }

  lemma {:induction false} DigitSumZero(n: nat)
    ensures DigitSum(n) == 0 <==> n == 0
  {
    if n >= 10 {
      DigitSumZero(n / 10);
    }
  }

  /** The value the Python `while number > 9` loop ends with. */
  function Reduce(n: nat): nat
    decreases n
  {
    if n <= 9 then n else DigitSumBounded(n); Reduce(DigitSum(n))
  }

  /** Independent closed form of the digital root; 0 stays 0. */
  function Root(n: nat): nat
  {
    if n == 0 then 0 else 1 + (n - 1) % 9
  }

  lemma {:induction false} ReduceIsRoot(n: nat)
    ensures Reduce(n) == Root(n)
    decreases n
  {
    if n > 9 {
      var d := DigitSum(n);
      DigitSumBounded(n);
      DigitSumMod9(n);
      DigitSumZero(n);
      ReduceIsRoot(d);
      assert d == 9 * (d / 9) + n % 9;
      assert n == 9 * (n / 9) + n % 9;
      SameResidueSameRoot(d, n);
    }
  }

  lemma SameResidueSameRoot(a: nat, b: nat)
    requires a > 0 && b > 0 && a % 9 == b % 9
    ensures Root(a) == Root(b)
  {
    assert a == 9 * (a / 9) + a % 9;
    assert b == 9 * (b / 9) + b % 9;
    if a % 9 == 0 {
      assert a - 1 == 9 * (a / 9 - 1) + 8;
      assert b - 1 == 9 * (b / 9 - 1) + 8;
    } else {
      assert a - 1 == 9 * (a / 9) + (a % 9 - 1);
      assert b - 1 == 9 * (b / 9) + (b % 9 - 1);
    }
  }

  /** The reducer lands in [0, 9], and reaches 0 only from 0. */
  lemma {:induction false} ReduceRange(n: nat)
    ensures Reduce(n) <= 9
    ensures Reduce(n) == 0 <==> n == 0
  {
    ReduceIsRoot(n);
  }

  lemma {:induction false} ReduceIdempotent(n: nat)
    ensures Reduce(Reduce(n)) == Reduce(n)
  {
    ReduceRange(n);
  }

  /** `reduce_to_single_digit`, with the loop of the source. */
  method ReduceToSingleDigit(number: nat) returns (r: nat)
    ensures r == Reduce(number)
    ensures r <= 9
    ensures r == 0 <==> number == 0
    ensures number > 0 ==> r == 1 + (number - 1) % 9
  {
    r := number;
    while r > 9
      invariant Reduce(r) == Reduce(number)
      decreases r
    {
      DigitSumBounded(r);
      r := DigitSum(r);
    }
    ReduceIsRoot(number);
  }
}
