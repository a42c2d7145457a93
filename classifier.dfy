/** The numeric predicates of the classifier (index.py): primality by trial
    division, perfection, the Armstrong property and the digit sum. Each is
    proved against an independent mathematical definition. */
module Classifier {
  import opened Decimal

  // ---------------------------------------------------------------------------
  // is_prime

  /** The textbook definition: at least 2, and no divisor other than 1 and n. */
  predicate IsPrimeNumber(n: int) {
    n >= 2 && forall d :: 1 < d < n ==> n % d != 0
  }

  /** What trial division up to the integer square root decides. */
  ghost predicate TrialDivisionPrime(n: int) {
    n >= 2 && forall d :: 2 <= d && d * d <= n ==> n % d != 0
  }

  lemma MulMonotone(a: nat, b: nat, c: nat)
    requires a <= b
    ensures a * c <= b * c
  {
  }

  lemma SquareLess(e: nat, i: nat)
    requires e * e < i * i
    ensures e < i
  {
    if e >= i {
      MulMonotone(i, e, i);
      MulMonotone(i, e, e);
    }
  }

  lemma MulDivides(e: nat, d: nat)
    requires e > 0
    ensures (e * d) % e == 0
  {
    var n := e * d;
    var q, r := n / e, n % e;
    assert n == e * q + r && 0 <= r < e;
    assert e * (d - q) == r;
    if d - q >= 1 {
      MulMonotone(1, d - q, e);
    } else if d - q <= -1 {
      assert e * (q - d) == -r;
      MulMonotone(1, q - d, e);
    }
  }

  /** A composite number has a divisor no larger than its square root. */
  lemma SmallFactor(n: int, d: int) returns (e: int)
    requires 2 <= d < n && n % d == 0
    ensures 2 <= e && e * e <= n && n % e == 0
  {
    if d * d <= n {
      e := d;
      return;
    }
    e := n / d;
    assert n == d * e;
    assert e >= 2 by {
      if e <= 1 {
        MulMonotone(e, 1, d);
      }
    }
    assert e <= d by {
      if e > d {
        MulMonotone(d, e, d);
      }
    }
    MulMonotone(e, d, e);
    MulDivides(e, d);
  }

  /** Trial division up to the square root decides primality. */
  lemma TrialDivisionIff(n: int)
    ensures TrialDivisionPrime(n) <==> IsPrimeNumber(n)
  {
    if TrialDivisionPrime(n) && !IsPrimeNumber(n) {
      var d :| 1 < d < n && n % d == 0;
      var e := SmallFactor(n, d);
      assert false;
    }
    if IsPrimeNumber(n) {
      forall d | 2 <= d && d * d <= n
        ensures n % d != 0
      {
        MulMonotone(2, d, d);
      }
    }
  }

  /** `is_prime(n)`: false below 2, otherwise the loop tries every i with
      i * i <= n and stops at the first one that divides n. */
  method IsPrime(n: int) returns (r: bool)
    ensures r <==> TrialDivisionPrime(n)
    ensures r <==> IsPrimeNumber(n)
  {
    TrialDivisionIff(n);
    if n < 2 {
      return false;
    }
    var i := 2;
    while i * i <= n
      invariant 2 <= i
      invariant forall d :: 2 <= d < i ==> n % d != 0
      decreases n - i
    {
      MulMonotone(1, i, i);
      if n % i == 0 {
        return false;
      }
      i := i + 1;
    }
    forall d | 2 <= d && d * d <= n
      ensures n % d != 0
    {
      SquareLess(d, i);
    }
    return true;
  }

  lemma PrimeExamples()
    ensures TrialDivisionPrime(2) && TrialDivisionPrime(17)
    ensures !TrialDivisionPrime(1) && !TrialDivisionPrime(18)
  {
    forall d | 2 <= d && d * d <= 17
      ensures 17 % d != 0
    {
      if d >= 5 {
        MulMonotone(5, d, d);
        assert false;
      }
      assert d == 2 || d == 3 || d == 4;
    }
    assert 18 % 2 == 0;
  }

  // ---------------------------------------------------------------------------
  // is_perfect

  /** `sum(i for i in range(1, k) if n % i == 0)` */
  function DivisorSumBelow(n: int, k: nat): (r: nat) {
    if k <= 1 then 0 else DivisorSumBelow(n, k - 1) + (if n % (k - 1) == 0 then k - 1 else 0)
  }

  /** The divisors of n in [1, k), in increasing order. */
  function DivisorsBelow(n: int, k: nat): (ds: seq<nat>)
    ensures forall d :: d in ds <==> 1 <= d < k && n % d == 0
    ensures forall i :: 0 <= i < |ds| ==> ds[i] < k
    ensures forall i, j :: 0 <= i < j < |ds| ==> ds[i] < ds[j]
  {
    if k <= 1 then []
    else if n % (k - 1) == 0 then DivisorsBelow(n, k - 1) + [k - 1]
    else DivisorsBelow(n, k - 1)
  }

  function Sum(xs: seq<nat>): (r: nat) {
    if xs == [] then 0 else Sum(xs[..|xs| - 1]) + xs[|xs| - 1]
  }

  lemma SumSnoc(xs: seq<nat>, x: nat)
    ensures Sum(xs + [x]) == Sum(xs) + x
  {
    assert (xs + [x])[..|xs|] == xs;
  }

  /** The comprehension sums exactly the divisors of n below k. */
  lemma {:induction false} DivisorSumIsSumOfDivisors(n: int, k: nat)
    ensures DivisorSumBelow(n, k) == Sum(DivisorsBelow(n, k))
  {
    if k > 1 {
      DivisorSumIsSumOfDivisors(n, k - 1);
      if n % (k - 1) == 0 {
        SumSnoc(DivisorsBelow(n, k - 1), k - 1);
      }
    }
  }

  /** `is_perfect(n)`: n equals the sum of `range(1, n)`'s divisors of n. */
  predicate IsPerfect(n: int) {
    n == DivisorSumBelow(n, if n < 0 then 0 else n)
  }

  /** is_perfect(n) holds iff n is the sum of its divisors in [1, n - 1]. */
  lemma PerfectIff(n: nat)
    ensures IsPerfect(n) <==> n == Sum(DivisorsBelow(n, n))
  {
    DivisorSumIsSumOfDivisors(n, n);
  }

  lemma {:induction false} PrimeDivisorSum(p: int, k: nat)
    requires IsPrimeNumber(p) && 2 <= k <= p
    ensures DivisorSumBelow(p, k) == 1
  {
    if k > 2 {
      PrimeDivisorSum(p, k - 1);
    }
  }

  /** The only proper divisor of a prime is 1, so no prime is perfect. */
  lemma PrimeNotPerfect(p: int)
    requires IsPrimeNumber(p)
    ensures !IsPerfect(p)
  {
    PrimeDivisorSum(p, p);
  }

  lemma PerfectExamples()
    ensures IsPerfect(6) && IsPerfect(28)
    ensures !IsPerfect(1) && !IsPerfect(10) && !IsPerfect(12)
  {
    assert DivisorSumBelow(28, 5) == 7;
    assert DivisorSumBelow(28, 10) == 14;
    assert DivisorSumBelow(28, 15) == 28;
    assert DivisorSumBelow(28, 20) == 28;
    assert DivisorSumBelow(28, 25) == 28;
  }

  /** The empty sum makes 0 perfect too; the handler rejects 0 before asking. */
  lemma ZeroIsPerfect()
    ensures IsPerfect(0)
  {
  }

  // ---------------------------------------------------------------------------
  // is_armstrong and the digit sum

  /** `[int(d) for d in str(n)]` */
  function Digits(n: nat): (ds: seq<nat>)
    ensures |ds| >= 1 && (|ds| == 1 || ds[0] != 0)
    ensures n > 0 ==> ds[0] != 0
    ensures forall i :: 0 <= i < |ds| ==> ds[i] < 10
  {
    DigitList(Show(n))
  }

  /** `sum(d ** k for d in ds)` */
  function PowerSum(ds: seq<nat>, k: nat): (r: nat) {
    if ds == [] then 0 else PowerSum(ds[..|ds| - 1], k) + Pow(ds[|ds| - 1], k)
  }

  /** `is_armstrong(n)` */
  predicate IsArmstrong(n: nat) {
    var ds := Digits(n);
    PowerSum(ds, |ds|) == n
  }

  /** `sum(int(digit) for digit in str(n))` */
  function DigitSum(n: nat): (r: nat) {
    Sum(Digits(n))
  }

  // Reference definitions by repeated division by ten.

  function NumDigits(n: nat): (k: nat)
    ensures k >= 1
  {
    if n < 10 then 1 else 1 + NumDigits(n / 10)
  }

  function ArithPowerSum(n: nat, k: nat): (r: nat) {
    if n < 10 then Pow(n, k) else ArithPowerSum(n / 10, k) + Pow(n % 10, k)
  }

  function ArithDigitSum(n: nat): (r: nat) {
    if n < 10 then n else ArithDigitSum(n / 10) + n % 10
  }

  /** NumDigits is the number of base-10 digits: 10^(k-1) <= n < 10^k for n > 0. */
  lemma {:induction false} NumDigitsBounds(n: nat)
    ensures n < Pow(10, NumDigits(n))
    ensures n > 0 ==> Pow(10, NumDigits(n) - 1) <= n
  {
    if n >= 10 {
      NumDigitsBounds(n / 10);
    }
  }

  lemma DigitsSnoc(n: nat)
    requires n >= 10
    ensures Digits(n) == Digits(n / 10) + [n % 10]
  {
  }

  /** The digits of `str(n)` are the digits obtained by dividing by ten. */
  lemma {:induction false} DigitsArith(n: nat, k: nat)
    ensures |Digits(n)| == NumDigits(n)
    ensures PowerSum(Digits(n), k) == ArithPowerSum(n, k)
    ensures Sum(Digits(n)) == ArithDigitSum(n)
  {
    if n >= 10 {
      DigitsArith(n / 10, k);
      DigitsSnoc(n);
      var ds := Digits(n);
      assert ds[..|ds| - 1] == Digits(n / 10);
    }
  }

  /** is_armstrong(n) holds iff the k-th powers of n's k digits sum to n. */
  lemma ArmstrongIff(n: nat)
    ensures IsArmstrong(n) <==> ArithPowerSum(n, NumDigits(n)) == n
  {
    DigitsArith(n, NumDigits(n));
  }

  /** Every one-digit number is an Armstrong number. */
  lemma SingleDigitArmstrong(n: nat)
    requires n < 10
    ensures IsArmstrong(n)
  {
    var ds := Digits(n);
    assert ds == [n];
    assert ds[..0] == [];
    assert Pow(n, 1) == n;
  }

  lemma ArmstrongExamples()
    ensures IsArmstrong(153) && IsArmstrong(370) && IsArmstrong(9474)
  {
    assert IsArmstrong(153) by {
      ArmstrongIff(153);
      assert NumDigits(153) == 3;
      assert Pow(1, 3) == 1 && Pow(5, 3) == 125 && Pow(3, 3) == 27;
      assert ArithPowerSum(15, 3) == 126;
    }
    assert IsArmstrong(370) by {
      ArmstrongIff(370);
      assert NumDigits(370) == 3;
      assert Pow(3, 3) == 27 && Pow(7, 3) == 343 && Pow(0, 3) == 0;
      assert ArithPowerSum(37, 3) == 370;
    }
    assert IsArmstrong(9474) by {
      ArmstrongIff(9474);
      assert NumDigits(9474) == 4;
      assert Pow(9, 4) == 6561 && Pow(4, 4) == 256 && Pow(7, 4) == 2401;
      assert ArithPowerSum(94, 4) == 6817;
      assert ArithPowerSum(947, 4) == 9218;
    }
  }

  lemma NotArmstrongExamples()
    ensures !IsArmstrong(154) && !IsArmstrong(10)
  {
    assert !IsArmstrong(154) by {
      ArmstrongIff(154);
      assert NumDigits(154) == 3;
      assert Pow(1, 3) == 1 && Pow(5, 3) == 125 && Pow(4, 3) == 64;
      assert ArithPowerSum(15, 3) == 126;
      assert ArithPowerSum(154, 3) == 190;
    }
    assert !IsArmstrong(10) by {
      ArmstrongIff(10);
      assert NumDigits(10) == 2;
      assert ArithPowerSum(10, 2) == 1;
    }
  }

  /** digit_sum is the sum of the base-10 digits. */
  lemma DigitSumArith(n: nat)
    ensures DigitSum(n) == ArithDigitSum(n)
  {
    DigitsArith(n, 0);
  }

  lemma {:induction false} ArithDigitSumBounds(n: nat)
    requires n > 0
    ensures 1 <= ArithDigitSum(n) <= 9 * NumDigits(n)
  {
    if n >= 10 {
      ArithDigitSumBounds(n / 10);
    }
  }

  /** For n > 0, digit_sum lies between 1 and 9 times the number of digits. */
  lemma DigitSumBounds(n: nat)
    requires n > 0
    ensures 1 <= DigitSum(n) <= 9 * |Digits(n)|
  {
    DigitsArith(n, 0);
    ArithDigitSumBounds(n);
  }

  /** Casting out nines: the digit sum and n leave the same remainder mod 9. */
  lemma {:induction false} DigitSumModNine(n: nat)
    ensures DigitSum(n) % 9 == n % 9
  {
    DigitSumArith(n);
    ArithDigitSumModNine(n);
  }

  lemma ModNineUnique(x: int, q: int, r: int)
    requires x == 9 * q + r && 0 <= r < 9
    ensures x % 9 == r
  {
  }

  lemma {:induction false} ArithDigitSumModNine(n: nat)
    ensures ArithDigitSum(n) % 9 == n % 9
  {
    if n >= 10 {
      var q, r := n / 10, n % 10;
      ArithDigitSumModNine(q);
      var a := ArithDigitSum(q);
      var m := q % 9;
      assert a == 9 * (a / 9) + m;
      assert q == 9 * (q / 9) + m;
      var t := (m + r) % 9;
      var u := (m + r) / 9;
      assert m + r == 9 * u + t;
      ModNineUnique(ArithDigitSum(n), a / 9 + u, t);
      assert n == 10 * q + r;
      ModNineUnique(n, 10 * (q / 9) + m + u, t);
    }
  }

  lemma DigitSumExamples()
    ensures DigitSum(4) == 4 && DigitSum(153) == 9
  {
    DigitsArith(153, 0);
  }
}
