/** Exact powers of ten, the value of `Math.pow(10, e)` for the integer
    exponents that appear in the magnitude tables. Computed over `real`, so
    the rounding of binary floating point is not part of this model. */
module Powers {

  /** 10^n for a natural exponent. */
  function Pow10Nat(n: nat): (r: nat)
    ensures r >= 1
    ensures n > 0 ==> r >= 10
  {
    if n == 0 then 1 else 10 * Pow10Nat(n - 1)
  }

  /** 10^e for any integer exponent; a negative exponent gives 1 / 10^-e. */
  function Pow10(e: int): (r: real)
    ensures r > 0.0
    ensures e >= 0 <==> r >= 1.0
  {
    if e >= 0 then Pow10Nat(e) as real else 1.0 / (Pow10Nat(-e) as real)
  }

  lemma {:induction false} Pow10NatAdd(m: nat, n: nat)
    ensures Pow10Nat(m + n) == Pow10Nat(m) * Pow10Nat(n)
  {
    if m > 0 {
      Pow10NatAdd(m - 1, n);
      calc {
        Pow10Nat(m + n);
        10 * Pow10Nat(m - 1 + n);
        10 * (Pow10Nat(m - 1) * Pow10Nat(n));
        (10 * Pow10Nat(m - 1)) * Pow10Nat(n);
      }
    }
  }

  lemma {:induction false} Pow10NatStrictlyIncreasing(m: nat, n: nat)
    requires m < n
    ensures Pow10Nat(m) < Pow10Nat(n)
  {
    if m + 1 < n {
      Pow10NatStrictlyIncreasing(m, n - 1);
    }
  }

  /** Raising the exponent by three multiplies by one thousand, also across zero. */
  lemma Pow10Step(e: int)
    ensures Pow10(e + 3) == 1000.0 * Pow10(e)
  {
    if e >= 0 {
      Pow10NatAdd(e, 3);
    } else if e <= -3 {
      Pow10StepNegative(e);
    } else {
      Pow10StepAcrossZero(e);
    }
  }

  lemma Pow10StepNegative(e: int)
    requires e <= -3
    ensures Pow10(e + 3) == 1000.0 * Pow10(e)
  {
    var m := Pow10Nat(-e - 3);
    Pow10NatAdd(-e - 3, 3);
    assert Pow10Nat(-e) == 1000 * m;
    var x := m as real;
    assert Pow10(e + 3) == 1.0 / x;
    assert Pow10(e) == 1.0 / (1000.0 * x);
    assert 1000.0 * (1.0 / (1000.0 * x)) == 1.0 / x;
  }

  lemma Pow10StepAcrossZero(e: int)
    requires -3 < e < 0
    ensures Pow10(e + 3) == 1000.0 * Pow10(e)
  {
    if e == -1 {
      assert Pow10Nat(2) == 100 && Pow10Nat(1) == 10;
    } else {
      assert Pow10Nat(1) == 10 && Pow10Nat(2) == 100;
    }
  }

  /** A smaller exponent gives a strictly smaller power: `a < b` implies `10^a < 10^b`. */
  lemma Pow10StrictlyIncreasing(a: int, b: int)
    requires a < b
    ensures Pow10(a) < Pow10(b)
  {
    if 0 <= a {
      Pow10NatStrictlyIncreasing(a, b);
    } else if b < 0 {
      Pow10NatStrictlyIncreasing(-b, -a);
      ReciprocalDecreasing(Pow10Nat(-a) as real, Pow10Nat(-b) as real);
    }
  }

  lemma ReciprocalDecreasing(x: real, y: real)
    requires 0.0 < y < x
    ensures 1.0 / x < 1.0 / y
  {
    assert (1.0 / x) * x == 1.0 == (1.0 / y) * y;
  }
}
