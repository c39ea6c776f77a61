// The factorial computed by each worker thread: a countdown loop that
// multiplies into a 32-bit signed result.

module ThreadFactorial {

  /** A C++ `int` on the targets this runs on: 32-bit two's complement. */
  newtype int32 = x: int | -0x8000_0000 <= x < 0x8000_0000

  /** The mathematical factorial. */
  function Fact(n: nat): nat
  {
    if n == 0 then 1 else n * Fact(n - 1)
  }

  lemma {:induction false} FactPositive(n: nat)
    ensures Fact(n) >= 1
  {
    if n > 0 {
      FactPositive(n - 1);
      assert Fact(n) == n * Fact(n - 1);
    }
  }

  lemma {:induction false} FactMonotone(m: nat, n: nat)
    requires m <= n
    ensures Fact(m) <= Fact(n)
  {
    if m < n {
      FactMonotone(m, n - 1);
      MulGrows(Fact(n - 1), n);
    }
  }

  /** 12! is the largest factorial that fits in an int32. */
  lemma TwelveFits()
    ensures Fact(12) == 479001600 < 0x8000_0000
  {
  }

  /** 13! overflows an int32, so 12 is the largest argument the loop can take. */
  lemma ThirteenOverflows()
    ensures Fact(13) >= 0x8000_0000
  {
    TwelveFits();
  }

  lemma MulGrows(p: nat, k: nat)
    requires k >= 1
    ensures p <= p * k
  {
    assert p * k == p + p * (k - 1);
  }

  /** The product f * (f-1) * ... * (g+1): what the loop has multiplied in once it reaches g. */
  function Falling(f: nat, g: nat): nat
    requires g <= f
    decreases f - g
  {
    if g == f then 1 else Falling(f, g + 1) * (g + 1)
  }

  /** The loop invariant: the partial product times g! is f!. */
  lemma {:induction false} FallingTimesFact(f: nat, g: nat)
    requires g <= f
    ensures Falling(f, g) * Fact(g) == Fact(f)
    decreases f - g
  {
    if g < f {
      FallingTimesFact(f, g + 1);
      calc {
        Falling(f, g) * Fact(g);
        (Falling(f, g + 1) * (g + 1)) * Fact(g);
        { MulAssociates(Falling(f, g + 1), g + 1, Fact(g)); }
        Falling(f, g + 1) * ((g + 1) * Fact(g));
        Falling(f, g + 1) * Fact(g + 1);
      }
    }
  }

  lemma MulAssociates(a: int, b: int, c: int)
    ensures (a * b) * c == a * (b * c)
  {
  }

  /** Every partial product is at most f!, so it fits whenever f! does. */
  lemma FallingBounded(f: nat, g: nat)
    requires g <= f
    ensures 1 <= Falling(f, g) <= Fact(f)
  {
    FallingTimesFact(f, g);
    FactPositive(g);
    FallingPositive(f, g);
    MulGrows(Falling(f, g), Fact(g));
  }

  lemma {:induction false} FallingPositive(f: nat, g: nat)
    requires g <= f
    ensures Falling(f, g) >= 1
    decreases f - g
  {
    if g < f {
      FallingPositive(f, g + 1);
      MulGrows(Falling(f, g + 1), g + 1);
    }
  }

  /**
   * The loop counts `f` down to zero, multiplying it into `result`, which it
   * first sets to 1 whatever it held. For 0 <= f <= 12 no product overflows
   * and the result is f!.
   */
  method CalcFac(f: int32) returns (result: int32)
    requires 0 <= f <= 12
    ensures result as int == Fact(f as int)
  {
    var g := f;
    result := 1;
    while g != 0
      invariant 0 <= g <= f
      invariant result as int == Falling(f as int, g as int)
      invariant result as int * Fact(g as int) == Fact(f as int)
    {
      FallingBounded(f as int, g as int - 1);
      FactMonotone(f as int, 12);
      TwelveFits();
      result := result * g;
      g := g - 1;
      FallingTimesFact(f as int, g as int);
    }
  }

  /** The three computations started by the program: 3!, 5! and 7!. */
  method ThreeFactorials() returns (fac3: int32, fac5: int32, fac7: int32)
    ensures fac3 == 6 && fac5 == 120 && fac7 == 5040
  {
    fac3 := CalcFac(3);
    fac5 := CalcFac(5);
    fac7 := CalcFac(7);
  }
}
