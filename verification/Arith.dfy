/** Multiples and rounding, defined by recursion so that no proof meets a non-linear term it does not need. */
module Arith {

  predicate Multiple(x: nat, unit: nat)
    requires 0 < unit
  {
    x == 0 || (unit <= x && Multiple(x - unit, unit))
  }

  /** The least multiple of unit that is not below x. */
  function RoundUp(x: nat, unit: nat): nat
    requires 0 < unit
  {
    if x == 0 then 0 else if x <= unit then unit else unit + RoundUp(x - unit, unit)
  }

  /** x % d, by repeated subtraction. */
  function Mod(x: nat, d: nat): (r: nat)
    requires 0 < d
    ensures r < d && r <= x
  {
    if x < d then x else Mod(x - d, d)
  }

  lemma {:induction false} ModIsRemainder(x: nat, d: nat)
    requires 0 < d
    ensures Mod(x, d) == x % d
  {
    if x >= d {
      ModIsRemainder(x - d, d);
      ModAdd(x - d, d);
    }
  }

  lemma {:induction false} MulMonotone(unit: nat, p: nat, q: nat)
    ensures p <= q ==> unit * p <= unit * q
    ensures p < q ==> unit * p + unit <= unit * q
  {
    if p < q {
      MulMonotone(unit, p, q - 1);
      assert unit * q == unit * (q - 1) + unit;
    }
  }

  lemma DivModUnique(x: nat, unit: nat, q: nat, r: nat)
    requires r < unit && x == unit * q + r
    ensures x / unit == q && x % unit == r
  {
    MulMonotone(unit, q, x / unit);
    MulMonotone(unit, x / unit, q);
  }

  lemma ModAdd(x: nat, unit: nat)
    requires 0 < unit
    ensures (x + unit) % unit == x % unit && (x + unit) / unit == x / unit + 1
  {
    assert x + unit == unit * (x / unit + 1) + x % unit;
    DivModUnique(x + unit, unit, x / unit + 1, x % unit);
  }

  lemma {:induction false} MultipleIsMod(x: nat, unit: nat)
    requires 0 < unit
    ensures Multiple(x, unit) <==> x % unit == 0
  {
    if unit <= x {
      MultipleIsMod(x - unit, unit);
      ModAdd(x - unit, unit);
    }
  }

  /** Two different multiples of unit are at least unit apart. */
  lemma {:induction false} MultiplesApart(a: nat, b: nat, unit: nat)
    requires 0 < unit && Multiple(a, unit) && Multiple(b, unit) && a < b
    ensures a + unit <= b
  {
    if a > 0 {
      MultiplesApart(a - unit, b - unit, unit);
    }
  }

  lemma {:induction false} RoundUpFacts(x: nat, unit: nat)
    requires 0 < unit
    ensures x <= RoundUp(x, unit) < x + unit && Multiple(RoundUp(x, unit), unit)
  {
    if x > unit {
      RoundUpFacts(x - unit, unit);
    }
  }

  lemma {:induction false} MultipleTransitive(a: nat, b: nat, c: nat)
    requires 0 < b && 0 < c && Multiple(a, b) && Multiple(b, c)
    ensures Multiple(a, c)
  {
    if a > 0 {
      MultipleTransitive(a - b, b, c);
      MultipleSum(a - b, b, c);
    }
  }

  lemma {:induction false} MultipleSum(a: nat, b: nat, unit: nat)
    requires 0 < unit && Multiple(a, unit) && Multiple(b, unit)
    ensures Multiple(a + b, unit)
  {
    if b > 0 {
      MultipleSum(a, b - unit, unit);
    }
  }

  lemma {:induction false} ModNext(x: nat, d: nat)
    requires 0 < d
    ensures Mod(x + 1, d) == if Mod(x, d) == d - 1 then 0 else Mod(x, d) + 1
  {
    if x >= d {
      ModNext(x - d, d);
    }
  }

  /** x / d, by repeated subtraction. */
  function Div(x: nat, d: nat): (q: nat)
    requires 0 < d
    ensures q <= x
  {
    if x < d then 0 else Div(x - d, d) + 1
  }

  lemma {:induction false} DivIsQuotient(x: nat, d: nat)
    requires 0 < d
    ensures Div(x, d) == x / d
  {
    if x >= d {
      DivIsQuotient(x - d, d);
      ModAdd(x - d, d);
    }
  }

  lemma {:induction false} DivNext(x: nat, d: nat)
    requires 0 < d
    ensures Div(x + 1, d) == Div(x, d) + if Mod(x + 1, d) == 0 then 1 else 0
  {
    if x >= d {
      DivNext(x - d, d);
    }
  }

  lemma {:induction false} DivMonotone(x: nat, y: nat, d: nat)
    requires 0 < d && x <= y
    ensures Div(x, d) <= Div(y, d)
    decreases y
  {
    if x < y {
      DivMonotone(x, y - 1, d);
      DivNext(y - 1, d);
    }
  }

  lemma Distribute(s: nat, k: nat, cs: nat, ss: nat)
    ensures (s + k * cs) * ss == s * ss + k * (cs * ss)
  {
    assert (s + k * cs) * ss == s * ss + k * cs * ss;
  }

  lemma {:induction false} WithoutRemainder(x: nat, unit: nat)
    requires 0 < unit
    ensures Mod(x, unit) <= x && Multiple(x - Mod(x, unit), unit)
  {
    if x >= unit {
      WithoutRemainder(x - unit, unit);
    }
  }

  lemma {:induction false} MultipleScaled(x: nat, unit: nat, width: nat)
    requires 0 < unit && 0 < width && Multiple(x, unit)
    ensures Multiple(width * x, width * unit)
  {
    if x > 0 {
      MultipleScaled(x - unit, unit, width);
      assert width * x == width * (x - unit) + width * unit;
    }
  }

  lemma {:induction false} ProductIsMultiple(k: nat, unit: nat)
    requires 0 < unit
    ensures Multiple(k * unit, unit)
  {
    if k > 0 {
      ProductIsMultiple(k - 1, unit);
      assert k * unit == (k - 1) * unit + unit;
    }
  }
}
