/** Gauss reduction of positive-definite forms: the normalization step, the
    involution rho and the reduction loop, first as the class group performs
    them and then with the two corrections a canonical representative needs. */
module Reduction {
  import opened Integer
  import opened Forms
  import opened Equivalence

  /** Moves b into (-a, a] (for a > 0; [a, -a) for a < 0) by subtracting
      2*a*s with s = floor(ceil(b/a) / 2), and adjusts c by exact subtraction
      of s * (b + b') / 2 so that b^2 - 4ac is kept. */
  function Normalize(f: Form): (g: Form)
    requires f.a != 0
    ensures g.a == f.a
    ensures Discriminant(g) == Discriminant(f)
    ensures f.a > 0 ==> -f.a < g.b <= f.a
    ensures f.a < 0 ==> f.a <= g.b < -f.a
    ensures Divides(2 * f.a, f.b - g.b)
    ensures Equivalent(f, g)
  {
    var (q0, r0) := DivRemCeil(f.b, f.a);
    var r1 := if IsOdd(q0) then r0 + f.a else r0;
    var q := Shr(q0, 1);
    var half := Shr(f.b + r1, 1);
    var g := Form(f.a, r1, f.c - q * half);
    NormalizeIsShear(f, q0, r0, r1, q, half);
    g
  }

  /** The arithmetic of one normalization: with q0*a + r0 = b, the new b is
      b - 2*a*s for s = q0 >> 1, (b + b') is even, and the new form is f with
      x := x - s*y substituted. */
  lemma NormalizeIsShear(f: Form, q0: int, r0: int, r1: int, s: int, half: int)
    requires f.a != 0
    requires f.b == q0 * f.a + r0
    requires r1 == if IsOdd(q0) then r0 + f.a else r0
    requires s * 2 <= q0 < s * 2 + 2
    requires half * 2 <= f.b + r1 < half * 2 + 2
    ensures r1 == f.b - 2 * f.a * s
    ensures half == f.b - f.a * s
    ensures Act(f, Matrix(1, -s, 0, 1)) == Form(f.a, r1, f.c - s * half)
    ensures Divides(2 * f.a, f.b - r1)
    ensures Discriminant(Form(f.a, r1, f.c - s * half)) == Discriminant(f)
    ensures Equivalent(f, Form(f.a, r1, f.c - s * half))
  {
    NormalizeQuotient(f.a, f.b, q0, r0, r1, s, half);
    var g := Form(f.a, r1, f.c - s * half);
    assert g == Form(f.a, f.b - 2 * f.a * s, f.c - s * (f.b - f.a * s));
    assert f.b - r1 == 2 * f.a * s;
    ShearForm(f, s);
    ShearIsEquivalent(f, s);
  }

  /** The odd bump turns the ceiling remainder into b - 2*a*s, and the halved
      sum (b + b') >> 1 is exact. */
  lemma NormalizeQuotient(a: int, b: int, q0: int, r0: int, r1: int, s: int, half: int)
    requires b == q0 * a + r0
    requires r1 == if IsOdd(q0) then r0 + a else r0
    requires s * 2 <= q0 < s * 2 + 2
    requires half * 2 <= b + r1 < half * 2 + 2
    ensures r1 == b - 2 * a * s
    ensures half == b - a * s
  {
    if IsOdd(q0) {
      assert q0 == 2 * s + 1;
      assert q0 * a == 2 * a * s + a;
    } else {
      assert q0 == 2 * s;
      assert q0 * a == 2 * a * s;
    }
    assert b + r1 == 2 * (b - a * s);
  }

  /** The shear x := x - s*y is a determinant-one substitution that moves b
      by a multiple of 2a. */
  lemma ShearIsEquivalent(f: Form, s: int)
    ensures Divides(2 * f.a, 2 * f.a * s)
    ensures Discriminant(Form(f.a, f.b - 2 * f.a * s, f.c - s * (f.b - f.a * s))) == Discriminant(f)
    ensures Equivalent(f, Form(f.a, f.b - 2 * f.a * s, f.c - s * (f.b - f.a * s)))
  {
    var m := Matrix(1, -s, 0, 1);
    ShearForm(f, s);
    assert Det(m) == 1;
    ActDiscriminant(f, m);
  }

  /** Substituting x := x - s*y. */
  lemma ShearForm(f: Form, s: int)
    ensures Act(f, Matrix(1, -s, 0, 1)) == Form(f.a, f.b - 2 * f.a * s, f.c - s * (f.b - f.a * s))
  {
    var g := Act(f, Matrix(1, -s, 0, 1));
    assert g.a == f.a;
    assert g.b == f.a * (-2 * s) + f.b;
    assert g.c == f.a * (s * s) - f.b * s + f.c;
    assert s * (f.b - f.a * s) == s * f.b - f.a * (s * s);
  }

  /** rho: swap a and c, negate b, normalize. */
  function Rho(f: Form): (g: Form)
    requires f.c != 0
    ensures g.a == f.c
    ensures Discriminant(g) == Discriminant(f)
    ensures f.c > 0 ==> -f.c < g.b <= f.c
    ensures Divides(2 * f.c, -f.b - g.b)
    ensures Equivalent(f, g)
  {
    var swapped := Form(f.c, -f.b, f.a);
    RhoIsEquivalent(f, swapped);
    Normalize(swapped)
  }

  /** The swap is a determinant-one substitution, so rho stays in the class
      and keeps the discriminant. */
  lemma RhoIsEquivalent(f: Form, swapped: Form)
    requires f.c != 0 && swapped == Form(f.c, -f.b, f.a)
    ensures Discriminant(Normalize(swapped)) == Discriminant(f)
    ensures Equivalent(f, Normalize(swapped))
  {
    SwapForm(f);
    EquivalentDiscriminant(f, swapped);
    EquivalentTransitive(f, swapped, Normalize(swapped));
  }

  /** One turn of the reduction loop strictly lowers a and keeps a and c
      positive, which is why the loop ends. */
  lemma RhoDescends(f: Form)
    requires f.a > 0 && Discriminant(f) < 0
    requires f.a > f.c
    ensures f.c > 0
    ensures 0 < Rho(f).a < f.a
    ensures Rho(f).c > 0
  {
    PositiveDefinite(f);
    PositiveDefinite(Rho(f));
  }

  /** The `while a > c { rho }` loop of reduction. */
  function RhoLoop(f: Form): (g: Form)
    requires f.a > 0 && Discriminant(f) < 0
    ensures 0 < g.a <= g.c
    ensures Discriminant(g) == Discriminant(f)
    ensures f.a <= f.c ==> g == f
    ensures f.a > f.c ==> IsNormalized(g)
    ensures Equivalent(f, g)
    decreases f.a
  {
    if f.a > f.c then
      RhoDescends(f);
      var g := RhoLoop(Rho(f));
      EquivalentTransitive(f, Rho(f), g);
      g
    else
      PositiveDefinite(f);
      EquivalentReflexive(f);
      f
  }

  /** Reduction as the class group performs it: the rho loop, then b is
      negated whenever a == c, whatever its sign. A form that already has
      a <= c is never normalized. */
  function Reduce(f: Form): (g: Form)
    requires f.a > 0 && Discriminant(f) < 0
    ensures 0 < g.a <= g.c
    ensures Discriminant(g) == Discriminant(f)
    ensures Equivalent(f, g)
    ensures f.a < f.c ==> g == f
    ensures f.a == f.c ==> g == Neg(f)
    ensures f.a > f.c && g.a < g.c ==> -g.a < g.b <= g.a
    ensures f.a > f.c && g.a == g.c ==> -g.a <= g.b < g.a
    ensures RhoLoop(f).a < RhoLoop(f).c ==> g == RhoLoop(f)
    ensures RhoLoop(f).a == RhoLoop(f).c ==> g == Neg(RhoLoop(f))
  {
    var g := RhoLoop(f);
    if g.a == g.c then
      NegOfTieIsEquivalent(g);
      EquivalentTransitive(f, g, Neg(g));
      Neg(g)
    else
      g
  }

  /** On a form with a == c reduction flips b every time it is applied, so
      applying it twice gives the form back. */
  lemma ReduceFlipsTies(f: Form)
    requires f.a > 0 && Discriminant(f) < 0 && f.a == f.c
    ensures Reduce(f) == Neg(f)
    ensures Reduce(Reduce(f)) == f
    ensures f.b != 0 ==> Reduce(f) != f
  {
    NegInvolution(f);
  }

  /** The principal form of discriminant -3 is (1, 1, 1), a tie that reduction
      turns into (1, -1, 1): not reduced, and no longer the zero. */
  lemma ReduceMovesPrincipalForm()
    ensures Zero(-3) == Form(1, 1, 1) && IsReduced(Zero(-3))
    ensures Reduce(Zero(-3)) == Form(1, -1, 1)
    ensures !IsReduced(Reduce(Zero(-3))) && !IsZero(Reduce(Zero(-3)), -3)
  {
    assert Shr(4, 2) == 1 by {
      FloorQuotientUnique(4, 4, 1);
    }
  }

  /** (3, 3, 2) of discriminant -15 is not reduced. One rho brings it to the
      reduced tie (2, 1, 2), which reduction then negates to (2, -1, 2); the
      corrected reduction stops at (2, 1, 2). */
  lemma ReduceNegatesLoopTie()
    ensures Discriminant(Form(3, 3, 2)) == -15
    ensures RhoLoop(Form(3, 3, 2)) == Form(2, 1, 2) && IsReduced(Form(2, 1, 2))
    ensures Reduce(Form(3, 3, 2)) == Form(2, -1, 2)
    ensures !IsReduced(Reduce(Form(3, 3, 2)))
    ensures ReduceCanonical(Form(3, 3, 2)) == Form(2, 1, 2)
  {
    assert DivRemCeil(-3, 2) == (-1, -1) by {
      FloorQuotientUnique(3, 2, 1);
    }
    assert Shr(-1, 1) == -1 by {
      FloorQuotientUnique(-1, 2, -1);
    }
    assert Shr(-2, 1) == -1 by {
      FloorQuotientUnique(-2, 2, -1);
    }
    assert Rho(Form(3, 3, 2)) == Form(2, 1, 2);
    assert DivRemCeil(3, 3) == (1, 0) by {
      FloorQuotientUnique(-3, 3, -1);
    }
    assert Shr(1, 1) == 0 by {
      FloorQuotientUnique(1, 2, 0);
    }
    assert Shr(6, 1) == 3 by {
      FloorQuotientUnique(6, 2, 3);
    }
    assert Normalize(Form(3, 3, 2)) == Form(3, 3, 2);
  }

  /** (1, 5, 10) of discriminant -15 already has a <= c, so reduction returns
      it with |b| > a; its reduced representative is (1, 1, 4). The two forms
      are in one class, yet reduction maps them to different forms. */
  lemma ReduceSkipsNormalization()
    ensures Discriminant(Form(1, 5, 10)) == -15
    ensures Reduce(Form(1, 5, 10)) == Form(1, 5, 10)
    ensures !IsReduced(Reduce(Form(1, 5, 10)))
    ensures ReduceCanonical(Form(1, 5, 10)) == Form(1, 1, 4)
    ensures Equivalent(Form(1, 5, 10), Form(1, 1, 4))
    ensures Reduce(Form(1, 5, 10)) != Reduce(Form(1, 1, 4))
  {
    var f := Form(1, 5, 10);
    assert DivRemCeil(5, 1) == (5, 0) by {
      FloorQuotientUnique(-5, 1, -5);
    }
    assert Shr(5, 1) == 2 by {
      FloorQuotientUnique(5, 2, 2);
    }
    assert Shr(6, 1) == 3 by {
      FloorQuotientUnique(6, 2, 3);
    }
    assert Normalize(f) == Form(1, 1, 4);
  }

  /** Reduction to the canonical representative: normalize first, run the
      rho loop, and on a tie make b non-negative. */
  function ReduceCanonical(f: Form): (g: Form)
    requires f.a > 0 && Discriminant(f) < 0
    ensures IsReduced(g)
    ensures Discriminant(g) == Discriminant(f)
    ensures Equivalent(f, g)
  {
    var n := Normalize(f);
    var g := RhoLoop(n);
    EquivalentTransitive(f, n, g);
    if g.a == g.c && g.b < 0 then
      NegOfTieIsEquivalent(g);
      EquivalentTransitive(f, g, Neg(g));
      Neg(g)
    else
      g
  }

  /** For a > 0 the normalized b is the one value of (-a, a] congruent to b
      modulo 2a. */
  lemma NormalizeUnique(f: Form, x: int)
    requires f.a > 0
    requires -f.a < x <= f.a && Divides(2 * f.a, f.b - x)
    ensures Normalize(f).b == x
  {
    var y := Normalize(f).b;
    var k :| f.b - x == 2 * f.a * k;
    var k' :| f.b - y == 2 * f.a * k';
    assert x - y == (k' - k) * (2 * f.a) by {
      assert (k' - k) * (2 * f.a) == 2 * f.a * k' - 2 * f.a * k;
    }
    WindowMultiple(f.a, x, y, k' - k);
  }

  /** Two values of (-a, a] that differ by a multiple of 2a are equal. */
  lemma WindowMultiple(a: int, x: int, y: int, k: int)
    requires a > 0 && -a < x <= a && -a < y <= a
    requires x - y == k * (2 * a)
    ensures x == y
  {
    if k >= 1 {
      MulMonotone(1, k, 2 * a);
    } else if k <= -1 {
      MulMonotone(1, -k, 2 * a);
    }
  }

  /** A form already normalized is left unchanged. */
  lemma NormalizeFixesNormalized(f: Form)
    requires f.a > 0 && IsNormalized(f)
    ensures Normalize(f) == f
  {
    assert f.b - f.b == 2 * f.a * 0;
    NormalizeUnique(f, f.b);
    var g := Normalize(f);
    assert g.c * (4 * f.a) == f.c * (4 * f.a) by {
      assert Discriminant(g) == Discriminant(f);
    }
    CancelPositive(g.c, f.c, 4 * f.a);
  }

  lemma NormalizeIdempotent(f: Form)
    requires f.a > 0
    ensures Normalize(Normalize(f)) == Normalize(f)
  {
    NormalizeFixesNormalized(Normalize(f));
  }

  /** Canonical reduction leaves reduced forms alone, hence is idempotent. */
  lemma ReduceCanonicalFixesReduced(f: Form)
    requires f.a > 0 && Discriminant(f) < 0 && IsReduced(f)
    ensures ReduceCanonical(f) == f
  {
    NormalizeFixesNormalized(f);
  }

  lemma ReduceCanonicalIdempotent(f: Form)
    requires f.a > 0 && Discriminant(f) < 0
    ensures ReduceCanonical(ReduceCanonical(f)) == ReduceCanonical(f)
  {
    ReduceCanonicalFixesReduced(ReduceCanonical(f));
  }
}
