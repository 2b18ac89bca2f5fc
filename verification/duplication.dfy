/** The set-up steps of NUDUPL (squaring a form) as far as the class group
    carries them out: the extended gcd of a and b, the exact division of a
    and b by it, the floor remainder of v*c by a', and the auxiliary Dx. The
    partial Euclid and the assembly of the square are not written in the
    source and are not part of this model. */
module Duplication {
  import opened Integer
  import opened Forms

  /** The working values after the set-up: the partial output form
      r = (a', b', c'), the auxiliary Dx and the gcd with its cofactors. */
  datatype DuplicationSetup = DuplicationSetup(r: Form, dx: int, d: int, u: int, v: int)

  function NudplSetup(f: Form): (s: DuplicationSetup)
    requires f.a != 0
    ensures s.d > 0 && s.d == s.u * f.a + s.v * f.b
    ensures forall e :: Divides(e, f.a) && Divides(e, f.b) ==> Divides(e, s.d)
    ensures s.r.a * s.d == f.a && s.r.b * s.d == f.b
    ensures s.u * s.r.a + s.v * s.r.b == 1
    ensures s.r.a > 0 ==> 0 <= s.r.c < s.r.a
    ensures s.r.a < 0 ==> s.r.a < s.r.c <= 0
    ensures Divides(s.r.a, s.v * f.c - s.r.c)
    ensures s.r.a * s.dx == s.r.c * s.r.b - f.c
  {
    var (d, u, v) := ExtendedGcd(f.a, f.b);
    DividesNonzero(d, f.a);
    GcdIsGreatestAll(f.a, f.b);
    var a' := if d != 1 then ExactDiv(f.a, d) else f.a;
    var b' := if d != 1 then ExactDiv(f.b, d) else f.b;
    CoprimeQuotients(f.a, f.b, d, u, v, a', b');
    var (q, c') := DivRemFloor(v * f.c, a');
    var dx := -(u * f.c) - q * b';
    SetupDx(f.c, u, v, a', b', q, c', dx);
    DuplicationSetup(Form(a', b', c'), dx, d, u, v)
  }

  /** A non-negative divisor of a non-zero number is positive. */
  lemma DividesNonzero(d: int, n: int)
    requires d >= 0 && n != 0 && Divides(d, n)
    ensures d > 0
  {
  }

  /** Dividing the Bezout identity by the gcd: a/d and b/d are coprime with
      the same cofactors. */
  lemma CoprimeQuotients(a: int, b: int, d: int, u: int, v: int, a': int, b': int)
    requires d > 0 && d == u * a + v * b
    requires a' * d == a && b' * d == b
    ensures u * a' + v * b' == 1
  {
    assert (u * a' + v * b') * d == u * a + v * b;
    assert (u * a' + v * b') * d == 1 * d;
    CancelPositive(u * a' + v * b', 1, d);
  }

  /** With v*c = q*a' + c' and u*a' + v*b' = 1, the auxiliary
      Dx = -u*c - q*b' satisfies a'*Dx = c'*b' - c. */
  lemma SetupDx(c: int, u: int, v: int, a': int, b': int, q: int, c': int, dx: int)
    requires u * a' + v * b' == 1
    requires v * c == q * a' + c'
    requires dx == -(u * c) - q * b'
    ensures Divides(a', v * c - c')
    ensures a' * dx == c' * b' - c
  {
    assert v * c - c' == a' * q;
    calc {
      a' * dx;
      -(u * a') * c - (q * a') * b';
      -(u * a') * c - (v * c - c') * b';
      -(u * a' + v * b') * c + c' * b';
      c' * b' - c;
    }
  }
}
