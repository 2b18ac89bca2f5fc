/** Binary quadratic forms a*x^2 + b*x*y + c*y^2 as the class group stores
    them, with the checked constructor, negation and the principal form.
    The group's discriminant is fixed by its configuration; here it is the
    parameter `disc`. */
module Forms {
  import opened Integer

  datatype Form = Form(a: int, b: int, c: int)

  /** b^2 - 4ac, the quantity every form of one group shares. */
  function Discriminant(f: Form): int {
    f.b * f.b - 4 * f.a * f.c
  }

  /** The value the form takes at (x, y). */
  function Eval(f: Form, x: int, y: int): int {
    f.a * (x * x) + f.b * (x * y) + f.c * (y * y)
  }

  /** Normalized: b lies in the half-open window (-a, a]. */
  predicate IsNormalized(f: Form) {
    -f.a < f.b <= f.a
  }

  /** Reduced in the sense of Gauss: |b| <= a <= c, and b is non-negative
      on the two boundaries |b| == a and a == c. */
  predicate IsReduced(f: Form) {
    && Abs(f.b) <= f.a <= f.c
    && (Abs(f.b) == f.a || f.a == f.c ==> f.b >= 0)
  }

  /** What the checked constructor does when its discriminant assertion fails
      or passes. */
  datatype Construction = Built(form: Form) | AssertionFailed(found: int, expected: int)

  /** The checked constructor: accepts (a, b, c) exactly when
      b^2 - 4ac equals the configured discriminant. */
  function New(a: int, b: int, c: int, disc: int): (r: Construction)
    ensures r.Built? <==> b * b - 4 * a * c == disc
    ensures r.Built? ==> r.form.a == a && r.form.b == b && r.form.c == c
    ensures r.Built? ==> Discriminant(r.form) == disc
    ensures r.AssertionFailed? ==> r.found != r.expected && r.expected == disc
    ensures r.AssertionFailed? ==> r.found == b * b - 4 * a * c
  {
    var found := b * b - 4 * a * c;
    if found == disc then Built(Form(a, b, c)) else AssertionFailed(found, disc)
  }

  /** Every form of the configured discriminant survives the checked
      constructor unchanged, and no other form does. */
  lemma NewRoundTrip(f: Form, disc: int)
    ensures New(f.a, f.b, f.c, disc) == Built(f) <==> Discriminant(f) == disc
  {
  }

  /** Negation: the inverse in the class group, (a, -b, c). */
  function Neg(f: Form): (g: Form)
    ensures g.a == f.a && g.c == f.c && g.b == -f.b
    ensures Discriminant(g) == Discriminant(f)
    ensures forall x, y :: Eval(g, x, y) == Eval(f, x, -y)
  {
    Form(f.a, -f.b, f.c)
  }

  lemma NegInvolution(f: Form)
    ensures Neg(Neg(f)) == f
  {
  }

  /** The principal form (1, 1, (1 - disc) >> 2): the group's zero. */
  function Zero(disc: int): (z: Form)
    ensures z.a == 1 && z.b == 1
    ensures 4 * z.c <= 1 - disc < 4 * z.c + 4
  {
    Form(1, 1, Shr(1 - disc, 2))
  }

  /** `is_zero`: compares the three coefficients with those of the
      principal form. */
  function IsZero(f: Form, disc: int): (z: bool)
    ensures z ==> f.a == 1 && f.b == 1 && 4 * f.c <= 1 - disc < 4 * f.c + 4
    ensures z <==> f == Zero(disc)
  {
    f.a == 1 && f.b == 1 && f.c == Shr(1 - disc, 2)
  }

  /** `is_zero` is characterized without the shift: a = b = 1 and c is the
      floor of (1 - disc) / 4. */
  lemma IsZeroExactly(f: Form, disc: int)
    ensures IsZero(f, disc) <==> f.a == 1 && f.b == 1 && 4 * f.c <= 1 - disc < 4 * f.c + 4
  {
  }

  /** The principal form lies in the group exactly when disc = 1 (mod 4):
      otherwise the shift drops a remainder and b^2 - 4ac misses disc. */
  lemma ZeroDiscriminant(disc: int)
    ensures Discriminant(Zero(disc)) == disc <==> disc % 4 == 1
  {
    var c := Zero(disc).c;
    assert Discriminant(Zero(disc)) == 1 - 4 * c;
    FloorQuotientUnique(1 - disc, 4, c);
    assert 1 - disc == 4 * c + (1 - disc) % 4;
  }

  /** For a negative discriminant congruent to 1 mod 4 the principal form is
      reduced. */
  lemma ZeroIsReduced(disc: int)
    requires disc < 0 && disc % 4 == 1
    ensures IsReduced(Zero(disc))
  {
    ZeroDiscriminant(disc);
  }

  /** A form of negative discriminant with a > 0 has c > 0: 4ac = b^2 - D. */
  lemma PositiveDefinite(f: Form)
    requires f.a > 0 && Discriminant(f) < 0
    ensures f.c > 0
  {
  }
}
