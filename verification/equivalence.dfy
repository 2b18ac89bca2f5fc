/** Proper equivalence of forms: substituting x := p*x + q*y, y := r*x + s*y
    with p*s - q*r = 1 into a form yields a form of the same class. Every
    step of normalization and reduction is such a substitution, which is what
    makes the reduced form a representative of the input's class. */
module Equivalence {
  import opened Forms

  /** The integer substitution x := p*x + q*y, y := r*x + s*y. */
  datatype Matrix = Matrix(p: int, q: int, r: int, s: int)

  function Det(m: Matrix): int {
    m.p * m.s - m.q * m.r
  }

  function Identity(): Matrix {
    Matrix(1, 0, 0, 1)
  }

  function Mul(m: Matrix, n: Matrix): Matrix {
    Matrix(m.p * n.p + m.q * n.r, m.p * n.q + m.q * n.s,
           m.r * n.p + m.s * n.r, m.r * n.q + m.s * n.s)
  }

  /** The inverse of a determinant-one substitution. */
  function Inverse(m: Matrix): Matrix {
    Matrix(m.s, -m.q, -m.r, m.p)
  }

  /** The form obtained by substituting m into f. */
  function Act(f: Form, m: Matrix): Form {
    Form(
      f.a * (m.p * m.p) + f.b * (m.p * m.r) + f.c * (m.r * m.r),
      f.a * (2 * m.p * m.q) + f.b * (m.p * m.s + m.q * m.r) + f.c * (2 * m.r * m.s),
      f.a * (m.q * m.q) + f.b * (m.q * m.s) + f.c * (m.s * m.s))
  }

  /** The substituted form takes at (x, y) the value f takes at m(x, y). */
  lemma ActEval(f: Form, m: Matrix, x: int, y: int)
    ensures Eval(Act(f, m), x, y) == Eval(f, m.p * x + m.q * y, m.r * x + m.s * y)
  {
    var g := Act(f, m);
    var X, Y := m.p * x + m.q * y, m.r * x + m.s * y;
    var xx, xy, yy := x * x, x * y, y * y;
    Expand(m.p, m.q, m.p, m.q, x, y);
    Expand(m.p, m.q, m.r, m.s, x, y);
    Expand(m.r, m.s, m.r, m.s, x, y);
    assert 2 * m.p * m.q == m.p * m.q + m.q * m.p;
    assert 2 * m.r * m.s == m.r * m.s + m.s * m.r;
    Scale(f.a, m.p * m.p, 2 * m.p * m.q, m.q * m.q, xx, xy, yy);
    Scale(f.b, m.p * m.r, m.p * m.s + m.q * m.r, m.q * m.s, xx, xy, yy);
    Scale(f.c, m.r * m.r, 2 * m.r * m.s, m.s * m.s, xx, xy, yy);
    Collect(f.a * (m.p * m.p), f.b * (m.p * m.r), f.c * (m.r * m.r), xx);
    Collect(f.a * (2 * m.p * m.q), f.b * (m.p * m.s + m.q * m.r), f.c * (2 * m.r * m.s), xy);
    Collect(f.a * (m.q * m.q), f.b * (m.q * m.s), f.c * (m.s * m.s), yy);
    assert Eval(g, x, y) == g.a * xx + g.b * xy + g.c * yy;
  }

  /** k * (u*xx + v*xy + w*yy) distributed. */
  lemma Scale(k: int, u: int, v: int, w: int, xx: int, xy: int, yy: int)
    ensures k * (u * xx + v * xy + w * yy) == (k * u) * xx + (k * v) * xy + (k * w) * yy
  {
  }

  lemma Collect(t1: int, t2: int, t3: int, z: int)
    ensures (t1 + t2 + t3) * z == t1 * z + t2 * z + t3 * z
  {
  }

  /** (p*x + q*y) * (r*x + s*y) multiplied out. */
  lemma Expand(p: int, q: int, r: int, s: int, x: int, y: int)
    ensures (p * x + q * y) * (r * x + s * y) == p * r * (x * x) + (p * s + q * r) * (x * y) + q * s * (y * y)
  {
  }

  /** Forms are equal exactly when they agree at (1, 0), (0, 1) and (1, 1). */
  lemma EqualByEval(f: Form, g: Form)
    requires Eval(f, 1, 0) == Eval(g, 1, 0)
    requires Eval(f, 0, 1) == Eval(g, 0, 1)
    requires Eval(f, 1, 1) == Eval(g, 1, 1)
    ensures f == g
  {
  }

  /** Substituting n after m is substituting their product. */
  lemma ActCompose(f: Form, m: Matrix, n: Matrix)
    ensures Act(Act(f, m), n) == Act(f, Mul(m, n))
  {
    ComposeAt(f, m, n, 1, 0);
    ComposeAt(f, m, n, 0, 1);
    ComposeAt(f, m, n, 1, 1);
    EqualByEval(Act(Act(f, m), n), Act(f, Mul(m, n)));
  }

  lemma ComposeAt(f: Form, m: Matrix, n: Matrix, x: int, y: int)
    ensures Eval(Act(Act(f, m), n), x, y) == Eval(Act(f, Mul(m, n)), x, y)
  {
    var k := Mul(m, n);
    var X, Y := n.p * x + n.q * y, n.r * x + n.s * y;
    SubstituteLinear(m.p, m.q, n, x, y);
    SubstituteLinear(m.r, m.s, n, x, y);
    calc {
      Eval(Act(Act(f, m), n), x, y);
      { ActEval(Act(f, m), n, x, y); }
      Eval(Act(f, m), X, Y);
      { ActEval(f, m, X, Y); }
      Eval(f, m.p * X + m.q * Y, m.r * X + m.s * Y);
      Eval(f, k.p * x + k.q * y, k.r * x + k.s * y);
      { ActEval(f, k, x, y); }
      Eval(Act(f, k), x, y);
    }
  }

  /** u*X + v*Y where (X, Y) is n applied to (x, y). */
  lemma SubstituteLinear(u: int, v: int, n: Matrix, x: int, y: int)
    ensures u * (n.p * x + n.q * y) + v * (n.r * x + n.s * y)
      == (u * n.p + v * n.r) * x + (u * n.q + v * n.s) * y
  {
  }

  lemma DetMul(m: Matrix, n: Matrix)
    ensures Det(Mul(m, n)) == Det(m) * Det(n)
  {
  }

  /** A substitution scales the discriminant by the square of its
      determinant; a determinant-one substitution preserves it. */
  lemma ActDiscriminant(f: Form, m: Matrix)
    ensures Discriminant(Act(f, m)) == Det(m) * Det(m) * Discriminant(f)
  {
    var g := Act(f, m);
    SubstitutionDiscriminant(f.a, f.b, f.c, m.p, m.q, m.r, m.s);
    assert Discriminant(g) == g.b * g.b - 4 * (g.a * g.c);
  }

  /** The discriminant identity behind ActDiscriminant, on plain integers. */
  lemma SubstitutionDiscriminant(a: int, b: int, c: int, p: int, q: int, r: int, s: int)
    ensures
      var a', b', c' :=
        a * (p * p) + b * (p * r) + c * (r * r),
        a * (2 * p * q) + b * (p * s + q * r) + c * (2 * r * s),
        a * (q * q) + b * (q * s) + c * (s * s);
      b' * b' - 4 * (a' * c') == (p * s - q * r) * (p * s - q * r) * (b * b - 4 * a * c)
  {
    SquareCoefficients(p, q, r, s);
    CrossCoefficients(p, q, r, s);
    DiscriminantIdentity(a, b, c, p * p, p * r, r * r, 2 * p * q, p * s + q * r, 2 * r * s,
                         q * q, q * s, s * s, (p * s - q * r) * (p * s - q * r));
  }

  /** b'^2 - 4a'c' for a', b', c' given as combinations of a, b and c, once
      the coefficient of every product of a, b and c is known. */
  lemma DiscriminantIdentity(a: int, b: int, c: int, x1: int, y1: int, z1: int,
                             x2: int, y2: int, z2: int, x3: int, y3: int, z3: int, delta: int)
    requires x2 * x2 - 4 * (x1 * x3) == 0
    requires y2 * y2 - 4 * (y1 * y3) == delta
    requires z2 * z2 - 4 * (z1 * z3) == 0
    requires (x2 * y2 + y2 * x2) - 4 * (x1 * y3 + y1 * x3) == 0
    requires (x2 * z2 + z2 * x2) - 4 * (x1 * z3 + z1 * x3) == -4 * delta
    requires (y2 * z2 + z2 * y2) - 4 * (y1 * z3 + z1 * y3) == 0
    ensures (a * x2 + b * y2 + c * z2) * (a * x2 + b * y2 + c * z2)
      - 4 * ((a * x1 + b * y1 + c * z1) * (a * x3 + b * y3 + c * z3))
      == delta * (b * b - 4 * a * c)
  {
    var A, B, C := a * x1 + b * y1 + c * z1, a * x2 + b * y2 + c * z2, a * x3 + b * y3 + c * z3;
    var aa, bb, cc, ab, ac, bc := a * a, b * b, c * c, a * b, a * c, b * c;
    calc {
      B * B - 4 * (A * C);
      { TrinomialProduct(a, b, c, x2, y2, z2, x2, y2, z2);
        TrinomialProduct(a, b, c, x1, y1, z1, x3, y3, z3); }
      aa * (x2 * x2) + bb * (y2 * y2) + cc * (z2 * z2)
        + ab * (x2 * y2 + y2 * x2) + ac * (x2 * z2 + z2 * x2) + bc * (y2 * z2 + z2 * y2)
        - 4 * (aa * (x1 * x3) + bb * (y1 * y3) + cc * (z1 * z3)
               + ab * (x1 * y3 + y1 * x3) + ac * (x1 * z3 + z1 * x3) + bc * (y1 * z3 + z1 * y3));
      { CollectByCoefficient(aa, bb, cc, ab, ac, bc,
          x2 * x2, y2 * y2, z2 * z2, x2 * y2 + y2 * x2, x2 * z2 + z2 * x2, y2 * z2 + z2 * y2,
          x1 * x3, y1 * y3, z1 * z3, x1 * y3 + y1 * x3, x1 * z3 + z1 * x3, y1 * z3 + z1 * y3, delta); }
      bb * delta + ac * (-4 * delta);
      { assert delta * (bb - 4 * ac) == bb * delta + ac * (-4 * delta); }
      delta * (b * b - 4 * a * c);
    }
  }

  /** Collects sum(k_i * u_i) - 4 * sum(k_i * v_i) when each u_i - 4 * v_i
      is known. */
  lemma CollectByCoefficient(k1: int, k2: int, k3: int, k4: int, k5: int, k6: int,
                             u1: int, u2: int, u3: int, u4: int, u5: int, u6: int,
                             v1: int, v2: int, v3: int, v4: int, v5: int, v6: int, delta: int)
    requires u1 - 4 * v1 == 0 && u2 - 4 * v2 == delta && u3 - 4 * v3 == 0
    requires u4 - 4 * v4 == 0 && u5 - 4 * v5 == -4 * delta && u6 - 4 * v6 == 0
    ensures k1 * u1 + k2 * u2 + k3 * u3 + k4 * u4 + k5 * u5 + k6 * u6
      - 4 * (k1 * v1 + k2 * v2 + k3 * v3 + k4 * v4 + k5 * v5 + k6 * v6)
      == k2 * delta + k5 * (-4 * delta)
  {
    Factor(k1, u1, v1, 0);
    Factor(k2, u2, v2, delta);
    Factor(k3, u3, v3, 0);
    Factor(k4, u4, v4, 0);
    Factor(k5, u5, v5, -4 * delta);
    Factor(k6, u6, v6, 0);
  }

  /** The coefficients of a^2, b^2 and c^2 in b'^2 - 4a'c'. */
  lemma SquareCoefficients(p: int, q: int, r: int, s: int)
    ensures (2 * p * q) * (2 * p * q) - 4 * ((p * p) * (q * q)) == 0
    ensures (p * s + q * r) * (p * s + q * r) - 4 * ((p * r) * (q * s))
      == (p * s - q * r) * (p * s - q * r)
    ensures (2 * r * s) * (2 * r * s) - 4 * ((r * r) * (s * s)) == 0
  {
    var pq, rs, ps, qr := p * q, r * s, p * s, q * r;
    assert 2 * p * q == 2 * pq && 2 * r * s == 2 * rs;
    Swap(p, q, p, q);
    Swap(r, s, r, s);
    Swap(p, r, q, s);
    Swap(p, s, q, r);
    assert (p * r) * (q * s) == ps * qr;
  }

  /** The coefficients of ab, ac and bc in b'^2 - 4a'c'. */
  lemma CrossCoefficients(p: int, q: int, r: int, s: int)
    ensures
      var x2, y2, z2 := 2 * p * q, p * s + q * r, 2 * r * s;
      && (x2 * y2 + y2 * x2) - 4 * ((p * p) * (q * s) + (p * r) * (q * q)) == 0
      && (x2 * z2 + z2 * x2) - 4 * ((p * p) * (s * s) + (r * r) * (q * q))
         == -4 * ((p * s - q * r) * (p * s - q * r))
      && (y2 * z2 + z2 * y2) - 4 * ((p * r) * (s * s) + (r * r) * (q * s)) == 0
  {
    var pq, rs, ps, qr := p * q, r * s, p * s, q * r;
    assert 2 * p * q == 2 * pq && 2 * r * s == 2 * rs;
    Distribute2(pq, ps, qr);
    Distribute2(rs, ps, qr);
    Swap(p, q, p, s); Swap(p, r, q, q); assert r * q == qr;
    Swap(p, q, r, s); Swap(p, s, p, s); Swap(q, r, q, r); Swap(p, s, q, r);
    Swap(r, s, p, s); Swap(r, s, q, r);
    assert (p * p) * (q * s) == pq * ps;
    assert (p * r) * (q * q) == pq * qr;
    assert (p * p) * (s * s) == ps * ps;
    assert (r * r) * (q * q) == qr * qr;
    assert (p * r) * (s * s) == rs * ps;
    assert (r * r) * (q * s) == rs * qr;
    assert pq * rs == ps * qr;
  }

  /** The product of two linear combinations of a, b and c, collected by
      the products of a, b and c. */
  lemma TrinomialProduct(a: int, b: int, c: int, x: int, y: int, z: int, x': int, y': int, z': int)
    ensures (a * x + b * y + c * z) * (a * x' + b * y' + c * z')
      == (a * a) * (x * x') + (b * b) * (y * y') + (c * c) * (z * z')
       + (a * b) * (x * y' + y * x') + (a * c) * (x * z' + z * x') + (b * c) * (y * z' + z * y')
  {
    var L := a * x' + b * y' + c * z';
    Collect(a * x, b * y, c * z, L);
    Distribute(a * x, a * x', b * y', c * z');
    Distribute(b * y, a * x', b * y', c * z');
    Distribute(c * z, a * x', b * y', c * z');
    Swap(a, x, a, x'); Swap(a, x, b, y'); Swap(a, x, c, z');
    Swap(b, y, a, x'); Swap(b, y, b, y'); Swap(b, y, c, z');
    Swap(c, z, a, x'); Swap(c, z, b, y'); Swap(c, z, c, z');
    assert (b * a) == (a * b) && (c * a) == (a * c) && (c * b) == (b * c);
    Distribute2(a * b, x * y', y * x');
    Distribute2(a * c, x * z', z * x');
    Distribute2(b * c, y * z', z * y');
  }

  lemma Distribute(k: int, t1: int, t2: int, t3: int)
    ensures k * (t1 + t2 + t3) == k * t1 + k * t2 + k * t3
  {
  }

  lemma Distribute2(k: int, t1: int, t2: int)
    ensures k * (t1 + t2) == k * t1 + k * t2
  {
  }

  lemma Swap(a: int, x: int, b: int, y: int)
    ensures (a * x) * (b * y) == (a * b) * (x * y)
  {
  }

  lemma Factor(k: int, u: int, v: int, w: int)
    requires u - 4 * v == w
    ensures k * u - 4 * (k * v) == k * w
  {
  }

  /** g is properly equivalent to f: some determinant-one substitution turns
      f into g. */
  ghost predicate Equivalent(f: Form, g: Form) {
    exists m :: Det(m) == 1 && Act(f, m) == g
  }

  lemma InverseIsInverse(m: Matrix)
    requires Det(m) == 1
    ensures Mul(m, Inverse(m)) == Identity()
    ensures Det(Inverse(m)) == 1
  {
    assert m.p * m.s + m.q * (-m.r) == 1;
    assert m.p * (-m.q) + m.q * m.p == 0;
    assert m.r * m.s + m.s * (-m.r) == 0;
    assert m.r * (-m.q) + m.s * m.p == 1;
  }

  lemma EquivalentReflexive(f: Form)
    ensures Equivalent(f, f)
  {
    assert Act(f, Identity()) == f;
  }

  /** Symmetry. The reductions never need it, since each of their steps is
      proved in the forward direction, but with reflexivity and transitivity
      it makes proper equivalence an equivalence relation, whose classes are
      the elements of the class group. */
  lemma EquivalentSymmetric(f: Form, g: Form)
    requires Equivalent(f, g)
    ensures Equivalent(g, f)
  {
    var m :| Det(m) == 1 && Act(f, m) == g;
    ActCompose(f, m, Inverse(m));
    InverseIsInverse(m);
    assert Act(f, Identity()) == f;
  }

  lemma EquivalentTransitive(f: Form, g: Form, h: Form)
    requires Equivalent(f, g) && Equivalent(g, h)
    ensures Equivalent(f, h)
  {
    var m :| Det(m) == 1 && Act(f, m) == g;
    var n :| Det(n) == 1 && Act(g, n) == h;
    ActCompose(f, m, n);
    DetMul(m, n);
    assert Det(Mul(m, n)) == 1 && Act(f, Mul(m, n)) == h;
  }

  /** Equivalent forms share their discriminant. */
  lemma EquivalentDiscriminant(f: Form, g: Form)
    requires Equivalent(f, g)
    ensures Discriminant(g) == Discriminant(f)
  {
    var m :| Det(m) == 1 && Act(f, m) == g;
    ActDiscriminant(f, m);
  }

  /** x := -y, y := x turns (a, b, c) into (c, -b, a). */
  lemma SwapForm(f: Form)
    ensures Act(f, Matrix(0, -1, 1, 0)) == Form(f.c, -f.b, f.a)
    ensures Det(Matrix(0, -1, 1, 0)) == 1
    ensures Equivalent(f, Form(f.c, -f.b, f.a))
  {
    var g := Act(f, Matrix(0, -1, 1, 0));
    assert g.a == f.c;
    assert g.b == -f.b;
    assert g.c == f.a;
  }

  /** When a == c, negation is the determinant-one substitution
      x := -y, y := x, so it stays in the class. */
  lemma NegOfTieIsEquivalent(f: Form)
    requires f.a == f.c
    ensures Equivalent(f, Neg(f))
  {
    SwapForm(f);
  }
}
