# Class group of binary quadratic forms: the reduction core

This project models the group-law core of a class group of binary quadratic
forms `a*x^2 + b*x*y + c*y^2` of one fixed negative discriminant `D`. The
class group stores a form as the triple `(a, b, c)`. Its core is the following:

- the checked constructor, which asserts `b^2 - 4ac = D`;
- **normalize**, which moves `b` into `(-a, a]` by a ceiling-quotient step and
  fixes `c` by exact subtraction;
- **rho**, which swaps `a` and `c`, negates `b` and normalizes;
- **reduce**, which applies rho while `a > c` and then negates `b` when `a == c`;
- the principal form `zero = (1, 1, (1 - D) >> 2)` and its test `is_zero`;
- negation `(a, -b, c)`;
- the set-up part of **NUDUPL** (squaring). This is an extended gcd of `(a, b)`,
  exact division by the gcd, and a floor remainder of `v*c` by the reduced `a`.
  The rest of NUDUPL is not written in the source.

The model is functional. `Form(a, b, c)` is an immutable datatype, and every
in-place operation of the source is a pure function from the old form to the
new one. The configured discriminant is a parameter `disc`.

The arbitrary-precision integer type comes from the group configuration,
which is not part of this model. The module `Integer` states each capability
by what it computes on Dafny's unbounded `int`:
- ceiling and floor quotients with the remainder `x - q*y`;
- `>> k` as floor division by `2^k`;
- parity;
- exact division, defined only when the divisor divides;
- an extended gcd that returns a Bezout triple.

Proper equivalence is modelled in `Equivalence`. It is substitution of a
determinant-one integer matrix. Normalize, rho and the tie negation are each
proved to be such a substitution. So every reduction result is proved to lie
in the same class as its input, not just to share its discriminant.

Modules: `Integer` (integer.dfy), `Forms` (forms.dfy), `Equivalence`
(equivalence.dfy), `Reduction` (reduction.dfy), `Duplication` (duplication.dfy).

Where the code departs from the usual definition of a reduced form
(section 5.4 of Cohen, *A Course in Computational Algebraic Number Theory*),
the model follows the code:
- `reduce` negates `b` unconditionally when `a == c`. A reduced form has a
  non-negative `b` on a tie.
- `reduce` never normalizes a form that already has `a <= c`.

Both are recorded under Findings. The corrected reduction is modelled beside
the one as written.

## Model

| member | source | states |
|---|---|---|
| Forms.New | src/class/mod.rs:55-60 | the checked constructor succeeds exactly when b^2 - 4ac equals the configured discriminant, and then yields exactly (a, b, c); otherwise it reports the failed assertion with the mismatching value |
| Forms.NewRoundTrip | src/class/mod.rs:55-60 | every form of the configured discriminant passes the constructor unchanged, and no other form does |
| Reduction.Normalize | src/class/mod.rs:66-79 | a is kept; b^2 - 4ac is kept; for a > 0 the new b lies in (-a, a], for a < 0 in [a, -a); the new b is congruent to b modulo 2a; the result is properly equivalent to the input |
| Reduction.NormalizeIsShear | src/class/mod.rs:66-79 | with s = ceil(b/a) >> 1, the odd-quotient bump gives b' = b - 2as, (b + b')/2 is exact and equals b - as, and the c adjustment makes the result f with x := x - s*y substituted |
| Reduction.NormalizeUnique | src/class/mod.rs:70-77 | for a > 0 the normalized b is the only value of (-a, a] congruent to b modulo 2a |
| Reduction.NormalizeFixesNormalized | src/class/mod.rs:70-78 | a form with -a < b <= a comes back unchanged (the quotient is 0 or 1, so the shift is 0) |
| Reduction.NormalizeIdempotent | src/class/mod.rs:66-79 | for a > 0, normalizing twice is normalizing once |
| Equivalence.SwapForm | src/class/mod.rs:83-84 | swapping a and c and negating b is the determinant-one substitution x := -y, y := x |
| Reduction.RhoIsEquivalent | src/class/mod.rs:83-85 | swapping a and c, negating b and normalizing keeps the discriminant and stays in the class |
| Reduction.Rho | src/class/mod.rs:82-86 | rho puts c in the place of a, keeps b^2 - 4ac, leaves b in (-c, c] for c > 0 and congruent to -b modulo 2c, and stays in the class |
| Forms.PositiveDefinite | src/class/mod.rs:89 | with a > 0 and a negative discriminant, c > 0 as well |
| Reduction.RhoDescends | src/class/mod.rs:89-91 | while a > c, one rho strictly lowers a and keeps a and c positive, so the reduction loop terminates |
| Reduction.RhoLoop | src/class/mod.rs:89-91 | the loop ends with 0 < a <= c, the discriminant kept and the class kept; it returns a form with a <= c untouched, and otherwise a normalized one |
| Reduction.Reduce | src/class/mod.rs:88-96 | reduce as written: 0 < a <= c, discriminant and class kept; a form with a < c is returned as given, a form with a == c comes back negated whatever the sign of b; after the rho loop, a tie it reaches is negated and any other result is returned as the loop left it; after at least one rho b lies in (-a, a], or in [-a, a) on a tie |
| Equivalence.NegOfTieIsEquivalent | src/class/mod.rs:93-95 | on a tie a == c, negating b stays in the class |
| Reduction.ReduceFlipsTies | src/class/mod.rs:93-95 | on a form with a == c, reduce negates b every time it is applied, so two reductions give the form back and a form with b != 0 is never a fixed point |
| Reduction.ReduceMovesPrincipalForm | src/class/mod.rs:93-95 | the principal form (1, 1, 1) of discriminant -3 is reduced, yet reduce turns it into (1, -1, 1), which is neither reduced nor zero |
| Reduction.ReduceNegatesLoopTie | src/class/mod.rs:88-96 | (3, 3, 2) of discriminant -15 reaches the reduced tie (2, 1, 2) after one rho, and reduce negates it to the unreduced (2, -1, 2), while the corrected reduction gives (2, 1, 2) |
| Reduction.ReduceSkipsNormalization | src/class/mod.rs:88-91 | (1, 5, 10) of discriminant -15 is returned by reduce unchanged and unreduced, while the corrected reduction gives (1, 1, 4); (1, 5, 10) and (1, 1, 4) are in one class, yet reduce maps them to different forms |
| Reduction.ReduceCanonical | src/class/mod.rs:88-96 | the corrected reduction (normalize first, rho loop, make b non-negative on a tie) yields a reduced form, abs(b) <= a <= c with b >= 0 on both boundaries, of the same discriminant and class |
| Reduction.ReduceCanonicalFixesReduced | src/class/mod.rs:88-96 | the corrected reduction leaves every reduced form unchanged |
| Reduction.ReduceCanonicalIdempotent | src/class/mod.rs:88-96 | reducing twice with the corrected reduction is reducing once |
| Forms.Zero | src/class/mod.rs:167-172 | the principal form has a = b = 1 and c = floor((1 - D) / 4) |
| Forms.IsZero | src/class/mod.rs:174-179 | is_zero holds exactly of the principal form zero(), so it forces a = b = 1 and c = floor((1 - D) / 4) |
| Forms.IsZeroExactly | src/class/mod.rs:174-179 | is_zero holds exactly when a = b = 1 and c is the floor of (1 - D) / 4, the shift replaced by its rounding window |
| Forms.ZeroDiscriminant | src/class/mod.rs:170 | the principal form has discriminant D exactly when D = 1 (mod 4) |
| Forms.ZeroIsReduced | src/class/mod.rs:167-172 | for negative D = 1 (mod 4) the principal form is reduced |
| Forms.Neg | src/class/mod.rs:192-198 | negation keeps a and c, flips the sign of b, keeps the discriminant, and takes at (x, y) the value the form takes at (x, -y) |
| Forms.NegInvolution | src/class/mod.rs:192-198 | negating twice gives the form back |
| Duplication.NudplSetup | src/class/mod.rs:104-132 | d = gcd(a, b) > 0 with d = u*a + v*b, and every common divisor of a and b divides d; a' * d = a and b' * d = b; u*a' + v*b' = 1; c' is the floor remainder of v*c by a', in [0, a') for a' > 0; and a' * Dx = c' * b' - c |
| Duplication.CoprimeQuotients | src/class/mod.rs:108-116 | after exact division by the gcd, the same cofactors give u*a' + v*b' = 1 |
| Duplication.SetupDx | src/class/mod.rs:118-132 | from v*c = q*a' + c' and Dx = -u*c - q*b' follows a' * Dx = c' * b' - c, and a' divides v*c - c' |
| Integer.DivRemCeil | src/class/mod.rs:70 | quotient and remainder with x = q*y + r, the remainder in (-y, 0] for y > 0 and in [0, -y) for y < 0 |
| Integer.DivRemFloor | src/class/mod.rs:127-130 | quotient and remainder with x = q*y + r, the remainder in [0, y) for y > 0 and in (y, 0] for y < 0 |
| Integer.FloorQuotientUnique | src/class/mod.rs:129 | the floor quotient is the only q with q*y <= x < q*y + y |
| Integer.Shr | src/class/mod.rs:74-77 | x >> k is the q with q * 2^k <= x < (q + 1) * 2^k |
| Integer.IsOdd | src/class/mod.rs:71 | the parity test of the ceiling quotient holds exactly when 2 does not divide it, negative quotients included |
| Integer.ExactDiv | src/class/mod.rs:113-116 | exact division is defined only when the divisor divides, and then q * y = x |
| Integer.ExtendedGcd | src/class/mod.rs:103-108 | d >= 0, d = u*x + v*y, and d divides both x and y |
| Integer.GcdIsGreatest | src/class/mod.rs:103-108 | every common divisor of x and y divides the computed gcd |

## Left out

- `nucomp`, `nupow`, and NUDUPL from line 134 on are left out. The source stops there with `todo!` (src/class/mod.rs:134, 139, 144), so there is no partial Euclid and no composition to model. The `Dx` of the set-up is modelled, but nothing consumes it.
- The operator impls (Add, AddAssign, Sub, SubAssign, Mul, MulAssign, Sum; src/class/mod.rs:202-382) are left out. They only dispatch to the stubs above.
- The `Distribution` and `Zeroize` impls are left out because they are `unimplemented!`. `Display` and the serialization derives are left out because they are I/O.
- `ClassGroupCompressed` is left out. It is a field layout with no encode or decode code.
- `new_unchecked` is plainly the datatype constructor `Form(a, b, c)`.
- `discriminant()` and `default_nucomp_bound()` read the group configuration. src/class/config.rs is not part of this model; the discriminant is the parameter `disc`, and the nucomp bound is unused by the modelled code.
- src/integer/mod.rs wraps a bignum library. It is replaced by Dafny `int`, and its serialization, toy sampler and narrowing conversions are left out.
- src/lib.rs and src/main.rs are left out. They are trait scaffolding and a demo.
- Reduction.Reduce: requires a > 0 and a negative discriminant. The elements of the class group are positive-definite forms, so negative-definite forms (a < 0, c < 0) are not modelled, although the source loop also ends on them.
- Reduction.RhoLoop: requires a > 0 and a negative discriminant. As for Reduce, only the positive-definite forms of the class group are modelled.
- Reduction.Normalize: requires a != 0. The source divides by a and panics on zero. No form of negative discriminant has a = 0.
- Duplication.NudplSetup: requires a != 0. The source's exact division and floor division would divide by zero.
- Integer.ExtendedGcd: states the Bezout identity and the greatest-common-divisor property. It does not state the particular cofactors the configured integer type returns, so the modelled u, v, c' and Dx are those of one valid Bezout pair.
- Forms.New: the failed `assert_eq!` is modelled as the value `AssertionFailed`, not as a panic.
- In-place mutation (`&mut self`, `std::mem::swap`, `neg_in_place`) is modelled as pure functions returning the new form.

## Findings

| source | as written | input that shows it | evidently intended | confidence | as-written member | corrected member |
|---|---|---|---|---|---|---|
| src/class/mod.rs:93-95 | on a tie a == c, reduce negates b whatever its sign | the principal form (1, 1, 1) of D = -3 is returned as (1, -1, 1), which is no longer reduced and no longer satisfies is_zero; the unreduced (3, 3, 2) of D = -15 reaches the reduced tie (2, 1, 2) after one rho and is returned as (2, -1, 2) (Reduction.ReduceNegatesLoopTie) | negate b on a tie only when b < 0, so that b >= 0 | high, not executed | Reduction.ReduceMovesPrincipalForm | Reduction.ReduceCanonical |
| src/class/mod.rs:88-91 | the rho loop starts without normalizing, so a form with a <= c is returned as given | (1, 5, 10) of D = -15 is returned with b = 5 > a = 1, although it is equivalent to (1, 1, 4), which reduce returns unchanged; so two forms of one class reduce to different forms | normalize before the loop; the reduced representative is (1, 1, 4) | medium, not executed | Reduction.ReduceSkipsNormalization | Reduction.ReduceCanonical |
