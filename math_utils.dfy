/**
  The `lib-math-utils` crate: Euclid's greatest common divisor (`mcd`,
  "maximo comun divisor") and the least common multiple derived from it
  (`mcm`, "minimo comun multiplo"), both over `u64`.
 */
module MathUtils {

  const U64_MAX: nat := 0xFFFF_FFFF_FFFF_FFFF

  /** Rust's `u64`. */
  type u64 = x: nat | x <= U64_MAX

  /** `d` divides `n`: `n` is a (natural) multiple of `d`. Zero divides only zero. */
  predicate Divides(d: nat, n: nat) {
    if d == 0 then n == 0 else n % d == 0
  }

  // ---------------------------------------------------------------------------
  // Arithmetic facts about division with remainder and divisibility
  // ---------------------------------------------------------------------------

  lemma MulMono(y: nat, p: nat, q: nat)
    requires p <= q
    ensures y * p <= y * q
  {
    assert y * q == y * p + y * (q - p);
  }

  lemma MulMonoStrict(y: nat, p: nat, q: nat)
    requires p < q
    ensures y * p + y <= y * q
  {
    assert y * q == y * p + y * (q - p);
    MulMono(y, 1, q - p);
  }

  /** Division with remainder has exactly one solution. */
  lemma DivModUnique(x: nat, y: nat, q: nat, r: nat)
    requires 0 < y && r < y && x == y * q + r
    ensures x / y == q && x % y == r
  {
    var q', r' := x / y, x % y;
    assert x == y * q' + r';
    if q' < q {
      MulMonoStrict(y, q', q);
    } else if q < q' {
      MulMonoStrict(y, q, q');
    }
  }

  lemma DividesIntro(d: nat, k: nat)
    ensures Divides(d, d * k)
  {
    if d > 0 {
      DivModUnique(d * k, d, k, 0);
    }
  }

  lemma DividesElim(d: nat, n: nat)
    requires Divides(d, n)
    ensures n == d * (if d == 0 then 0 else n / d)
  {
  }

  lemma DividesRefl(d: nat)
    ensures Divides(d, d) && Divides(d, 0)
  {
    DividesIntro(d, 1);
    DividesIntro(d, 0);
  }

  lemma DividesSum(d: nat, x: nat, y: nat)
    requires Divides(d, x) && Divides(d, y)
    ensures Divides(d, x + y)
  {
    if d > 0 {
      DividesElim(d, x);
      DividesElim(d, y);
      assert x + y == d * (x / d + y / d);
      DividesIntro(d, x / d + y / d);
    }
  }

  lemma DividesDiff(d: nat, x: nat, y: nat)
    requires Divides(d, x + y) && Divides(d, y)
    ensures Divides(d, x)
  {
    if d > 0 {
      DividesElim(d, x + y);
      DividesElim(d, y);
      var i, j := (x + y) / d, y / d;
      if i < j {
        MulMonoStrict(d, i, j);
      }
      assert x == d * (i - j);
      DividesIntro(d, i - j);
    }
  }

  lemma DividesMul(d: nat, x: nat, c: nat)
    requires Divides(d, x)
    ensures Divides(d, x * c)
  {
    if d > 0 {
      DividesElim(d, x);
      var i := x / d;
      assert x * c == d * (i * c);
      DividesIntro(d, i * c);
    }
  }

  lemma DividesTrans(a: nat, b: nat, c: nat)
    requires Divides(a, b) && Divides(b, c)
    ensures Divides(a, c)
  {
    if b > 0 {
      DividesElim(b, c);
      DividesMul(a, b, c / b);
    }
  }

  lemma DividesLe(d: nat, n: nat)
    requires Divides(d, n) && n > 0
    ensures d <= n
  {
    DividesElim(d, n);
    MulMono(d, 1, n / d);
  }

  lemma DividesAntisym(a: nat, b: nat)
    requires Divides(a, b) && Divides(b, a)
    ensures a == b
  {
    if a > 0 && b > 0 {
      DividesLe(a, b);
      DividesLe(b, a);
    }
  }

  lemma MulCancel(g: nat, x: nat, y: nat)
    requires g > 0 && x * g == y * g
    ensures x == y
  {
    if x < y {
      MulMonoStrict(g, x, y);
    } else if y < x {
      MulMonoStrict(g, y, x);
    }
  }

  /** Cancelling a common positive factor keeps divisibility. */
  lemma DividesCancel(d: nat, n: nat, g: nat)
    requires g > 0 && Divides(d * g, n * g)
    ensures Divides(d, n)
  {
    if d == 0 {
      assert n * g == 0;
    } else {
      DividesElim(d * g, n * g);
      var k := (n * g) / (d * g);
      assert n * g == (d * k) * g;
      MulCancel(g, n, d * k);
      DividesIntro(d, k);
    }
  }

  // ---------------------------------------------------------------------------
  // mcd
  // ---------------------------------------------------------------------------

  /**
    `mcd` (lib.rs:3): recursive Euclid. It terminates because the second
    argument strictly decreases (`a % b < b` for `b > 0`). The result is zero
    only for `mcd(0, 0)` and never exceeds the larger argument, so on `u64`
    arguments it is a `u64` and the recursion cannot overflow.
   */
  function Mcd(a: nat, b: nat): (r: nat)
    decreases b
    ensures r == 0 <==> a == 0 && b == 0
    ensures r <= a || r <= b
  {
    if b == 0 then a else Mcd(b, a % b)
  }

  /** The result of `mcd` on two `u64` values is a `u64`. */
  lemma McdInU64(a: u64, b: u64)
    ensures Mcd(a, b) <= U64_MAX
  {
  }

  /** `mcd(a, 0) == a` and `mcd(0, b) == b`. */
  lemma McdZero(a: nat, b: nat)
    ensures Mcd(a, 0) == a && Mcd(0, b) == b
  {
    if b > 0 {
      DivModUnique(0, b, 0, 0);
    }
  }

  /** `mcd(a, b)` is a common divisor of `a` and `b`. */
  lemma {:induction false} McdDividesBoth(a: nat, b: nat)
    ensures Divides(Mcd(a, b), a) && Divides(Mcd(a, b), b)
    decreases b
  {
    if b == 0 {
      DividesRefl(a);
    } else {
      var g := Mcd(b, a % b);
      McdDividesBoth(b, a % b);
      assert a == b * (a / b) + a % b;
      DividesMul(g, b, a / b);
      assert b * (a / b) == b * (a / b);
      DividesSum(g, b * (a / b), a % b);
    }
  }

  /** Every common divisor of `a` and `b` divides `mcd(a, b)`. */
  lemma {:induction false} McdGreatest(a: nat, b: nat, d: nat)
    requires Divides(d, a) && Divides(d, b)
    ensures Divides(d, Mcd(a, b))
    decreases b
  {
    if b > 0 {
      assert a == a % b + b * (a / b);
      DividesMul(d, b, a / b);
      DividesDiff(d, a % b, b * (a / b));
      McdGreatest(b, a % b, d);
    }
  }

  /** `mcd(a, b)` is the greatest common divisor: no common divisor exceeds it
      unless both arguments are zero. */
  lemma McdIsGreatest(a: nat, b: nat, d: nat)
    requires Divides(d, a) && Divides(d, b)
    requires a != 0 || b != 0
    ensures d <= Mcd(a, b)
  {
    McdGreatest(a, b, d);
    DividesLe(d, Mcd(a, b));
  }

  /** `mcd` is symmetric in its arguments. */
  lemma McdCommutes(a: nat, b: nat)
    ensures Mcd(a, b) == Mcd(b, a)
  {
    McdDividesBoth(a, b);
    McdDividesBoth(b, a);
    McdGreatest(b, a, Mcd(a, b));
    McdGreatest(a, b, Mcd(b, a));
    DividesAntisym(Mcd(a, b), Mcd(b, a));
  }

  /** Scaling both arguments scales the gcd: `mcd(m*a, m*b) == m * mcd(a, b)`. */
  lemma {:induction false} McdScale(m: nat, a: nat, b: nat)
    ensures Mcd(m * a, m * b) == m * Mcd(a, b)
    decreases b
  {
    if b == 0 {
      assert m * b == 0;
    } else if m == 0 {
      assert m * a == 0 && m * b == 0;
    } else {
      var q, r := a / b, a % b;
      assert a == b * q + r;
      assert m * a == (m * b) * q + m * r;
      MulMonoStrict(m, r, b);
      DivModUnique(m * a, m * b, q, m * r);
      McdScale(m, b, r);
    }
  }

  // ---------------------------------------------------------------------------
  // mcm
  // ---------------------------------------------------------------------------

  lemma ProductSplit(a: nat, b: nat, g: nat, i: nat, j: nat)
    requires a == g * i && b == g * j
    ensures a * b == g * (i * b) && i * b == b * i && i * b == a * j
  {
  }

  /** Facts about `a * b / mcd(a, b)` shared by `Mcm` and its lemmas. */
  lemma ProductOverMcd(a: nat, b: nat)
    requires a != 0 || b != 0
    ensures Mcd(a, b) > 0
    ensures (a * b) % Mcd(a, b) == 0
    ensures (a * b) / Mcd(a, b) == (a / Mcd(a, b)) * b
    ensures Divides(a, (a * b) / Mcd(a, b)) && Divides(b, (a * b) / Mcd(a, b))
  {
    var g := Mcd(a, b);
    McdDividesBoth(a, b);
    DividesElim(g, a);
    DividesElim(g, b);
    var i, j := a / g, b / g;
    ProductSplit(a, b, g, i, j);
    DivModUnique(a * b, g, i * b, 0);
    DividesIntro(b, i);
    DividesIntro(a, j);
  }

  /**
    `mcm` (lib.rs:7-8): `(a * b) / mcd(a, b)`. Rust panics on `mcd(0, 0) == 0`
    (division by zero) and, in a debug build, on a product above `u64::MAX`;
    both are preconditions here.
   */
  function Mcm(a: u64, b: u64): (r: u64)
    requires a != 0 || b != 0
    requires a * b <= U64_MAX
    ensures Divides(a, r) && Divides(b, r)
    ensures r * Mcd(a, b) == a * b
    ensures r == 0 <==> a == 0 || b == 0
  {
    ProductOverMcd(a, b);
    var g := Mcd(a, b);
    assert (a * b) / g <= a * b by {
      MulMono((a * b) / g, 1, g);
    }
    (a * b) / g
  }

  /** `mcm(a, b)` divides every common multiple of `a` and `b`. */
  lemma McmLeast(a: u64, b: u64, m: nat)
    requires a != 0 || b != 0
    requires a * b <= U64_MAX
    requires Divides(a, m) && Divides(b, m)
    ensures Divides(Mcm(a, b), m)
  {
    var g, l := Mcd(a, b), Mcm(a, b);
    // a*b divides both m*a and m*b, hence their gcd m*g.
    DividesElim(b, m);
    DividesElim(a, m);
    assert m * a == (a * b) * (if b == 0 then 0 else m / b);
    assert m * b == (a * b) * (if a == 0 then 0 else m / a);
    DividesIntro(a * b, if b == 0 then 0 else m / b);
    DividesIntro(a * b, if a == 0 then 0 else m / a);
    McdGreatest(m * a, m * b, a * b);
    McdScale(m, a, b);
    assert l * g == a * b;
    assert m * g == m * Mcd(a, b);
    DividesCancel(l, m, g);
  }

  /** `mcm(a, b)` is the least positive common multiple when neither
      argument is zero. */
  lemma McmIsLeast(a: u64, b: u64, m: nat)
    requires a != 0 && b != 0
    requires a * b <= U64_MAX
    requires Divides(a, m) && Divides(b, m) && m > 0
    ensures Mcm(a, b) <= m
  {
    McmLeast(a, b, m);
    DividesLe(Mcm(a, b), m);
  }

  // ---------------------------------------------------------------------------
  // The product overflows although the lcm fits
  // ---------------------------------------------------------------------------

  /**
    The lcm computed without the intermediate product `a * b`: divide first,
    then multiply. It needs only the result itself to fit in a `u64`.
   */
  function McmChecked(a: u64, b: u64): (r: u64)
    requires a != 0 || b != 0
    requires (a / Mcd(a, b)) * b <= U64_MAX
    ensures Divides(a, r) && Divides(b, r)
    ensures r * Mcd(a, b) == a * b
    ensures r == 0 <==> a == 0 || b == 0
  {
    ProductOverMcd(a, b);
    (a / Mcd(a, b)) * b
  }

  /** `McmChecked` divides every common multiple, too. */
  lemma McmCheckedLeast(a: u64, b: u64, m: nat)
    requires a != 0 || b != 0
    requires (a / Mcd(a, b)) * b <= U64_MAX
    requires Divides(a, m) && Divides(b, m)
    ensures Divides(McmChecked(a, b), m)
  {
    var g, l := Mcd(a, b), McmChecked(a, b);
    DividesElim(b, m);
    DividesElim(a, m);
    assert m * a == (a * b) * (if b == 0 then 0 else m / b);
    assert m * b == (a * b) * (if a == 0 then 0 else m / a);
    DividesIntro(a * b, if b == 0 then 0 else m / b);
    DividesIntro(a * b, if a == 0 then 0 else m / a);
    McdGreatest(m * a, m * b, a * b);
    McdScale(m, a, b);
    DividesCancel(l, m, g);
  }

  /** Wherever the original formula is defined, the two agree. */
  lemma McmCheckedAgrees(a: u64, b: u64)
    requires a != 0 || b != 0
    requires a * b <= U64_MAX
    ensures (a / Mcd(a, b)) * b <= U64_MAX
    ensures McmChecked(a, b) == Mcm(a, b)
  {
    ProductOverMcd(a, b);
  }

  /**
    `mcm(2^32, 2^32)`: the lcm is `2^32`, a `u64`, but the product `2^64`
    is not. A debug build panics; a release build wraps the product to 0 and
    returns 0.
   */
  lemma McmOverflowWitness()
    ensures var a: u64, b: u64 := 0x1_0000_0000, 0x1_0000_0000;
      && a * b > U64_MAX
      && ((a * b) % (U64_MAX + 1)) / Mcd(a, b) == 0
      && (a / Mcd(a, b)) * b <= U64_MAX
      && McmChecked(a, b) == 0x1_0000_0000
  {
    var a: u64 := 0x1_0000_0000;
    assert Mcd(a, a) == Mcd(a, 0) == a;
  }
}
