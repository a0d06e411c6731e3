/**
 The Wilson score interval of src/gw_score.c, over the reals.

 The square root is a parameter, `root`, of which only its defining property is used
 (`IsRoot`); the rounding of machine arithmetic is not part of this model.
 */
module Wilson {

  const Z := 1.959963985

  datatype Interval = Interval(p: real, lo: real, hi: real)

  function Share(k: nat, n: nat): real
    requires n > 0
  {
    k as real / n as real
  }

  function Denominator(n: nat): real
    requires n > 0
  {
    1.0 + Z * Z / n as real
  }

  function Centre(k: nat, n: nat): real
    requires n > 0
  {
    (Share(k, n) + Z * Z / (2.0 * n as real)) / Denominator(n)
  }

  function Radicand(k: nat, n: nat): real
    requires n > 0
  {
    Share(k, n) * (1.0 - Share(k, n)) / n as real + Z * Z / (4.0 * n as real * n as real)
  }

  function Half(n: nat, root: real): real
    requires n > 0
  {
    (Z / Denominator(n)) * root
  }

  /** `root` is the square root that the interval of `k` in `n` asks for. */
  predicate IsRoot(k: nat, n: nat, root: real) {
    n > 0 ==> root >= 0.0 && root * root == Radicand(k, n)
  }

  function Wilson(k: nat, n: nat, root: real): Interval {
    if n == 0 then Interval(0.0, 0.0, 0.0)
    else
      var centre, half := Centre(k, n), Half(n, root);
      Interval(
        Share(k, n),
        if centre - half < 0.0 then 0.0 else centre - half,
        if centre + half > 1.0 then 1.0 else centre + half)
  }

  /** An exact square root. */
  ghost predicate IsSqrt(sqrt: real -> real) {
    forall x :: x >= 0.0 ==> sqrt(x) >= 0.0 && sqrt(x) * sqrt(x) == x
  }

  function RootBy(sqrt: real -> real, k: nat, n: nat): real {
    if n == 0 then 0.0 else sqrt(Radicand(k, n))
  }

  /** The interval that is computed with a given square root. */
  function Estimate(k: nat, n: nat, sqrt: real -> real): Interval {
    Wilson(k, n, RootBy(sqrt, k, n))
  }

  /** An end at `lo` satisfies Wilson's law: a success rate of `lo` would put the share `p` of
      `n` trials exactly `z` standard deviations away. */
  predicate Law(n: nat, p: real, lo: real, z: real) {
    n as real * ((p - lo) * (p - lo)) == (z * z) * (lo * (1.0 - lo))
  }

  /** An interval that may be reported for `k` in `n`: it holds the share, lies in [0, 1], its
      ends satisfy Wilson's law at 95 %, and it claims an end only for a hopeless or a perfect
      score.  No trials, no claim. */
  predicate Credible(i: Interval, k: nat, n: nat) {
    if n == 0 then i == Interval(0.0, 0.0, 0.0)
    else
      && i.p == k as real / n as real && 0.0 <= i.lo <= i.p <= i.hi <= 1.0
      && Law(n, i.p, i.lo, 1.959963985) && Law(n, i.p, i.hi, 1.959963985)
      && (i.lo == 0.0 <==> k == 0) && (i.hi == 1.0 <==> k == n)
  }

  // ---------------------------------------------------------------- arithmetic

  /** With `x` for k, `m` for n, `w` for the square of z and `q` for n times the root. */
  predicate Scaled(x: real, m: real, w: real, q: real) {
    m > 0.0 && 0.0 <= x <= m && w > 0.0 && q >= 0.0 && q * q * m == x * (m - x) + w * m / 4.0
  }

  lemma Positive(a: real, b: real)
    requires a > 0.0 && b > 0.0
    ensures a * b > 0.0
  {
  }

  lemma NonNegative(a: real, b: real)
    requires a >= 0.0 && b >= 0.0
    ensures a * b >= 0.0
  {
  }

  lemma SquaresOrder(a: real, b: real)
    requires b >= 0.0
    ensures a * a <= b * b ==> a <= b
    ensures a * a < b * b ==> a < b
  {
    assert (a - b) * (a + b) == a * a - b * b;
    if a > b {
      Positive(a - b, a + b);
    } else if a == b {
      assert a * a == b * b;
    }
  }

  lemma Cancel(a: real, b: real, m: real)
    requires m > 0.0
    ensures a <= b <==> a * m <= b * m
    ensures a < b <==> a * m < b * m
  {
    assert (b - a) * m == b * m - a * m;
    if a < b {
      Positive(b - a, m);
    }
    if b < a {
      Positive(a - b, m);
      assert (a - b) * m == a * m - b * m;
    }
  }

  /** `t`, standing for z times q, scaled by m and squared. */
  predicate ScaledT(x: real, m: real, w: real, t: real) {
    m > 0.0 && 0.0 <= x <= m && w > 0.0 && t >= 0.0 && t * t * m == w * (x * (m - x)) + w * (w * m) / 4.0
  }

  lemma SquareOfT(x: real, m: real, w: real, z: real, q: real)
    requires Scaled(x, m, w, q) && z * z == w && z > 0.0
    ensures ScaledT(x, m, w, z * q)
  {
    assert (z * q) * (z * q) == (z * z) * (q * q);
    assert (z * q) * (z * q) * m == w * (q * q * m);
    NonNegative(z, q);
  }

  /** The lower end is not below 0. */
  lemma LowerEnd(x: real, m: real, w: real, t: real)
    requires ScaledT(x, m, w, t)
    ensures t <= x + w / 2.0
    ensures x > 0.0 ==> t < x + w / 2.0
  {
    var s, v := x + w / 2.0, x * (m + w);
    assert s * s * m - t * t * m == x * v by {
      assert s * s * m == x * x * m + w * (x * m) + w * (w * m) / 4.0;
      assert w * (x * (m - x)) == w * (x * m) - x * x * w;
    }
    NonNegative(x, m + w);
    NonNegative(x, v);
    if x > 0.0 {
      Positive(x, m + w);
      Positive(x, v);
    }
    Cancel(t * t, s * s, m);
    SquaresOrder(t, s);
  }

  /** The lower end is not above the share. */
  lemma BelowShare(x: real, m: real, w: real, t: real)
    requires ScaledT(x, m, w, t)
    ensures (x + w / 2.0 - t) * m <= x * (m + w)
  {
    var a, u := x * (m - x), w * (m / 2.0 - x);
    NonNegative(x, m - x);
    NonNegative(w, a);
    NonNegative(w * a, m + w);
    NonNegative(t, m);
    SquaresDiffer(x, m, w, t);
    SquaresOrder(u, t * m);
    assert (x + w / 2.0 - t) * m == x * m + w * (m / 2.0) - t * m;
    assert x * (m + w) == x * m + x * w;
  }

  /** How far apart the two sides of `BelowShare` are, squared. */
  lemma SquaresDiffer(x: real, m: real, w: real, t: real)
    requires t * t * m == w * (x * (m - x)) + w * (w * m) / 4.0
    ensures (t * m) * (t * m) - (w * (m / 2.0 - x)) * (w * (m / 2.0 - x)) == (w * (x * (m - x))) * (m + w)
  {
    var a, v := x * (m - x), m / 2.0 - x;
    assert v * v == m * m / 4.0 - a;
    assert (w * v) * (w * v) == (w * w) * (v * v);
    assert (w * w) * (m * m / 4.0 - a) == (w * w) * (m * m) / 4.0 - (w * w) * a;
    assert (t * m) * (t * m) == (t * t * m) * m;
    assert (w * a + w * (w * m) / 4.0) * m == (w * a) * m + (w * w) * (m * m) / 4.0;
    assert (w * w) * a == (w * a) * w;
  }

  /** Back from the scaled inequalities to the interval: `lo` is the lower end, `p` the share. */
  lemma Unscaled(x: real, m: real, w: real, t: real, lo: real, p: real)
    requires ScaledT(x, m, w, t) && lo * (m + w) == x + w / 2.0 - t && p * m == x
    ensures 0.0 <= lo <= p
    ensures x > 0.0 ==> 0.0 < lo
  {
    LowerEnd(x, m, w, t);
    BelowShare(x, m, w, t);
    hide ScaledT;
    Cancel(0.0, lo, m + w);
    assert (lo * (m + w)) * m == (lo * m) * (m + w);
    assert x * (m + w) == (p * m) * (m + w);
    Cancel(lo * m, p * m, m + w);
    Cancel(lo, p, m);
  }

  // ---------------------------------------------------------------- the interval

  /** q, the root scaled by n. */
  function Q(n: nat, root: real): real {
    n as real * root
  }

  lemma RootScales(k: nat, n: nat, root: real)
    requires 0 < n && k <= n && IsRoot(k, n, root)
    ensures Scaled(k as real, n as real, Z * Z, Q(n, root))
  {
    var x, m := k as real, n as real;
    var p := Share(k, n);
    assert p * m == x;
    NonNegative(m, root);
    assert Radicand(k, n) * m * m * m == ((p * m) * (m - p * m)) + Z * Z * m / 4.0 by {
      assert p * (1.0 - p) / m * m == p * (1.0 - p);
      assert (Z * Z / (4.0 * m * m)) * (m * m) == Z * Z / 4.0;
    }
    assert Q(n, root) * Q(n, root) == (root * root) * m * m;
  }

  lemma Quotient(a: real, b: real, m: real)
    requires m > 0.0 && a * m == b
    ensures a == b / m
  {
  }

  /** Centre and half width over the common denominator n + z squared. */
  lemma ClosedForm(k: nat, n: nat, root: real)
    requires n > 0
    ensures Centre(k, n) * (n as real + Z * Z) == k as real + Z * Z / 2.0
    ensures Half(n, root) * (n as real + Z * Z) == Z * Q(n, root)
  {
    var x, m, w := k as real, n as real, Z * Z;
    var d := Denominator(n);
    assert d * m == m + w by {
      assert (w / m) * m == w;
    }
    var c := Share(k, n) + w / (2.0 * m);
    assert c * m == x + w / 2.0 by {
      assert Share(k, n) * m == x;
      assert (w / (2.0 * m)) * m == w / 2.0;
    }
    assert Centre(k, n) * d == c;
    assert Centre(k, n) * (m + w) == Centre(k, n) * d * m;
    assert Half(n, root) * d == Z * root;
    assert Half(n, root) * (m + w) == Half(n, root) * d * m;
  }

  /** The lower end, before clamping, in scaled form. */
  lemma LowerScaled(k: nat, n: nat, root: real) returns (t: real)
    requires 0 < n && k <= n && IsRoot(k, n, root)
    ensures var x, m, w := k as real, n as real, Z * Z;
            && ScaledT(x, m, w, t)
            && (Centre(k, n) - Half(n, root)) * (m + w) == x + w / 2.0 - t
            && Share(k, n) * m == x
  {
    var x, m, w, q := k as real, n as real, Z * Z, Q(n, root);
    RootScales(k, n, root);
    SquareOfT(x, m, w, Z, q);
    ClosedForm(k, n, root);
    assert Share(k, n) * m == x;
    hide Centre, Half, Share, Q, Scaled, ScaledT, Radicand;
    t := Z * q;
    Distributes(Centre(k, n), Half(n, root), m + w);
  }

  lemma Distributes(a: real, b: real, c: real)
    ensures (a - b) * c == a * c - b * c
  {
  }

  /** The lower end, before clamping, is between 0 and the share. */
  lemma LowerBounds(k: nat, n: nat, root: real)
    requires 0 < n && k <= n && IsRoot(k, n, root)
    ensures 0.0 <= Centre(k, n) - Half(n, root) <= Share(k, n)
    ensures k > 0 ==> 0.0 < Centre(k, n) - Half(n, root)
  {
    var t := LowerScaled(k, n, root);
    hide Centre, Half, Share, ScaledT, IsRoot;
    Unscaled(k as real, n as real, Z * Z, t, Centre(k, n) - Half(n, root), Share(k, n));
  }

  /** The interval of the failures mirrors the interval of the successes. */
  lemma Mirror(k: nat, n: nat, root: real)
    requires 0 < n && k <= n && IsRoot(k, n, root)
    ensures IsRoot(n - k, n, root)
    ensures Share(n - k, n) == 1.0 - Share(k, n)
    ensures Centre(n - k, n) + Half(n, root) == 1.0 - (Centre(k, n) - Half(n, root))
  {
    var m := n as real;
    assert Share(n - k, n) * m == (1.0 - Share(k, n)) * m;
    Quotient(1.0 - Share(k, n), (n - k) as real, m);
    assert Radicand(n - k, n) == Radicand(k, n);
    CentreMirrors(k, n);
  }

  lemma CentreMirrors(k: nat, n: nat)
    requires 0 < n && k <= n
    ensures Centre(n - k, n) == 1.0 - Centre(k, n)
  {
    var m, w := n as real, Z * Z;
    ClosedForm(k, n, 0.0);
    ClosedForm(n - k, n, 0.0);
    hide Centre, Half;
    assert (Centre(n - k, n) + Centre(k, n)) * (m + w) == m + w;
    Quotient(Centre(n - k, n) + Centre(k, n), m + w, m + w);
  }

  /** The interval lies in [0, 1] and holds the share; neither clamp is ever taken; the
      interval of n - k is its mirror image. */
  lemma WilsonInterval(k: nat, n: nat, root: real)
    requires 0 < n && k <= n && IsRoot(k, n, root)
    ensures var i := Wilson(k, n, root);
            && 0.0 <= i.lo <= i.p <= i.hi <= 1.0
            && i.p == Share(k, n)
            && i.lo == Centre(k, n) - Half(n, root) && i.hi == Centre(k, n) + Half(n, root)
            && Wilson(n - k, n, root) == Interval(1.0 - i.p, 1.0 - i.hi, 1.0 - i.lo)
  {
    LowerBounds(k, n, root);
    Mirror(k, n, root);
    LowerBounds(n - k, n, root);
    Mirror(n - k, n, root);
    hide Centre, Half, Share, Radicand;
  }

  /** No finite number of trials claims certainty: the end that a perfect (or a hopeless)
      score pins is exact, and the other end stays strictly inside. */
  lemma WilsonAtTheEnds(k: nat, n: nat, root: real)
    requires 0 < n && k <= n && IsRoot(k, n, root)
    ensures var i := Wilson(k, n, root);
            && (i.lo == 0.0 <==> k == 0)
            && (i.hi == 1.0 <==> k == n)
  {
    WilsonInterval(k, n, root);
    LowerBounds(k, n, root);
    Mirror(k, n, root);
    LowerBounds(n - k, n, root);
    Mirror(n - k, n, root);
    if k == 0 {
      LowerAtZero(n, root);
    }
    if k == n {
      LowerAtZero(n, root);
    }
    hide Centre, Half, Share, Radicand;
  }

  /** The radicand is never negative, so an exact square root gives its root. */
  lemma SqrtGivesRoot(sqrt: real -> real, k: nat, n: nat)
    requires IsSqrt(sqrt) && k <= n
    ensures IsRoot(k, n, RootBy(sqrt, k, n))
  {
    if n > 0 {
      var m, p := n as real, Share(k, n);
      assert p * m == k as real;
      Cancel(0.0, p, m);
      Cancel(p, 1.0, m);
      NonNegative(p, 1.0 - p);
      Positive(m, m);
      assert p * (1.0 - p) / m >= 0.0;
      assert Z * Z / (4.0 * m * m) >= 0.0;
    }
  }

  /** Where the root of the radicand is exact, the interval that is computed is a credible one. */
  lemma WilsonCredible(sqrt: real -> real, k: nat, n: nat)
    requires k <= n && IsRoot(k, n, RootBy(sqrt, k, n))
    ensures Credible(Estimate(k, n, sqrt), k, n)
  {
    if n > 0 {
      WilsonInterval(k, n, RootBy(sqrt, k, n));
      WilsonAtTheEnds(k, n, RootBy(sqrt, k, n));
      WilsonLaw(k, n, RootBy(sqrt, k, n));
    }
    hide Wilson, RootBy, IsRoot, Share, Law;
  }

  lemma LowerAtZero(n: nat, root: real)
    requires 0 < n && IsRoot(0, n, root)
    ensures Centre(0, n) - Half(n, root) == 0.0
  {
    var m, w, q := n as real, Z * Z, Q(n, root);
    RootScales(0, n, root);
    ClosedForm(0, n, root);
    hide Centre, Half, Q, Radicand;
    assert q * q * m == (w / 4.0) * m;
    Cancel(q * q, w / 4.0, m);
    Cancel(w / 4.0, q * q, m);
    assert (Z / 2.0) * (Z / 2.0) == w / 4.0;
    SquaresOrder(q, Z / 2.0);
    SquaresOrder(Z / 2.0, q);
    assert q == Z / 2.0;
    assert (Centre(0, n) - Half(n, root)) * (m + w) == 0.0;
    Quotient(Centre(0, n) - Half(n, root), 0.0, m + w);
  }

  // ---------------------------------------------------------------- the law of the interval

  /** The square of `t`, with the share `p` in place of `x`. */
  lemma SquareIs(x: real, m: real, w: real, t: real, p: real)
    requires m > 0.0 && t * t * m == w * (x * (m - x)) + w * (w * m) / 4.0 && p * m == x
    ensures t * t == w * x - w * (x * p) + w * w / 4.0
  {
    var r := w * x - w * (x * p) + w * w / 4.0;
    assert (x * p) * m == x * x;
    assert (w * (x * p)) * m == w * (x * x);
    assert (w * x) * m == w * (x * m);
    assert (w * w / 4.0) * m == w * (w * m) / 4.0;
    assert r * m == w * (x * m) - w * (x * x) + w * (w * m) / 4.0;
    assert w * (x * (m - x)) == w * (x * m) - w * (x * x);
    SameFactor(t * t, r, m);
  }

  lemma SameFactor(a: real, b: real, m: real)
    requires m > 0.0 && a * m == b * m
    ensures a == b
  {
    Cancel(a, b, m);
    Cancel(b, a, m);
  }

  /** The quadratic that the lower end solves, over the denominator `m + w`. */
  lemma Quadratic(x: real, m: real, w: real, t: real, lo: real, p: real)
    requires m > 0.0 && w > 0.0 && p * m == x && lo * (m + w) == x + w / 2.0 - t
    requires t * t == w * x - w * (x * p) + w * w / 4.0
    ensures (m + w) * (lo * lo) - (2.0 * x + w) * lo + x * p == 0.0
  {
    var s, l, d := x + w / 2.0, lo * (m + w), m + w;
    assert l * l - 2.0 * s * l == t * t - s * s by {
      assert l == s - t;
      assert l * l == s * s - 2.0 * (s * t) + t * t;
      assert s * l == s * s - s * t;
    }
    assert s * s == x * x + w * x + w * w / 4.0;
    assert (x * p) * d == x * x + w * (x * p) by {
      assert (x * p) * m == x * x;
    }
    assert l * l - 2.0 * s * l + (x * p) * d == 0.0;
    var e := d * (lo * lo) - (2.0 * x + w) * lo + x * p;
    assert (d * (lo * lo)) * d == l * l;
    assert ((2.0 * x + w) * lo) * d == 2.0 * s * l;
    assert e * d == 0.0;
    SameFactor(e, 0.0, d);
  }

  /** The quadratic is Wilson's law. */
  lemma LawFromQuadratic(x: real, m: real, w: real, lo: real, p: real)
    requires p * m == x && (m + w) * (lo * lo) - (2.0 * x + w) * lo + x * p == 0.0
    ensures m * ((p - lo) * (p - lo)) == w * (lo * (1.0 - lo))
  {
    assert (p - lo) * (p - lo) == p * p - 2.0 * (p * lo) + lo * lo;
    assert m * (p * p) == x * p;
    assert m * (p * lo) == x * lo;
    assert m * ((p - lo) * (p - lo)) == x * p - 2.0 * (x * lo) + m * (lo * lo);
    assert w * (lo * (1.0 - lo)) == w * lo - w * (lo * lo);
    assert (m + w) * (lo * lo) == m * (lo * lo) + w * (lo * lo);
    assert (2.0 * x + w) * lo == 2.0 * (x * lo) + w * lo;
  }

  lemma LawOfEnd(x: real, n: nat, z: real, t: real, lo: real, p: real)
    requires ScaledT(x, n as real, z * z, t)
    requires lo * (n as real + z * z) == x + z * z / 2.0 - t && p * n as real == x
    ensures Law(n, p, lo, z)
  {
    hide ScaledT;
    ScaledLaw(x, n as real, z * z, t, lo, p);
  }

  /** The law for an end `lo` in scaled form. */
  lemma ScaledLaw(x: real, m: real, w: real, t: real, lo: real, p: real)
    requires ScaledT(x, m, w, t) && lo * (m + w) == x + w / 2.0 - t && p * m == x
    ensures m * ((p - lo) * (p - lo)) == w * (lo * (1.0 - lo))
  {
    SquareIs(x, m, w, t, p);
    Quadratic(x, m, w, t, lo, p);
    LawFromQuadratic(x, m, w, lo, p);
  }

  lemma LowerLaw(k: nat, n: nat, root: real)
    requires 0 < n && k <= n && IsRoot(k, n, root)
    ensures Law(n, Share(k, n), Centre(k, n) - Half(n, root), Z)
  {
    var t := LowerScaled(k, n, root);
    hide Centre, Half, Share, ScaledT, IsRoot, Law;
    LawOfEnd(k as real, n, Z, t, Centre(k, n) - Half(n, root), Share(k, n));
  }

  lemma LawMirrors(n: nat, p: real, hi: real, z: real)
    requires Law(n, 1.0 - p, 1.0 - hi, z)
    ensures Law(n, p, hi, z)
  {
    assert (1.0 - p) - (1.0 - hi) == -(p - hi);
    assert (-(p - hi)) * (-(p - hi)) == (p - hi) * (p - hi);
    assert (1.0 - hi) * (1.0 - (1.0 - hi)) == hi * (1.0 - hi);
  }

  /** What makes it Wilson's interval, at 95 %: both of its ends satisfy Wilson's law. */
  lemma WilsonLaw(k: nat, n: nat, root: real)
    requires 0 < n && k <= n && IsRoot(k, n, root)
    ensures var i := Wilson(k, n, root);
            && i.p == k as real / n as real
            && Law(n, i.p, i.lo, 1.959963985) && Law(n, i.p, i.hi, 1.959963985)
  {
    WilsonInterval(k, n, root);
    LowerLaw(k, n, root);
    Mirror(k, n, root);
    LowerLaw(n - k, n, root);
    assert Share(k, n) == k as real / n as real;
    hide Wilson, Centre, Half, Share, IsRoot, Law;
    var i := Wilson(k, n, root);
    assert Z == 1.959963985;
    LawMirrors(n, i.p, i.hi, Z);
  }
}
