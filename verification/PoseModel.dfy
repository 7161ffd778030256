/**
  One leg: the rest pose solved from the home stance, the forward chain, the placement of
  the leg on the body, and the reach test, in exact real arithmetic. An angle is its cosine
  and sine; a square root, a quotient or a direction is given by the equation that defines
  it. Multiplication is passed in by name, so that a proof opens a product only where it says
  so; `Multiplies` says that it is multiplication.
  */
module PoseModel {
  import opened RobotConfigs

  // ---------- Products ----------

  type Product = (real, real) -> real

  /** Names the products a proof opens. */
  predicate Here(a: real, b: real) {
    true
  }

  ghost predicate Multiplies(x: Product) {
    forall a: real, b: real {:trigger Here(a, b)} :: Here(a, b) ==> x(a, b) == a * b
  }

  function Times(a: real, b: real): real {
    a * b
  }

  lemma TimesMultiplies()
    ensures Multiplies(Times)
  {
  }

  function Sq(x: Product, a: real): real {
    x(a, a)
  }

  // ---------- Angles and roots ----------

  datatype Angle = Angle(cos: real, sin: real)

  const ZERO := Angle(1.0, 0.0)

  predicate Unit(x: Product, a: Angle) {
    Sq(x, a.cos) + Sq(x, a.sin) == 1.0
  }

  function Plus(x: Product, a: Angle, b: Angle): Angle {
    Angle(x(a.cos, b.cos) - x(a.sin, b.sin), x(a.sin, b.cos) + x(a.cos, b.sin))
  }

  function Minus(x: Product, a: Angle, b: Angle): Angle {
    Angle(x(a.cos, b.cos) + x(a.sin, b.sin), x(a.sin, b.cos) - x(a.cos, b.sin))
  }

  predicate IsRoot(x: Product, root: real, square: real) {
    root >= 0.0 && Sq(x, root) == square
  }

  /** `a` is the direction of the point (`h`, `v`) at distance `d`; at the origin it is zero. */
  predicate Points(x: Product, a: Angle, v: real, h: real, d: real) {
    if d > 0.0 then x(d, a.cos) == h && x(d, a.sin) == v else a == ZERO
  }

  // ---------- The leg ----------

  datatype Leg = Leg(l1: real, l2: real, l3: real)

  predicate Proper(g: Leg) {
    g.l1 > 0.0 && g.l2 > 0.0 && g.l3 > 0.0
  }

  /** The values `_solve_raw_planar` computes, in order: the distance to the foot, the knee
      cosine before clamping, the knee, the length of the folded arm, and two directions. */
  datatype Solution = Solution(reach: real, cosK: real, beta: Angle, arm: real, a: Angle, b: Angle)

  function ClampOne(k: real): real {
    if k > 1.0 then 1.0 else if k < -1.0 then -1.0 else k
  }

  /** The square of the distance of the foot asked for. */
  function Wanted(x: Product, g: Leg, horizontal: real, dz: real): real {
    Sq(x, horizontal - g.l1) + Sq(x, dz)
  }

  /** The folded arm: how far the foot lies along the femur and across it. */
  function Along(x: Product, g: Leg, beta: Angle): real {
    g.l2 + x(g.l3, beta.cos)
  }

  function Across(x: Product, g: Leg, beta: Angle): real {
    x(g.l3, beta.sin)
  }

  /** The knee bends outwards: its sine is not positive. */
  predicate Solves(x: Product, g: Leg, horizontal: real, dz: real, s: Solution) {
    var p, q := Along(x, g, s.beta), Across(x, g, s.beta);
    IsRoot(x, s.reach, Wanted(x, g, horizontal, dz))
    && x(2.0 * x(g.l2, g.l3), s.cosK) == Wanted(x, g, horizontal, dz) - Sq(x, g.l2) - Sq(x, g.l3)
    && s.beta.cos == ClampOne(s.cosK) && s.beta.sin <= 0.0 && Unit(x, s.beta)
    && IsRoot(x, s.arm, Sq(x, p) + Sq(x, q))
    && Points(x, s.a, dz, horizontal - g.l1, s.reach) && Points(x, s.b, q, p, s.arm)
  }

  datatype Rest = Rest(femur: Angle, tibia: Angle)

  function RestOf(x: Product, s: Solution): Rest {
    Rest(Minus(x, s.a, s.b), s.beta)
  }

  datatype Planar = Planar(r: real, z: real)

  /** The foot in the leg's plane, for raw femur and tibia angles. */
  function FootOf(x: Product, g: Leg, alpha: Angle, beta: Angle): Planar {
    var far := Plus(x, alpha, beta);
    Planar(g.l1 + x(g.l2, alpha.cos) + x(g.l3, far.cos), x(g.l2, alpha.sin) + x(g.l3, far.sin))
  }

  datatype Point = Point(x: real, y: real, z: real)

  /** The foot in the coxa frame, for joint angles relative to the rest pose. */
  function Foot(x: Product, g: Leg, rest: Rest, coxa: Angle, femur: Angle, tibia: Angle): Point {
    var p := FootOf(x, g, Plus(x, femur, rest.femur), Plus(x, tibia, rest.tibia));
    Point(x(p.r, coxa.cos), x(p.r, coxa.sin), p.z)
  }

  // ---------- Facts about products ----------

  lemma One(x: Product, a: real)
    requires Multiplies(x)
    ensures x(1.0, a) == a && x(a, 1.0) == a && x(0.0, a) == 0.0 && x(a, 0.0) == 0.0
  {
    assert Here(1.0, a) && Here(a, 1.0) && Here(0.0, a) && Here(a, 0.0);
  }

  lemma Positive(x: Product, a: real, b: real)
    requires Multiplies(x) && a > 0.0 && b > 0.0
    ensures x(a, b) > 0.0
  {
    assert Here(a, b);
  }

  lemma Negated(x: Product, a: real)
    requires Multiplies(x)
    ensures Sq(x, -a) == Sq(x, a)
  {
    assert Here(a, a) && Here(-a, -a);
  }

  lemma SquareSign(x: Product, a: real)
    requires Multiplies(x)
    ensures Sq(x, a) >= 0.0 && (a > 0.0 || a < 0.0 ==> Sq(x, a) > 0.0)
  {
    Negated(x, a);
    if a > 0.0 {
      Positive(x, a, a);
    } else if a < 0.0 {
      Positive(x, -a, -a);
    } else {
      One(x, a);
    }
  }

  lemma DifferenceOfSquares(x: Product, a: real, b: real)
    requires Multiplies(x)
    ensures x(a - b, a + b) == Sq(x, a) - Sq(x, b)
  {
    assert Here(a - b, a + b) && Here(a, a) && Here(b, b);
  }

  lemma RootsCompare(x: Product, a: real, b: real)
    requires Multiplies(x) && a >= 0.0 && b >= 0.0
    ensures a <= b <==> Sq(x, a) <= Sq(x, b)
  {
    DifferenceOfSquares(x, a, b);
    DifferenceOfSquares(x, b, a);
    if a < b {
      Positive(x, b - a, b + a);
    } else if b < a {
      Positive(x, a - b, a + b);
    }
  }

  lemma SameRoot(x: Product, a: real, b: real, square: real)
    requires Multiplies(x) && IsRoot(x, a, square) && IsRoot(x, b, square)
    ensures a == b
  {
    RootsCompare(x, a, b);
    RootsCompare(x, b, a);
  }

  lemma Distributes(x: Product, a: real, b: real, c: real)
    requires Multiplies(x)
    ensures x(a, b + c) == x(a, b) + x(a, c) && x(a, b - c) == x(a, b) - x(a, c)
    ensures x(b + c, a) == x(b, a) + x(c, a) && x(b - c, a) == x(b, a) - x(c, a)
  {
    assert Here(a, b + c) && Here(a, b) && Here(a, c) && Here(a, b - c);
    assert Here(b + c, a) && Here(b, a) && Here(c, a) && Here(b - c, a);
  }

  lemma Regroups(x: Product, a: real, b: real, c: real)
    requires Multiplies(x)
    ensures x(a, x(b, c)) == x(x(a, b), c) && x(a, b) == x(b, a)
  {
    assert Here(b, c) && Here(a, b) && Here(b, a) && Here(a, b * c) && Here(a * b, c);
  }

  /** A positive factor can be cancelled. */
  lemma Cancel(x: Product, e: real, n: real, m: real)
    requires Multiplies(x) && e > 0.0 && x(e, n) == x(e, m)
    ensures n == m
  {
    Distributes(x, e, n, m);
    Distributes(x, e, m, n);
    if n > m {
      Positive(x, e, n - m);
    } else if n < m {
      Positive(x, e, m - n);
    }
  }

  lemma SquareOfProduct(x: Product, a: real, b: real)
    requires Multiplies(x)
    ensures Sq(x, x(a, b)) == x(Sq(x, a), Sq(x, b))
  {
    assert Here(a, b) && Here(a, a) && Here(b, b) && Here(a * b, a * b) && Here(a * a, b * b);
    SquareOfProductPlain(a, b);
  }

  lemma SquareOfProductPlain(a: real, b: real)
    ensures (a * b) * (a * b) == (a * a) * (b * b)
  {
  }

  lemma SquareOfSum(x: Product, a: real, b: real)
    requires Multiplies(x)
    ensures Sq(x, a + b) == Sq(x, a) + 2.0 * x(a, b) + Sq(x, b)
    ensures Sq(x, a - b) == Sq(x, a) - 2.0 * x(a, b) + Sq(x, b)
  {
    assert Here(a + b, a + b) && Here(a - b, a - b) && Here(a, a) && Here(a, b) && Here(b, b);
    SquareOfSumPlain(a, b);
  }

  lemma SquareOfSumPlain(a: real, b: real)
    ensures (a + b) * (a + b) == a * a + 2.0 * (a * b) + b * b
    ensures (a - b) * (a - b) == a * a - 2.0 * (a * b) + b * b
  {
  }

  // ---------- Turning ----------

  lemma CrossTerms(x: Product, c: real, s: real, p: real, q: real)
    requires Multiplies(x)
    ensures x(x(c, p), x(s, q)) == x(x(s, p), x(c, q))
  {
    assert Here(c, p) && Here(s, q) && Here(s, p) && Here(c, q);
    assert Here(c * p, s * q) && Here(s * p, c * q);
    CrossTermsPlain(c, s, p, q);
  }

  lemma CrossTermsPlain(c: real, s: real, p: real, q: real)
    ensures (c * p) * (s * q) == (s * p) * (c * q)
  {
  }

  lemma SquaredSum(x: Product, c: real, s: real, p: real, q: real)
    requires Multiplies(x)
    ensures x(Sq(x, c) + Sq(x, s), Sq(x, p) + Sq(x, q))
         == x(Sq(x, c), Sq(x, p)) + x(Sq(x, c), Sq(x, q)) + (x(Sq(x, s), Sq(x, p)) + x(Sq(x, s), Sq(x, q)))
  {
    Distributes(x, Sq(x, p) + Sq(x, q), Sq(x, c), Sq(x, s));
    Distributes(x, Sq(x, c), Sq(x, p), Sq(x, q));
    Distributes(x, Sq(x, s), Sq(x, p), Sq(x, q));
  }

  /** Turning by an angle multiplies lengths. */
  lemma LengthsMultiply(x: Product, c: real, s: real, p: real, q: real)
    requires Multiplies(x)
    ensures Sq(x, x(c, p) - x(s, q)) + Sq(x, x(s, p) + x(c, q)) == x(Sq(x, c) + Sq(x, s), Sq(x, p) + Sq(x, q))
  {
    SquareOfSum(x, x(c, p), x(s, q));
    SquareOfSum(x, x(s, p), x(c, q));
    CrossTerms(x, c, s, p, q);
    SquareOfProduct(x, c, p);
    SquareOfProduct(x, s, q);
    SquareOfProduct(x, s, p);
    SquareOfProduct(x, c, q);
    SquaredSum(x, c, s, p, q);
  }

  lemma UnitPlus(x: Product, a: Angle, b: Angle)
    requires Multiplies(x) && Unit(x, a) && Unit(x, b)
    ensures Unit(x, Plus(x, a, b))
  {
    LengthsMultiply(x, a.cos, a.sin, b.cos, b.sin);
    One(x, 1.0);
  }

  lemma UnitMinus(x: Product, a: Angle, b: Angle)
    requires Multiplies(x) && Unit(x, a) && Unit(x, b)
    ensures Unit(x, Minus(x, a, b))
  {
    LengthsMultiply(x, a.cos, a.sin, b.cos, -b.sin);
    Negated(x, b.sin);
    One(x, 1.0);
    NegatedFactor(x, a.sin, b.sin);
    NegatedFactor(x, a.cos, b.sin);
  }

  lemma NegatedFactor(x: Product, a: real, b: real)
    requires Multiplies(x)
    ensures x(a, -b) == -x(a, b)
  {
    assert Here(a, b) && Here(a, -b);
  }

  lemma ZeroUnit(x: Product)
    requires Multiplies(x)
    ensures Unit(x, ZERO)
  {
    One(x, 1.0);
    One(x, 0.0);
  }

  lemma PlusZero(x: Product, a: Angle)
    requires Multiplies(x)
    ensures Plus(x, ZERO, a) == a && Minus(x, ZERO, ZERO) == ZERO
  {
    One(x, a.cos);
    One(x, a.sin);
    One(x, 1.0);
    One(x, 0.0);
  }

  /** A direction is an angle, and the point is its distance in that direction. */
  lemma PointsUnit(x: Product, a: Angle, v: real, h: real, d: real)
    requires Multiplies(x) && Points(x, a, v, h, d) && IsRoot(x, d, Sq(x, h) + Sq(x, v))
    ensures Unit(x, a) && x(d, a.cos) == h && x(d, a.sin) == v
  {
    if d > 0.0 {
      SquareOfProduct(x, d, a.cos);
      SquareOfProduct(x, d, a.sin);
      SquareSign(x, d);
      Distributes(x, Sq(x, d), Sq(x, a.cos), Sq(x, a.sin));
      One(x, Sq(x, d));
      Cancel(x, Sq(x, d), Sq(x, a.cos) + Sq(x, a.sin), 1.0);
    } else {
      ZeroUnit(x);
      One(x, d);
      One(x, 1.0);
      SquareSign(x, h);
      SquareSign(x, v);
    }
  }

  /** Turning a vector from its own direction `b` to direction `a`. */
  lemma TurnOnto(x: Product, a: Angle, b: Angle, p: real, q: real, d: real)
    requires Multiplies(x) && Unit(x, b) && x(d, b.cos) == p && x(d, b.sin) == q
    ensures var t := Minus(x, a, b);
            x(t.cos, p) - x(t.sin, q) == x(d, a.cos) && x(t.sin, p) + x(t.cos, q) == x(d, a.sin)
  {
    assert Here(a.cos, b.cos) && Here(a.sin, b.sin) && Here(a.sin, b.cos) && Here(a.cos, b.sin);
    assert Here(d, b.cos) && Here(d, b.sin) && Here(b.cos, b.cos) && Here(b.sin, b.sin);
    var t := Minus(x, a, b);
    assert Here(t.cos, p) && Here(t.sin, q) && Here(t.sin, p) && Here(t.cos, q) && Here(d, a.cos) && Here(d, a.sin);
    TurnOntoPlain(a.cos, a.sin, b.cos, b.sin, d);
  }

  lemma TurnOntoPlain(u: real, v: real, c: real, s: real, d: real)
    requires c * c + s * s == 1.0
    ensures (u * c + v * s) * (d * c) - (v * c - u * s) * (d * s) == d * u
    ensures (v * c - u * s) * (d * c) + (u * c + v * s) * (d * s) == d * v
  {
    assert (u * c + v * s) * (d * c) - (v * c - u * s) * (d * s) == (d * u) * (c * c + s * s);
    assert (v * c - u * s) * (d * c) + (u * c + v * s) * (d * s) == (d * v) * (c * c + s * s);
  }

  // ---------- The home stance ----------

  /** The foot lies within the ring the two links reach. */
  predicate InReach(x: Product, g: Leg, d2: real) {
    Sq(x, g.l2 - g.l3) <= d2 <= Sq(x, g.l2 + g.l3)
  }

  /** The square of the distance from the femur axis to the foot, for a knee angle. */
  function ArmSquare(x: Product, g: Leg, k: real): real {
    Sq(x, g.l2) + Sq(x, g.l3) + x(2.0 * x(g.l2, g.l3), k)
  }

  lemma Doubled(x: Product, a: real, b: real)
    requires Multiplies(x)
    ensures x(2.0 * a, b) == 2.0 * x(a, b)
  {
    assert Here(2.0 * a, b) && Here(a, b);
  }

  lemma ArmIsPythagoras(x: Product, g: Leg, beta: Angle)
    requires Multiplies(x) && Unit(x, beta)
    ensures Sq(x, Along(x, g, beta)) + Sq(x, Across(x, g, beta)) == ArmSquare(x, g, beta.cos)
  {
    SquareOfSum(x, g.l2, x(g.l3, beta.cos));
    SquareOfProduct(x, g.l3, beta.cos);
    SquareOfProduct(x, g.l3, beta.sin);
    Distributes(x, Sq(x, g.l3), Sq(x, beta.cos), Sq(x, beta.sin));
    One(x, Sq(x, g.l3));
    Regroups(x, g.l2, g.l3, beta.cos);
    Doubled(x, x(g.l2, g.l3), beta.cos);
  }

  /** The knee cosine needs no clamping exactly when the foot is in reach, and then the arm is
      as long as the foot is far. */
  lemma KneeExactIffInReach(x: Product, g: Leg, d2: real, k: real)
    requires Multiplies(x) && Proper(g) && x(2.0 * x(g.l2, g.l3), k) == d2 - Sq(x, g.l2) - Sq(x, g.l3)
    ensures InReach(x, g, d2) <==> ArmSquare(x, g, ClampOne(k)) == d2
  {
    var m := 2.0 * x(g.l2, g.l3);
    Positive(x, g.l2, g.l3);
    SquareOfSum(x, g.l2, g.l3);
    Clamped(x, m, k);
  }

  /** Scaling keeps the order of a number and the bounds of a cosine. */
  lemma Clamped(x: Product, m: real, k: real)
    requires Multiplies(x) && m > 0.0
    ensures -m <= x(m, k) <= m <==> x(m, ClampOne(k)) == x(m, k)
    ensures -1.0 <= k <= 1.0 ==> -m <= x(m, k) <= m
  {
    Distributes(x, m, k, 1.0);
    Distributes(x, m, 1.0, k);
    Distributes(x, m, k, -1.0);
    One(x, m);
    assert Here(m, -1.0);
    if k > 1.0 {
      Positive(x, m, k - 1.0);
    } else if k < 1.0 {
      Positive(x, m, 1.0 - k);
    }
    if k < -1.0 {
      Distributes(x, m, -1.0, k);
      Positive(x, m, -1.0 - k);
    } else if k > -1.0 {
      Positive(x, m, k - -1.0);
    }
  }

  /** The foot is the folded arm turned by the femur angle. */
  lemma FootIsTurnedArm(x: Product, g: Leg, alpha: Angle, beta: Angle)
    requires Multiplies(x)
    ensures var p, q := Along(x, g, beta), Across(x, g, beta);
            FootOf(x, g, alpha, beta)
            == Planar(g.l1 + (x(alpha.cos, p) - x(alpha.sin, q)), x(alpha.sin, p) + x(alpha.cos, q))
  {
    Distributes(x, g.l3, x(alpha.cos, beta.cos), x(alpha.sin, beta.sin));
    Distributes(x, g.l3, x(alpha.sin, beta.cos), x(alpha.cos, beta.sin));
    Distributes(x, alpha.cos, g.l2, x(g.l3, beta.cos));
    Distributes(x, alpha.sin, g.l2, x(g.l3, beta.cos));
    Swapped(x, g.l3, alpha.cos, beta.cos);
    Swapped(x, g.l3, alpha.sin, beta.sin);
    Swapped(x, g.l3, alpha.sin, beta.cos);
    Swapped(x, g.l3, alpha.cos, beta.sin);
    Regroups(x, g.l2, alpha.cos, 1.0);
    Regroups(x, g.l2, alpha.sin, 1.0);
  }

  lemma Swapped(x: Product, a: real, b: real, c: real)
    requires Multiplies(x)
    ensures x(a, x(b, c)) == x(b, x(a, c))
  {
    assert Here(b, c) && Here(a, c) && Here(a, b * c) && Here(b, a * c);
    SwappedPlain(a, b, c);
  }

  lemma SwappedPlain(a: real, b: real, c: real)
    ensures a * (b * c) == b * (a * c)
  {
  }

  // ---------- What each joint does ----------

  /** The vector (`h`, `v`) turned by the angle `t`. */
  function Turned(x: Product, t: Angle, h: real, v: real): Planar {
    Planar(x(t.cos, h) - x(t.sin, v), x(t.sin, h) + x(t.cos, v))
  }

  /** Lengthening a turned direction is turning the lengthened one. */
  lemma TurnedLonger(x: Product, t: Angle, a: Angle, d: real)
    requires Multiplies(x)
    ensures var b := Plus(x, t, a); Planar(x(d, b.cos), x(d, b.sin)) == Turned(x, t, x(d, a.cos), x(d, a.sin))
  {
    Distributes(x, d, x(t.cos, a.cos), x(t.sin, a.sin));
    Distributes(x, d, x(t.sin, a.cos), x(t.cos, a.sin));
    Swapped(x, d, t.cos, a.cos);
    Swapped(x, d, t.sin, a.sin);
    Swapped(x, d, t.sin, a.cos);
    Swapped(x, d, t.cos, a.sin);
  }

  /** Turning the coxa by `t` turns the foot by `t` about the coxa's axis and keeps its height. */
  lemma CoxaTurns(x: Product, g: Leg, rest: Rest, t: Angle, coxa: Angle, femur: Angle, tibia: Angle)
    requires Multiplies(x)
    ensures var p, q := Foot(x, g, rest, coxa, femur, tibia), Foot(x, g, rest, Plus(x, t, coxa), femur, tibia);
            Planar(q.x, q.y) == Turned(x, t, p.x, p.y) && q.z == p.z
  {
    var foot := FootOf(x, g, Plus(x, femur, rest.femur), Plus(x, tibia, rest.tibia));
    TurnedLonger(x, t, coxa, foot.r);
  }

  lemma TurnedSum(x: Product, t: Angle, h: real, v: real, h': real, v': real)
    requires Multiplies(x)
    ensures var a, b := Turned(x, t, h, v), Turned(x, t, h', v');
            Turned(x, t, h + h', v + v') == Planar(a.r + b.r, a.z + b.z)
  {
    Distributes(x, t.cos, h, h');
    Distributes(x, t.sin, v, v');
    Distributes(x, t.sin, h, h');
    Distributes(x, t.cos, v, v');
  }

  /** Angles add in any grouping. */
  lemma PlusAssociates(x: Product, t: Angle, a: Angle, b: Angle)
    requires Multiplies(x)
    ensures Plus(x, Plus(x, t, a), b) == Plus(x, t, Plus(x, a, b))
  {
    ExpandLeft(x, t, a, b);
    ExpandRight(x, t, a, b);
    GroupedAlike(x, t.cos, t.sin, a, b);
  }

  lemma ExpandLeft(x: Product, t: Angle, a: Angle, b: Angle)
    requires Multiplies(x)
    ensures var l := Plus(x, Plus(x, t, a), b);
            l.cos == x(x(t.cos, a.cos), b.cos) - x(x(t.sin, a.sin), b.cos)
                     - (x(x(t.sin, a.cos), b.sin) + x(x(t.cos, a.sin), b.sin))
            && l.sin == x(x(t.sin, a.cos), b.cos) + x(x(t.cos, a.sin), b.cos)
                        + (x(x(t.cos, a.cos), b.sin) - x(x(t.sin, a.sin), b.sin))
  {
    Distributes(x, b.cos, x(t.cos, a.cos), x(t.sin, a.sin));
    Distributes(x, b.sin, x(t.sin, a.cos), x(t.cos, a.sin));
    Distributes(x, b.cos, x(t.sin, a.cos), x(t.cos, a.sin));
    Distributes(x, b.sin, x(t.cos, a.cos), x(t.sin, a.sin));
  }

  lemma ExpandRight(x: Product, t: Angle, a: Angle, b: Angle)
    requires Multiplies(x)
    ensures var r := Plus(x, t, Plus(x, a, b));
            r.cos == x(t.cos, x(a.cos, b.cos)) - x(t.cos, x(a.sin, b.sin))
                     - (x(t.sin, x(a.sin, b.cos)) + x(t.sin, x(a.cos, b.sin)))
            && r.sin == x(t.sin, x(a.cos, b.cos)) - x(t.sin, x(a.sin, b.sin))
                        + (x(t.cos, x(a.sin, b.cos)) + x(t.cos, x(a.cos, b.sin)))
  {
    Distributes(x, t.cos, x(a.cos, b.cos), x(a.sin, b.sin));
    Distributes(x, t.sin, x(a.sin, b.cos), x(a.cos, b.sin));
    Distributes(x, t.sin, x(a.cos, b.cos), x(a.sin, b.sin));
    Distributes(x, t.cos, x(a.sin, b.cos), x(a.cos, b.sin));
  }

  lemma GroupedAlike(x: Product, c: real, s: real, a: Angle, b: Angle)
    requires Multiplies(x)
    ensures x(x(c, a.cos), b.cos) == x(c, x(a.cos, b.cos)) && x(x(c, a.sin), b.sin) == x(c, x(a.sin, b.sin))
    ensures x(x(c, a.sin), b.cos) == x(c, x(a.sin, b.cos)) && x(x(c, a.cos), b.sin) == x(c, x(a.cos, b.sin))
    ensures x(x(s, a.cos), b.cos) == x(s, x(a.cos, b.cos)) && x(x(s, a.sin), b.sin) == x(s, x(a.sin, b.sin))
    ensures x(x(s, a.sin), b.cos) == x(s, x(a.sin, b.cos)) && x(x(s, a.cos), b.sin) == x(s, x(a.cos, b.sin))
  {
    Regroups(x, c, a.cos, b.cos);
    Regroups(x, c, a.sin, b.sin);
    Regroups(x, c, a.sin, b.cos);
    Regroups(x, c, a.cos, b.sin);
    Regroups(x, s, a.cos, b.cos);
    Regroups(x, s, a.sin, b.sin);
    Regroups(x, s, a.sin, b.cos);
    Regroups(x, s, a.cos, b.sin);
  }

  lemma PlusCommutes(x: Product, a: Angle, b: Angle)
    requires Multiplies(x)
    ensures Plus(x, a, b) == Plus(x, b, a)
  {
    Regroups(x, a.cos, b.cos, 1.0);
    Regroups(x, a.sin, b.sin, 1.0);
    Regroups(x, a.sin, b.cos, 1.0);
    Regroups(x, a.cos, b.sin, 1.0);
  }

  /** Turning the femur by `t` turns the foot by `t` about the femur's axis, which lies at `l1`. */
  lemma FemurTurns(x: Product, g: Leg, t: Angle, alpha: Angle, beta: Angle)
    requires Multiplies(x)
    ensures var p, q := FootOf(x, g, alpha, beta), FootOf(x, g, Plus(x, t, alpha), beta);
            Planar(q.r - g.l1, q.z) == Turned(x, t, p.r - g.l1, p.z)
  {
    var far := Plus(x, alpha, beta);
    PlusAssociates(x, t, alpha, beta);
    TurnedLonger(x, t, alpha, g.l2);
    TurnedLonger(x, t, far, g.l3);
    TurnedSum(x, t, x(g.l2, alpha.cos), x(g.l2, alpha.sin), x(g.l3, far.cos), x(g.l3, far.sin));
    assert FootOf(x, g, alpha, beta).r - g.l1 == x(g.l2, alpha.cos) + x(g.l3, far.cos);
  }

  /** Turning the tibia by `t` turns the foot by `t` about the knee, which stays where it is. */
  lemma TibiaTurns(x: Product, g: Leg, t: Angle, alpha: Angle, beta: Angle)
    requires Multiplies(x)
    ensures var p, q := FootOf(x, g, alpha, beta), FootOf(x, g, alpha, Plus(x, t, beta));
            var knee := Planar(g.l1 + x(g.l2, alpha.cos), x(g.l2, alpha.sin));
            Planar(q.r - knee.r, q.z - knee.z) == Turned(x, t, p.r - knee.r, p.z - knee.z)
  {
    var far := Plus(x, alpha, beta);
    PlusCommutes(x, alpha, Plus(x, t, beta));
    PlusAssociates(x, t, beta, alpha);
    PlusCommutes(x, beta, alpha);
    TurnedLonger(x, t, far, g.l3);
    assert FootOf(x, g, alpha, beta).r - (g.l1 + x(g.l2, alpha.cos)) == x(g.l3, far.cos);
    assert FootOf(x, g, alpha, beta).z - x(g.l2, alpha.sin) == x(g.l3, far.sin);
  }

  /** The sine of what is left when an angle is taken out of a sum. */
  lemma SineOfRest(x: Product, alpha: Angle, beta: Angle)
    requires Multiplies(x) && Unit(x, alpha)
    ensures var far := Plus(x, alpha, beta); x(alpha.cos, far.sin) - x(alpha.sin, far.cos) == beta.sin
  {
    var c, s := alpha.cos, alpha.sin;
    Distributes(x, c, x(s, beta.cos), x(c, beta.sin));
    Distributes(x, s, x(c, beta.cos), x(s, beta.sin));
    Swapped(x, c, s, beta.cos);
    Regroups(x, c, c, beta.sin);
    Regroups(x, s, s, beta.sin);
    Distributes(x, beta.sin, Sq(x, c), Sq(x, s));
    One(x, beta.sin);
  }

  /** In the rest pose the knee bends outwards: going along the femur, the tibia turns down. */
  lemma KneeBendsOut(x: Product, g: Leg, horizontal: real, dz: real, s: Solution, alpha: Angle)
    requires Multiplies(x) && Proper(g) && Solves(x, g, horizontal, dz, s) && Unit(x, alpha)
    ensures var far := Plus(x, alpha, RestOf(x, s).tibia);
            x(x(g.l2, alpha.cos), x(g.l3, far.sin)) - x(x(g.l2, alpha.sin), x(g.l3, far.cos)) <= 0.0
  {
    var far := Plus(x, alpha, s.beta);
    FactorsApart(x, g.l2, alpha.cos, g.l3, far.sin);
    FactorsApart(x, g.l2, alpha.sin, g.l3, far.cos);
    SineOfRest(x, alpha, s.beta);
    Distributes(x, x(g.l2, g.l3), x(alpha.cos, far.sin), x(alpha.sin, far.cos));
    Positive(x, g.l2, g.l3);
    NotPositive(x, x(g.l2, g.l3), s.beta.sin);
  }

  lemma FactorsApart(x: Product, a: real, b: real, c: real, d: real)
    requires Multiplies(x)
    ensures x(x(a, b), x(c, d)) == x(x(a, c), x(b, d))
  {
    Regroups(x, a, b, x(c, d));
    Swapped(x, b, c, d);
    Regroups(x, a, c, x(b, d));
  }

  lemma NotPositive(x: Product, a: real, b: real)
    requires Multiplies(x) && a > 0.0 && b <= 0.0
    ensures x(a, b) <= 0.0
  {
    assert Here(a, b);
  }

  /** However the leg is bent, its foot is as far from the femur axis as the knee makes it. */
  lemma FootDistance(x: Product, g: Leg, alpha: Angle, beta: Angle)
    requires Multiplies(x) && Unit(x, alpha) && Unit(x, beta)
    ensures var f := FootOf(x, g, alpha, beta);
            Sq(x, f.r - g.l1) + Sq(x, f.z) == ArmSquare(x, g, beta.cos)
  {
    var p, q := Along(x, g, beta), Across(x, g, beta);
    FootIsTurnedArm(x, g, alpha, beta);
    LengthsMultiply(x, alpha.cos, alpha.sin, p, q);
    One(x, Sq(x, p) + Sq(x, q));
    ArmIsPythagoras(x, g, beta);
  }

  /** In reach, the rest pose puts the foot exactly where it was asked for. */
  lemma RestReaches(x: Product, g: Leg, horizontal: real, dz: real, s: Solution)
    requires Multiplies(x) && Proper(g) && Solves(x, g, horizontal, dz, s)
    requires InReach(x, g, Wanted(x, g, horizontal, dz))
    ensures FootOf(x, g, Minus(x, s.a, s.b), s.beta) == Planar(horizontal, dz)
  {
    var p, q := Along(x, g, s.beta), Across(x, g, s.beta);
    KneeExactIffInReach(x, g, Wanted(x, g, horizontal, dz), s.cosK);
    ArmIsPythagoras(x, g, s.beta);
    SameRoot(x, s.arm, s.reach, Wanted(x, g, horizontal, dz));
    PointsUnit(x, s.a, dz, horizontal - g.l1, s.reach);
    PointsUnit(x, s.b, q, p, s.arm);
    FootIsTurnedArm(x, g, Minus(x, s.a, s.b), s.beta);
    TurnOnto(x, s.a, s.b, p, q, s.reach);
  }

  /** The rest angles are angles. */
  lemma RestUnits(x: Product, g: Leg, horizontal: real, dz: real, s: Solution)
    requires Multiplies(x) && Proper(g) && Solves(x, g, horizontal, dz, s)
    ensures Unit(x, RestOf(x, s).femur) && Unit(x, RestOf(x, s).tibia)
  {
    PointsUnit(x, s.a, dz, horizontal - g.l1, s.reach);
    PointsUnit(x, s.b, Across(x, g, s.beta), Along(x, g, s.beta), s.arm);
    UnitMinus(x, s.a, s.b);
  }

  /** At all-zero joint angles the foot lies at the home radius and height, straight ahead of
      the coxa, exactly when the home stance is in reach. */
  lemma HomeFootExact(x: Product, g: Leg, horizontal: real, dz: real, s: Solution)
    requires Multiplies(x) && Proper(g) && Solves(x, g, horizontal, dz, s)
    ensures Foot(x, g, RestOf(x, s), ZERO, ZERO, ZERO) == Point(horizontal, 0.0, dz)
            <==> InReach(x, g, Wanted(x, g, horizontal, dz))
  {
    var rest := RestOf(x, s);
    PlusZero(x, rest.femur);
    PlusZero(x, rest.tibia);
    var f := FootOf(x, g, rest.femur, rest.tibia);
    One(x, f.r);
    if InReach(x, g, Wanted(x, g, horizontal, dz)) {
      RestReaches(x, g, horizontal, dz, s);
    } else {
      RestUnits(x, g, horizontal, dz, s);
      FootDistance(x, g, rest.femur, rest.tibia);
      KneeExactIffInReach(x, g, Wanted(x, g, horizontal, dz), s.cosK);
    }
  }

  // ---------- Reach ----------

  /** A leg's place on the body. */
  datatype Placement = Placement(hipX: real, hipY: real, zOff: real, turn: Angle)

  function ToBody(x: Product, at: Placement, p: Point): Point {
    Point(at.hipX + (x(at.turn.cos, p.x) + x(at.turn.sin, p.y)), at.hipY + (x(at.turn.cos, p.y) - x(at.turn.sin, p.x)),
          at.zOff + p.z)
  }

  function FromBody(x: Product, at: Placement, p: Point): Point {
    var dx, dy := p.x - at.hipX, p.y - at.hipY;
    Point(x(at.turn.cos, dx) - x(at.turn.sin, dy), x(at.turn.sin, dx) + x(at.turn.cos, dy), p.z - at.zOff)
  }

  /** What lies `r` straight ahead of the coxa or to its side goes to the turned place on the body:
      the leg's frame is the body's turned back by the leg's angle. */
  lemma PlacedOnBody(x: Product, at: Placement, r: real, z: real)
    requires Multiplies(x)
    ensures ToBody(x, at, Point(r, 0.0, z)) == Point(at.hipX + x(at.turn.cos, r), at.hipY - x(at.turn.sin, r), at.zOff + z)
    ensures ToBody(x, at, Point(0.0, r, z)) == Point(at.hipX + x(at.turn.sin, r), at.hipY + x(at.turn.cos, r), at.zOff + z)
  {
    One(x, at.turn.cos);
    One(x, at.turn.sin);
  }

  /** Placing a point on the body and taking it back are inverse. */
  lemma PlacementRoundTrip(x: Product, at: Placement, p: Point)
    requires Multiplies(x) && Unit(x, at.turn)
    ensures FromBody(x, at, ToBody(x, at, p)) == p
  {
    var c, s := at.turn.cos, at.turn.sin;
    Distributes(x, c, x(c, p.x), x(s, p.y));
    Distributes(x, s, x(c, p.y), x(s, p.x));
    Distributes(x, s, x(c, p.x), x(s, p.y));
    Distributes(x, c, x(c, p.y), x(s, p.x));
    Regroups(x, c, c, p.x);
    Regroups(x, s, s, p.x);
    Regroups(x, c, c, p.y);
    Regroups(x, s, s, p.y);
    Swapped(x, c, s, p.y);
    Swapped(x, c, s, p.x);
    Distributes(x, p.x, Sq(x, c), Sq(x, s));
    Distributes(x, p.y, Sq(x, c), Sq(x, s));
    One(x, p.x);
    One(x, p.y);
  }

  /** The distances `assess_foot_target` computes. */
  datatype Distances = Distances(horizontal: real, total: real)

  predicate Measures(x: Product, g: Leg, p: Point, d: Distances) {
    IsRoot(x, d.horizontal, Sq(x, p.x) + Sq(x, p.y))
    && IsRoot(x, d.total, Sq(x, d.horizontal - g.l1) + Sq(x, p.z))
  }

  function Abs(a: real): real {
    if a < 0.0 then -a else a
  }

  /** The verdict: the distance lies between the two extremes of the links. */
  predicate Reachable(g: Leg, d: Distances) {
    Abs(g.l2 - g.l3) <= d.total <= g.l2 + g.l3
  }

  /** The verdict compares squares. */
  lemma ReachableIsInReach(x: Product, g: Leg, p: Point, d: Distances)
    requires Multiplies(x) && Proper(g) && Measures(x, g, p, d)
    ensures Reachable(g, d) <==> InReach(x, g, Sq(x, d.horizontal - g.l1) + Sq(x, p.z))
  {
    RootsCompare(x, Abs(g.l2 - g.l3), d.total);
    RootsCompare(x, d.total, g.l2 + g.l3);
    Negated(x, g.l2 - g.l3);
  }

  lemma CosineBounds(x: Product, a: Angle)
    requires Multiplies(x) && Unit(x, a)
    ensures -1.0 <= a.cos <= 1.0
  {
    SquareSign(x, a.sin);
    Negated(x, a.cos);
    One(x, 1.0);
    RootsCompare(x, Abs(a.cos), 1.0);
  }

  lemma ArmInReach(x: Product, g: Leg, beta: Angle)
    requires Multiplies(x) && Proper(g) && Unit(x, beta)
    ensures InReach(x, g, ArmSquare(x, g, beta.cos))
  {
    CosineBounds(x, beta);
    Positive(x, g.l2, g.l3);
    SquareOfSum(x, g.l2, g.l3);
    Clamped(x, 2.0 * x(g.l2, g.l3), beta.cos);
  }

  lemma FootHorizontal(x: Product, r: real, coxa: Angle, h: real)
    requires Multiplies(x) && Unit(x, coxa) && IsRoot(x, h, Sq(x, x(r, coxa.cos)) + Sq(x, x(r, coxa.sin)))
    ensures h == Abs(r)
  {
    SquareOfProduct(x, r, coxa.cos);
    SquareOfProduct(x, r, coxa.sin);
    Distributes(x, Sq(x, r), Sq(x, coxa.cos), Sq(x, coxa.sin));
    One(x, Sq(x, r));
    Negated(x, r);
    SameRoot(x, h, Abs(r), Sq(x, r));
  }

  lemma FoldedIsNearer(x: Product, r: real, l1: real)
    requires Multiplies(x) && r < 0.0 && l1 > 0.0
    ensures Sq(x, -r - l1) <= Sq(x, r - l1)
  {
    SquareOfSum(x, -r, l1);
    SquareOfSum(x, r, l1);
    Positive(x, -r, l1);
    Negated(x, r);
    assert Here(-r, l1) && Here(r, l1);
  }

  /** The exact reach of the test: the foot of any joint angles, carried to the body, is judged
      reachable if its radial coordinate is not negative, and otherwise exactly when folding
      the radius over leaves it outside the inner circle. */
  lemma FootIsJudged(x: Product, g: Leg, at: Placement, rest: Rest, coxa: Angle, femur: Angle, tibia: Angle, d: Distances)
    requires Multiplies(x) && Proper(g) && Unit(x, at.turn) && Unit(x, coxa) && Unit(x, femur) && Unit(x, tibia)
    requires Unit(x, rest.femur) && Unit(x, rest.tibia)
    requires Measures(x, g, FromBody(x, at, ToBody(x, at, Foot(x, g, rest, coxa, femur, tibia))), d)
    ensures var foot := FootOf(x, g, Plus(x, femur, rest.femur), Plus(x, tibia, rest.tibia));
            Reachable(g, d) <==>
              foot.r >= 0.0 || Sq(x, g.l2 - g.l3) <= Sq(x, -foot.r - g.l1) + Sq(x, foot.z)
  {
    var alpha, beta := Plus(x, femur, rest.femur), Plus(x, tibia, rest.tibia);
    var foot, p := FootOf(x, g, alpha, beta), Foot(x, g, rest, coxa, femur, tibia);
    PlacementRoundTrip(x, at, p);
    UnitPlus(x, femur, rest.femur);
    UnitPlus(x, tibia, rest.tibia);
    FootHorizontal(x, foot.r, coxa, d.horizontal);
    FootDistance(x, g, alpha, beta);
    ArmInReach(x, g, beta);
    ReachableIsInReach(x, g, p, d);
    if foot.r < 0.0 {
      FoldedIsNearer(x, foot.r, g.l1);
    }
  }

  /** A foot folded behind the coxa axis can be judged out of reach although the leg is there. */
  lemma FoldedFootRejected(x: Product, d: Distances)
    requires Multiplies(x) && Measures(x, Leg(2.5, 4.0, 3.0), Point(-2.5, 0.0, 0.0), d)
    ensures var g := Leg(2.5, 4.0, 3.0);
            FootOf(x, g, Angle(-0.8, 0.6), Angle(0.0, 1.0)) == Planar(-2.5, 0.0) && !Reachable(g, d)
  {
    assert Here(-0.8, 0.0) && Here(0.6, 1.0) && Here(0.6, 0.0) && Here(-0.8, 1.0);
    assert Here(4.0, -0.8) && Here(3.0, -0.6) && Here(4.0, 0.6) && Here(3.0, -0.8);
    assert Here(-2.5, -2.5) && Here(2.5, 2.5) && Here(0.0, 0.0);
    SameRoot(x, d.horizontal, 2.5, 6.25);
    SameRoot(x, d.total, 0.0, 0.0);
  }

  // ---------- With multiplication itself ----------

  /** The home law for real multiplication. */
  lemma HomeFoot(g: Leg, horizontal: real, dz: real, s: Solution)
    requires Proper(g) && Solves(Times, g, horizontal, dz, s)
    ensures Foot(Times, g, RestOf(Times, s), ZERO, ZERO, ZERO) == Point(horizontal, 0.0, dz)
            <==> InReach(Times, g, Wanted(Times, g, horizontal, dz))
  {
    TimesMultiplies();
    HomeFootExact(Times, g, horizontal, dz, s);
  }

  /** The reach law for real multiplication. */
  lemma JudgedFoot(g: Leg, at: Placement, rest: Rest, coxa: Angle, femur: Angle, tibia: Angle, d: Distances)
    requires Proper(g) && Unit(Times, at.turn) && Unit(Times, coxa) && Unit(Times, femur) && Unit(Times, tibia)
    requires Unit(Times, rest.femur) && Unit(Times, rest.tibia)
    requires Measures(Times, g, FromBody(Times, at, ToBody(Times, at, Foot(Times, g, rest, coxa, femur, tibia))), d)
    ensures var foot := FootOf(Times, g, Plus(Times, femur, rest.femur), Plus(Times, tibia, rest.tibia));
            Reachable(g, d) <==>
              foot.r >= 0.0 || Sq(Times, g.l2 - g.l3) <= Sq(Times, -foot.r - g.l1) + Sq(Times, foot.z)
  {
    TimesMultiplies();
    FootIsJudged(Times, g, at, rest, coxa, femur, tibia, d);
  }

  // ---------- Valid configurations ----------

  lemma Hundredths(x: Product, m: int)
    requires Multiplies(x)
    ensures Sq(x, m as real / 100.0) == Square(m) as real / 10000.0
  {
    assert Here(m as real / 100.0, m as real / 100.0);
    assert (m * m) as real == m as real * m as real;
  }

  /** A stance that validation accepts is in reach, so its home foot is exact. */
  lemma ValidStanceInReach(x: Product, l: LinkLengths, b: BodyGeometry)
    requires Multiplies(x) && ValidStance(l, b)
    ensures var g := Leg(l.coxa as real / 100.0, l.femur as real / 100.0, l.tibia as real / 100.0);
            Proper(g) && InReach(x, g, Wanted(x, g, b.homeRadius as real / 100.0, b.homeFootZ as real / 100.0))
  {
    Hundredths(x, l.femur - l.tibia);
    Hundredths(x, l.femur + l.tibia);
    Hundredths(x, b.homeRadius - l.coxa);
    Hundredths(x, b.homeFootZ);
    assert l.femur as real / 100.0 - l.tibia as real / 100.0 == (l.femur - l.tibia) as real / 100.0;
    assert l.femur as real / 100.0 + l.tibia as real / 100.0 == (l.femur + l.tibia) as real / 100.0;
    assert b.homeRadius as real / 100.0 - l.coxa as real / 100.0 == (b.homeRadius - l.coxa) as real / 100.0;
  }
}
