/** The Euler angles and quaternions of `messages.cpp`, in exact arithmetic.  An
    angle is the point (cos, sin) it names on the unit circle; a half angle is
    given first and doubled, so every attitude is covered. */
module ImuAttitude {

  datatype Angle = Angle(c: real, s: real)
  datatype Quaternion = Quaternion(w: real, x: real, y: real, z: real)

  predicate Unit(a: Angle) {
    a.c * a.c + a.s * a.s == 1.0
  }

  function Double(a: Angle): Angle {
    Angle(a.c * a.c - a.s * a.s, 2.0 * a.s * a.c)
  }

  function Negate(a: Angle): Angle {
    Angle(a.c, -a.s)
  }

  function Norm2(q: Quaternion): real {
    q.w * q.w + q.x * q.x + q.y * q.y + q.z * q.z
  }

  /** Hamilton product. */
  function Qmul(a: Quaternion, b: Quaternion): Quaternion {
    Quaternion(
      a.w * b.w - a.x * b.x - a.y * b.y - a.z * b.z,
      a.w * b.x + a.x * b.w + a.y * b.z - a.z * b.y,
      a.w * b.y - a.x * b.z + a.y * b.w + a.z * b.x,
      a.w * b.z + a.x * b.y - a.y * b.x + a.z * b.w)
  }

  /** Heading about z (reversed), then pitch about x, then roll about y, from the
      three half angles. */
  function Composed(h: Angle, p: Angle, r: Angle): Quaternion {
    var hz := Negate(h);
    Qmul(Qmul(Quaternion(hz.c, 0.0, 0.0, hz.s), Quaternion(p.c, p.s, 0.0, 0.0)), Quaternion(r.c, 0.0, r.s, 0.0))
  }

  // ----- the composed quaternion, written out -----

  /** The four products of the coordinates of two angles. */
  datatype Products = Products(cc: real, ss: real, cs: real, sc: real)

  function ProductsOf(h: Angle, p: Angle): Products {
    Products(h.c * p.c, h.s * p.s, h.c * p.s, h.s * p.c)
  }

  /** From the products of heading and pitch, and the roll. */
  function Rolled(m: Products, r: Angle): Quaternion {
    Quaternion(m.cc * r.c + m.ss * r.s, m.cs * r.c + m.sc * r.s, m.cc * r.s - m.ss * r.c, m.cs * r.s - m.sc * r.c)
  }

  /** Heading and pitch alone. */
  function Turned(m: Products): Quaternion {
    Quaternion(m.cc, m.cs, -m.ss, -m.sc)
  }

  lemma HeadingThenPitch(h: Angle, p: Angle)
    ensures Qmul(Quaternion(h.c, 0.0, 0.0, -h.s), Quaternion(p.c, p.s, 0.0, 0.0)) == Turned(ProductsOf(h, p))
  {
  }

  lemma ThenRoll(m: Products, r: Angle)
    ensures Qmul(Turned(m), Quaternion(r.c, 0.0, r.s, 0.0)) == Rolled(m, r)
  {
  }

  lemma Components(h: Angle, p: Angle, r: Angle)
    ensures Composed(h, p, r) == Rolled(ProductsOf(h, p), r)
  {
    hide Qmul, Rolled, Turned, ProductsOf;
    HeadingThenPitch(h, p);
    ThenRoll(ProductsOf(h, p), r);
  }

  function SumOfSquares(m: Products): real {
    (m.cc * m.cc + m.ss * m.ss) + (m.cs * m.cs + m.sc * m.sc)
  }

  lemma NormOfRolled(m: Products, r: Angle)
    requires Unit(r)
    ensures Norm2(Rolled(m, r)) == SumOfSquares(m)
  {
    assert Norm2(Rolled(m, r)) == SumOfSquares(m) * (r.c * r.c + r.s * r.s);
    TimesOne(SumOfSquares(m), r.c * r.c + r.s * r.s);
  }

  lemma SumOfUnits(h: Angle, p: Angle)
    requires Unit(h) && Unit(p)
    ensures SumOfSquares(ProductsOf(h, p)) == 1.0
  {
    assert SumOfSquares(ProductsOf(h, p)) == (h.c * h.c + h.s * h.s) * (p.c * p.c + p.s * p.s);
    TimesOne(h.c * h.c + h.s * h.s, p.c * p.c + p.s * p.s);
  }

  lemma ComposedIsUnit(h: Angle, p: Angle, r: Angle)
    requires Unit(h) && Unit(p) && Unit(r)
    ensures Norm2(Composed(h, p, r)) == 1.0
  {
    hide Unit, Norm2, Composed, Rolled, ProductsOf, SumOfSquares;
    Components(h, p, r);
    NormOfRolled(ProductsOf(h, p), r);
    SumOfUnits(h, p);
  }

  // ----- what the inverse's expressions evaluate to -----

  function HeadingSin(q: Quaternion): real { 2.0 * (q.x * q.y - q.w * q.z) }
  function HeadingCos(q: Quaternion): real { q.w * q.w + q.y * q.y - q.x * q.x - q.z * q.z }
  function PitchSin(q: Quaternion): real { 2.0 * (q.y * q.z + q.w * q.x) }
  function RollSin(q: Quaternion): real { -2.0 * (q.x * q.z - q.w * q.y) }
  function RollCos(q: Quaternion): real { q.w * q.w + q.z * q.z - q.x * q.x - q.y * q.y }

  // What these are in terms of the products.
  function SinPart(m: Products): real { 2.0 * (m.cc * m.sc - m.ss * m.cs) }
  function CosPart(m: Products): real { (m.cc * m.cc + m.ss * m.ss) - (m.cs * m.cs + m.sc * m.sc) }
  function PitchPart(m: Products): real { 2.0 * (m.cc * m.cs + m.ss * m.sc) }
  function RollPart(m: Products): real { (m.cc * m.cc + m.sc * m.sc) - (m.ss * m.ss + m.cs * m.cs) }

  lemma HeadingSinOfRolled(m: Products, r: Angle)
    requires Unit(r)
    ensures HeadingSin(Rolled(m, r)) == SinPart(m)
  {
    assert HeadingSin(Rolled(m, r)) == SinPart(m) * (r.c * r.c + r.s * r.s);
    TimesOne(SinPart(m), r.c * r.c + r.s * r.s);
  }

  lemma HeadingCosOfRolled(m: Products, r: Angle)
    requires Unit(r)
    ensures HeadingCos(Rolled(m, r)) == CosPart(m)
  {
    assert HeadingCos(Rolled(m, r)) == CosPart(m) * (r.c * r.c + r.s * r.s);
    TimesOne(CosPart(m), r.c * r.c + r.s * r.s);
  }

  lemma PitchSinOfRolled(m: Products, r: Angle)
    requires Unit(r)
    ensures PitchSin(Rolled(m, r)) == PitchPart(m)
  {
    CrossProducts(m.cc, m.ss, m.cs, m.sc, r.c, r.s);
    TimesOne(PitchPart(m), r.c * r.c + r.s * r.s);
  }

  lemma CrossProducts(a: real, b: real, c: real, d: real, e: real, f: real)
    ensures 2.0 * ((a * f - b * e) * (c * f - d * e) + (a * e + b * f) * (c * e + d * f))
            == (2.0 * (a * c + b * d)) * (e * e + f * f)
  {
    Expanded(a, b, c, d, e, f);
    Expanded(a, -b, c, -d, f, e);
    assert (2.0 * (a * c + b * d)) * (e * e + f * f)
        == 2.0 * ((a * c) * (e * e) + (b * d) * (f * f) + (a * c) * (f * f) + (b * d) * (e * e));
  }

  lemma Expanded(a: real, b: real, c: real, d: real, e: real, f: real)
    ensures (a * e + b * f) * (c * e + d * f) == (a * c) * (e * e) + (a * d + b * c) * (e * f) + (b * d) * (f * f)
  {
  }

  lemma RollSinOfRolled(m: Products, r: Angle)
    requires m.cc * m.ss - m.cs * m.sc == 0.0
    ensures RollSin(Rolled(m, r)) == RollPart(m) * Double(r).s
  {
    var cross := m.cc * m.ss - m.cs * m.sc;
    assert RollSin(Rolled(m, r)) == RollPart(m) * Double(r).s + cross * (2.0 * (r.s * r.s - r.c * r.c));
    ZeroTimes(cross, 2.0 * (r.s * r.s - r.c * r.c));
  }

  lemma RollCosOfRolled(m: Products, r: Angle)
    requires m.cc * m.ss - m.cs * m.sc == 0.0
    ensures RollCos(Rolled(m, r)) == RollPart(m) * Double(r).c
  {
    var cross := m.cc * m.ss - m.cs * m.sc;
    assert RollCos(Rolled(m, r)) == RollPart(m) * Double(r).c + cross * (4.0 * (r.c * r.s));
    ZeroTimes(cross, 4.0 * (r.c * r.s));
  }

  /** The parts, by the doubled angles. */
  lemma HeadingParts(h: Angle, p: Angle)
    ensures SinPart(ProductsOf(h, p)) == Double(p).c * Double(h).s
    ensures CosPart(ProductsOf(h, p)) == Double(p).c * Double(h).c
    ensures var m := ProductsOf(h, p); m.cc * m.ss - m.cs * m.sc == 0.0
  {
  }

  lemma PitchParts(h: Angle, p: Angle)
    requires Unit(h)
    ensures PitchPart(ProductsOf(h, p)) == Double(p).s && RollPart(ProductsOf(h, p)) == Double(p).c
  {
    assert PitchPart(ProductsOf(h, p)) == Double(p).s * (h.c * h.c + h.s * h.s);
    assert RollPart(ProductsOf(h, p)) == Double(p).c * (h.c * h.c + h.s * h.s);
    TimesOne(Double(p).s, h.c * h.c + h.s * h.s);
    TimesOne(Double(p).c, h.c * h.c + h.s * h.s);
  }

  /** On a composed quaternion the arguments of the two arc tangents are the
      heading's and the roll's sine and cosine scaled by the pitch's cosine, and
      the argument of the arc sine is the pitch's sine. */
  lemma InverseArguments(h: Angle, p: Angle, r: Angle)
    requires Unit(h) && Unit(p) && Unit(r)
    ensures var q := Composed(h, p, r);
      && HeadingSin(q) == Double(p).c * Double(h).s && HeadingCos(q) == Double(p).c * Double(h).c
      && PitchSin(q) == Double(p).s
      && RollSin(q) == Double(p).c * Double(r).s && RollCos(q) == Double(p).c * Double(r).c
  {
    hide *;
    var m := ProductsOf(h, p);
    Components(h, p, r);
    HeadingParts(h, p);
    PitchParts(h, p);
    HeadingSinOfRolled(m, r);
    HeadingCosOfRolled(m, r);
    PitchSinOfRolled(m, r);
    RollSinOfRolled(m, r);
    RollCosOfRolled(m, r);
    SameProduct(RollPart(m), Double(p).c, Double(r).s, Double(r).s);
    SameProduct(RollPart(m), Double(p).c, Double(r).c, Double(r).c);
  }

  lemma ZeroTimes(k: real, x: real)
    requires k == 0.0
    ensures k * x == 0.0
  {
  }

  lemma SameProduct(x: real, x': real, y: real, y': real)
    requires x == x' && y == y'
    ensures x * y == x' * y'
  {
  }

  lemma TimesOne(k: real, u: real)
    requires u == 1.0
    ensures k * u == k
  {
  }

  lemma ZeroProduct(x: real, y: real)
    requires x * y == 0.0
    ensures x == 0.0 || y == 0.0
  {
    if x != 0.0 {
      assert y == (x * y) / x;
    }
  }

  // ----- the library's functions, by what they promise -----

  ghost predicate IsSqrt(sqrt: real -> real) {
    forall v :: v >= 0.0 ==> sqrt(v) >= 0.0 && sqrt(v) * sqrt(v) == v
  }

  /** `a` is the direction of (x, y); of the origin it is the angle zero. */
  ghost predicate IsDirection(a: Angle, y: real, x: real) {
    && Unit(a)
    && if x == 0.0 && y == 0.0 then a == Angle(1.0, 0.0)
       else y * a.c == x * a.s && y * a.s + x * a.c > 0.0
  }

  ghost predicate IsAtan2(atan2: (real, real) -> Angle) {
    forall y, x :: IsDirection(atan2(y, x), y, x)
  }

  ghost predicate IsAsin(asin: real -> Angle) {
    forall v :: -1.0 <= v <= 1.0 ==> Unit(asin(v)) && asin(v).s == v && asin(v).c >= 0.0
  }

  // ----- the two kernels -----

  /** Composes and normalises in place; in exact arithmetic the norm is one. */
  method QuaternionFromEulerKernel(h: Angle, p: Angle, r: Angle, sqrt: real -> real) returns (q: Quaternion)
    requires Unit(h) && Unit(p) && Unit(r) && IsSqrt(sqrt)
    ensures q == Composed(h, p, r) && Norm2(q) == 1.0
  {
    ComposedIsUnit(h, p, r);
    hide Composed;
    q := Composed(h, p, r);
    var n := sqrt(Norm2(q));
    RootOfOne(n);
    if n > 0.0 {
      q := q.(w := q.w / n);
      q := q.(x := q.x / n);
      q := q.(y := q.y / n);
      q := q.(z := q.z / n);
    }
  }

  lemma RootOfOne(n: real)
    requires n >= 0.0 && n * n == 1.0
    ensures n == 1.0
  {
    ZeroProduct(n - 1.0, n + 1.0);
  }

  function Clamp(v: real): real {
    var low := if v < 1.0 then v else 1.0;
    if low > -1.0 then low else -1.0
  }

  function EulerFromQuaternionKernel(q: Quaternion, atan2: (real, real) -> Angle, asin: real -> Angle)
    : (Angle, Angle, Angle)
  {
    (atan2(HeadingSin(q), HeadingCos(q)), asin(Clamp(PitchSin(q))), atan2(RollSin(q), RollCos(q)))
  }

  // ----- the round trip -----

  lemma DoubleIsUnit(a: Angle)
    requires Unit(a)
    ensures Unit(Double(a))
  {
    assert Double(a).c * Double(a).c + Double(a).s * Double(a).s == (a.c * a.c + a.s * a.s) * (a.c * a.c + a.s * a.s);
  }

  lemma UnitBounds(a: Angle)
    requires Unit(a)
    ensures -1.0 <= a.s <= 1.0
  {
  }

  /** Two unit angles with no cross product and a positive dot product coincide. */
  lemma SameDirection(a: Angle, b: Angle)
    requires Unit(a) && Unit(b) && b.s * a.c == b.c * a.s && b.s * a.s + b.c * a.c > 0.0
    ensures a == b
  {
    var dot := b.s * a.s + b.c * a.c;
    assert dot * dot + (b.s * a.c - b.c * a.s) * (b.s * a.c - b.c * a.s) ==
        (a.c * a.c + a.s * a.s) * (b.c * b.c + b.s * b.s);
    RootOfOne(dot);
    var dc, ds := a.c - b.c, a.s - b.s;
    assert dc * dc + ds * ds == 0.0;
    ZeroProduct(dc, dc);
    ZeroProduct(ds, ds);
  }

  /** The direction of a scaled unit angle is that angle for a positive scale and
      the opposite one for a negative scale; a zero scale yields the angle zero. */
  lemma ScaledDirection(d: Angle, b: Angle, k: real, y: real, x: real)
    requires Unit(b) && IsDirection(d, y, x) && y == k * b.s && x == k * b.c
    ensures k > 0.0 ==> d == b
    ensures k < 0.0 ==> d == Angle(-b.c, -b.s)
    ensures k == 0.0 ==> d == Angle(1.0, 0.0)
  {
    if k != 0.0 {
      NotOrigin(b, k);
      var cross, dot := b.s * d.c - b.c * d.s, b.s * d.s + b.c * d.c;
      SameProduct(y, k * b.s, d.c, d.c);
      SameProduct(x, k * b.c, d.s, d.s);
      SameProduct(y, k * b.s, d.s, d.s);
      SameProduct(x, k * b.c, d.c, d.c);
      assert k * cross == 0.0 && k * dot > 0.0;
      ZeroProduct(k, cross);
      if k > 0.0 {
        SameDirection(d, b);
      } else {
        SameDirection(d, Angle(-b.c, -b.s));
      }
    }
  }

  lemma NotOrigin(b: Angle, k: real)
    requires Unit(b) && k != 0.0
    ensures !(k * b.s == 0.0 && k * b.c == 0.0)
  {
    if k * b.s == 0.0 { ZeroProduct(k, b.s); }
    if k * b.c == 0.0 { ZeroProduct(k, b.c); }
  }

  /** Opposite unit angles differ. */
  lemma OppositeDiffers(b: Angle)
    requires Unit(b)
    ensures Angle(-b.c, -b.s) != b
  {
  }

  lemma PitchRecovered(a: Angle, p: Angle)
    requires Unit(a) && Unit(p) && a.s == p.s && a.c >= 0.0
    ensures a == p <==> p.c >= 0.0
  {
    ZeroProduct(a.c - p.c, a.c + p.c);
  }

  /** Euler angles to quaternion to Euler angles is the identity exactly when the
      cosine of the pitch is positive, or is zero with heading and roll zero. */
  lemma EulerRoundTrip(h: Angle, p: Angle, r: Angle, atan2: (real, real) -> Angle, asin: real -> Angle)
    requires Unit(h) && Unit(p) && Unit(r) && IsAtan2(atan2) && IsAsin(asin)
    ensures EulerFromQuaternionKernel(Composed(h, p, r), atan2, asin) == (Double(h), Double(p), Double(r)) <==>
            Double(p).c > 0.0 || (Double(p).c == 0.0 && Double(h) == Angle(1.0, 0.0) == Double(r))
  {
    InverseArguments(h, p, r);
    DoubleIsUnit(h);
    DoubleIsUnit(p);
    DoubleIsUnit(r);
    hide Composed, HeadingSin, HeadingCos, PitchSin, RollSin, RollCos, Double;
    var q, k := Composed(h, p, r), Double(p).c;
    UnitBounds(Double(p));
    ScaledDirection(atan2(HeadingSin(q), HeadingCos(q)), Double(h), k, HeadingSin(q), HeadingCos(q));
    ScaledDirection(atan2(RollSin(q), RollCos(q)), Double(r), k, RollSin(q), RollCos(q));
    PitchRecovered(asin(Clamp(PitchSin(q))), Double(p));
    OppositeDiffers(Double(h));
  }
}
