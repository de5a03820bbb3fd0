/** What the ladder of RFC 7748 computes: with the swaps taken out it doubles and
    adds by the formulas of Montgomery curves with the coefficient 486662, and these
    are the tangents and chords of y^2 = x^3 + 486662 x^2 + x. */
module Montgomery {
  import opened Words
  import opened Bits
  import opened Limbs
  import opened Rfc7748

  /** The coordinate x / z. */
  datatype Ratio = Ratio(x: int, z: int)

  /** The coordinates of two points whose difference is the base point. */
  datatype Pair = Pair(low: Ratio, high: Ratio)

  function Double(r: Ratio): Ratio {
    var (s, t) := (r.x * r.x, r.z * r.z);
    var xz := r.x * r.z;
    Ratio((s - t) * (s - t), 4 * xz * (s + 486662 * xz + t))
  }

  function Sum(r: Ratio, s: Ratio, u: int): Ratio {
    var (v, w) := (r.x * s.x - r.z * s.z, r.x * s.z - r.z * s.x);
    Ratio(4 * (v * v), 4 * u * (w * w))
  }

  /** The ladder without swaps, for a scalar of so many bits. */
  function Multiples(n: nat, bits: nat, u: int): Pair
    decreases bits
  {
    if bits == 0 then Pair(Ratio(1, 0), Ratio(u, 1))
    else
      Turn(Multiples(n / 2, bits - 1, u), n % 2, u)
  }

  /** One turn without swaps. */
  function Turn(m: Pair, kt: nat, u: int): Pair {
    if kt == 0 then Pair(Double(m.low), Sum(m.low, m.high, u)) else Pair(Sum(m.low, m.high, u), Double(m.high))
  }

  //
  // The formulas
  //

  lemma DoubleIdentity(x: int, z: int)
    ensures (x + z) * (x + z) - (x - z) * (x - z) == 4 * (x * z)
    ensures (x + z) * (x + z) * ((x - z) * (x - z)) == (x * x - z * z) * (x * x - z * z)
    ensures (x + z) * (x + z) + 121665 * (4 * (x * z)) == x * x + 486662 * (x * z) + z * z
  {
    assert (x + z) * (x - z) == x * x - z * z;
    SquareOfProduct(x + z, x - z);
  }

  lemma SquareOfProduct(a: int, b: int)
    ensures (a * b) * (a * b) == a * a * (b * b)
  {
  }

  lemma SumIdentity(x: int, z: int, x': int, z': int)
    ensures (x' - z') * (x + z) + (x' + z') * (x - z) == 2 * (x * x' - z * z')
    ensures (x' - z') * (x + z) - (x' + z') * (x - z) == -2 * (x * z' - z * x')
  {
  }

  lemma ReducedCong(x: int, y: int)
    requires Cong(x, y)
    ensures Cong(x % P, y)
  {
    hide Cong;
    Reduced(x);
    CongTrans(x % P, x, y);
  }

  function Low(s: State): Ratio {
    Ratio(s.x2, s.z2)
  }

  function High(s: State): Ratio {
    Ratio(s.x3, s.z3)
  }

  ghost predicate Same(r: Ratio, s: Ratio) {
    Cong(r.x, s.x) && Cong(r.z, s.z)
  }

  lemma ReducedProduct(x: int, a: int, y: int, b: int)
    requires Cong(x, a) && Cong(y, b)
    ensures Cong(((x % P) * (y % P)) % P, a * b)
  {
    hide Cong;
    ReducedCong(x, a);
    ReducedCong(y, b);
    CongMul(x % P, a, y % P, b);
    ReducedCong((x % P) * (y % P), a * b);
  }

  /** The products that the formulas begin with. */
  ghost predicate HalvesAre(m: Mid, r: Ratio, t: Ratio) {
    Cong(m.aa, (r.x + r.z) * (r.x + r.z)) && Cong(m.bb, (r.x - r.z) * (r.x - r.z))
    && Cong(m.da, (t.x - t.z) * (r.x + r.z)) && Cong(m.cb, (t.x + t.z) * (r.x - r.z))
  }

  lemma Halves(s: State, r: Ratio, t: Ratio)
    requires Same(Low(s), r) && Same(High(s), t)
    ensures HalvesAre(First(s), r, t)
  {
    hide Cong;
    CongAdd(s.x2, r.x, s.z2, r.z);
    CongAdd(s.x3, t.x, s.z3, t.z);
    ReducedProduct(s.x2 + s.z2, r.x + r.z, s.x2 + s.z2, r.x + r.z);
    ReducedProduct(s.x2 - s.z2, r.x - r.z, s.x2 - s.z2, r.x - r.z);
    ReducedProduct(s.x3 - s.z3, t.x - t.z, s.x2 + s.z2, r.x + r.z);
    ReducedProduct(s.x3 + s.z3, t.x + t.z, s.x2 - s.z2, r.x - r.z);
  }

  /** The double-and-add formulas are those of the curve. */
  lemma DoubleAddIs(s: State, r: Ratio, t: Ratio, u: int)
    requires Same(Low(s), r) && Same(High(s), t)
    ensures Same(Low(DoubleAdd(s, u)), Double(r)) && Same(High(DoubleAdd(s, u)), Sum(r, t, u))
  {
    DoubleAddParts(s, u);
    hide Cong, DoubleAdd, First;
    Halves(s, r, t);
    var m, x, z := First(s), r.x, r.z;
    DoubleIdentity(x, z);
    DoubledFrom(m.aa, m.bb, (x + z) * (x + z), (x - z) * (x - z), 4 * (x * z), x * x + 486662 * (x * z) + z * z);
    SumIdentity(x, z, t.x, t.z);
    var v, w := x * t.x - z * t.z, x * t.z - z * t.x;
    AddedFrom(m.da, m.cb, (t.x - t.z) * (x + z), (t.x + t.z) * (x - z), v, w);
    ReducedCong((m.da + m.cb) * (m.da + m.cb), 4 * (v * v));
    Scaled((m.da - m.cb) * (m.da - m.cb), w * w, u);
  }

  /** The doubled point from the squares of sum and difference. */
  lemma DoubledFrom(aa: int, bb: int, a: int, b: int, xz: int, t: int)
    requires Cong(aa, a) && Cong(bb, b) && a - b == xz && a + 121665 * xz == t
    ensures Cong((aa * bb) % P, a * b)
    ensures var e := (aa - bb) % P; Cong((e * ((aa + A24 * e) % P)) % P, xz * t)
  {
    hide Cong;
    var e := (aa - bb) % P;
    CongMul(aa, a, bb, b);
    ReducedCong(aa * bb, a * b);
    CongAdd(aa, a, bb, b);
    ReducedCong(aa - bb, xz);
    CongRefl(A24);
    CongMul(A24, A24, e, xz);
    CongAdd(aa, a, A24 * e, A24 * xz);
    ReducedCong(aa + A24 * e, t);
    CongMul(e, xz, (aa + A24 * e) % P, t);
    ReducedCong(e * ((aa + A24 * e) % P), xz * t);
  }

  /** The sum of the points from the two products. */
  lemma AddedFrom(da: int, cb: int, d: int, c: int, v: int, w: int)
    requires Cong(da, d) && Cong(cb, c) && d + c == 2 * v && d - c == -2 * w
    ensures Cong((da + cb) * (da + cb), 4 * (v * v)) && Cong((da - cb) * (da - cb), 4 * (w * w))
  {
    hide Cong;
    CongAdd(da, d, cb, c);
    CongMul(da + cb, 2 * v, da + cb, 2 * v);
    SquareOfDouble(v);
    CongMul(da - cb, -2 * w, da - cb, -2 * w);
    SquareOfDouble(w);
  }

  lemma Scaled(q: int, y: int, x1: int)
    requires Cong(q, 4 * y)
    ensures Cong((x1 * (q % P)) % P, 4 * x1 * y)
  {
    hide Cong;
    ReducedCong(q, 4 * y);
    CongRefl(x1);
    CongMul(x1, x1, q % P, 4 * y);
    Regroup4(x1, y);
    ReducedCong(x1 * (q % P), 4 * x1 * y);
  }

  lemma SquareOfDouble(v: int)
    ensures (2 * v) * (2 * v) == 4 * (v * v) && (-2 * v) * (-2 * v) == 4 * (v * v)
  {
  }

  lemma Regroup4(x: int, y: int)
    ensures x * (4 * y) == 4 * x * y
  {
  }

  //
  // The ladder
  //

  lemma SumCommutes(r: Ratio, s: Ratio, u: int)
    ensures Sum(s, r, u) == Sum(r, s, u)
  {
    var v, w := r.x * s.x - r.z * s.z, r.x * s.z - r.z * s.x;
    assert s.x * r.x - s.z * r.z == v && s.x * r.z - s.z * r.x == -w;
    assert (-w) * (-w) == w * w;
  }

  /** The state stands for the pair. */
  ghost predicate StandsAs(s: State, m: Pair) {
    Same(Low(s), m.low) && Same(High(s), m.high)
  }

  /** One turn with its delayed swap is one turn without. */
  lemma StepIs(s: State, kt: nat, u: int, m: Pair)
    requires s.swap < 2 && kt < 2 && StandsAs(CSwap(s), m)
    ensures StandsAs(CSwap(Step(s, kt, u)), Turn(m, kt, u))
  {
    hide DoubleAdd, Double, Sum, Same;
    var turned := CSwap(s.(swap := (s.swap + kt) % 2));
    var n := if kt == 0 then m else Pair(m.high, m.low);
    assert StandsAs(turned, n);
    DoubleAddIs(turned, n.low, n.high, u);
    SumCommutes(m.low, m.high, u);
  }

  /** The bits of k from number t on. */
  function Prefix(k: nat, t: nat): nat {
    QuotientNat(k, Pow2(t));
    k / Pow2(t)
  }

  lemma QuotientNat(k: nat, m: int)
    requires m > 0
    ensures k / m >= 0
  {
  }

  /** The ladder of the RFC, its last swap made, is the ladder without swaps. */
  lemma {:induction false} LadderMultiples(k: nat, u: int, t: nat)
    requires t <= 255
    ensures Ladder(k, u, t).swap < 2
    ensures StandsAs(CSwap(Ladder(k, u, t)), Multiples(Prefix(k, t), 255 - t, u))
    decreases 255 - t
  {
    hide Double, Sum, Step, CSwap, StandsAs;
    if t < 255 {
      LadderMultiples(k, u, t + 1);
      StepSwap(Ladder(k, u, t + 1), Bit(k, t), u);
      StepIs(Ladder(k, u, t + 1), Bit(k, t), u, Multiples(Prefix(k, t + 1), 254 - t, u));
      HalfOfQuotient(k, Pow2(t));
    } else {
      LadderStart(u);
    }
  }

  lemma LadderStart(u: int)
    ensures StandsAs(CSwap(State(1, 0, u, 1, 0)), Pair(Ratio(1, 0), Ratio(u, 1)))
  {
    hide Cong;
    CongRefl(0);
    CongRefl(1);
    CongRefl(u);
  }

  lemma StepSwap(s: State, kt: nat, u: int)
    ensures Step(s, kt, u).swap == kt
  {
  }

  lemma HalfOfQuotient(k: nat, m: int)
    requires m > 0
    ensures k / m / 2 == k / (2 * m)
  {
    var q, h := k / m, k / m / 2;
    var r := k % m + m * (q % 2);
    assert k == m * (2 * h + q % 2) + k % m;
    assert m * (2 * h + q % 2) == 2 * m * h + m * (q % 2);
    assert m * (q % 2) <= m;
    DivModUnique(k, 2 * m, h, r);
  }

  //
  // Tangents and chords
  //

  const A: int := 486662

  datatype Point = Point(x: int, y: int)

  function Cubic(x: int): int {
    x * x * x + A * (x * x) + x
  }

  ghost predicate OnCurve(p: Point) {
    Cong(p.y * p.y, Cubic(p.x))
  }

  function Negated(p: Point): Point {
    Point(p.x, -p.y)
  }

  ghost predicate TangentSlope(p: Point, l: int) {
    Cong(l * (2 * p.y), 3 * (p.x * p.x) + 2 * A * p.x + 1)
  }

  ghost predicate ChordSlope(p: Point, q: Point, l: int) {
    Cong(l * (p.x - q.x), p.y - q.y)
  }

  /** r is where the line of slope l through p and q meets the curve again, reflected. */
  ghost predicate Third(p: Point, q: Point, l: int, r: Point) {
    Cong(r.x, l * l - A - p.x - q.x) && Cong(r.y, l * (p.x - r.x) - p.y)
  }

  /** r is p + p, by the tangent at p. */
  ghost predicate Doubles(p: Point, r: Point) {
    exists l :: TangentSlope(p, l) && Third(p, p, l, r)
  }

  /** r is p + q, by the chord through p and q. */
  ghost predicate Adds(p: Point, q: Point, r: Point) {
    exists l :: ChordSlope(p, q, l) && Third(p, q, l, r)
  }

  ghost predicate Separates(i: int, p: Point, q: Point) {
    Cong(i * (p.x - q.x), 1)
  }

  /** The points have different x coordinates. */
  ghost predicate Apart(p: Point, q: Point) {
    exists i :: Separates(i, p, q)
  }

  lemma TangentIdentity(x: int)
    ensures var d := 3 * (x * x) + 2 * A * x + 1;
      d * d - (A + 2 * x) * (4 * Cubic(x)) == (x * x - 1) * (x * x - 1)
  {
    CubicFactor(x);
    hide Cubic;
    TwiceOver(x, A);
    TangentAlgebra(x, x * x, A * x, A + 2 * x, Cubic(x));
  }

  lemma TwiceOver(x: int, k: int)
    ensures (k + 2 * x) * x == k * x + 2 * (x * x) && 2 * k * x == 2 * (k * x)
  {
  }

  lemma TangentAlgebra(x: int, s: int, a: int, n: int, f: int)
    requires f == x * (s + a + 1) && n * x == a + 2 * s
    ensures (3 * s + 2 * a + 1) * (3 * s + 2 * a + 1) - n * (4 * f) == (s - 1) * (s - 1)
  {
    TangentSquare(s, a);
    Pull(n, x, s + a + 1);
    TangentRest(s, a);
  }

  lemma TangentSquare(s: int, a: int)
    ensures (3 * s + 2 * a + 1) * (3 * s + 2 * a + 1)
         == 9 * (s * s) + 12 * (s * a) + 4 * (a * a) + 6 * s + 4 * a + 1
  {
  }

  lemma TangentRest(s: int, a: int)
    ensures (a + 2 * s) * (s + a + 1) == 3 * (s * a) + a * a + a + 2 * (s * s) + 2 * s
    ensures (s - 1) * (s - 1) == s * s - 2 * s + 1
  {
  }

  lemma Pull(a: int, x: int, t: int)
    ensures a * (4 * (x * t)) == 4 * ((a * x) * t)
  {
  }

  /** 4 y^2 times the x coordinate of p + p. */
  lemma TangentX(p: Point, r: Point)
    requires OnCurve(p) && Doubles(p, r)
    ensures var s := p.x * p.x - 1; Cong(r.x * (4 * Cubic(p.x)), s * s)
  {
    hide Cong, Cubic;
    var l :| TangentSlope(p, l) && Third(p, p, l, r);
    var x := p.x;
    TangentIdentity(x);
    assert l * l - A - x - x == l * l - (A + 2 * x);
    TangentFrom(l, p.y, 3 * (x * x) + 2 * A * x + 1, Cubic(x), A + 2 * x, r.x, (x * x - 1) * (x * x - 1));
  }

  lemma TangentFrom(l: int, y: int, d: int, f: int, n: int, rx: int, s: int)
    requires Cong(l * (2 * y), d) && Cong(y * y, f) && Cong(rx, l * l - n) && d * d - n * (4 * f) == s
    ensures Cong(rx * (4 * f), s)
  {
    hide Cong;
    CongRefl(4);
    CongRefl(l * l);
    CongRefl(4 * f);
    CongRefl(n * (4 * f));
    CongMul(4, 4, y * y, f);
    CongMul(l * l, l * l, 4 * (y * y), 4 * f);
    CongMul(l * (2 * y), d, l * (2 * y), d);
    SlopeSquared(l, y);
    CongBoth(l * l * (4 * (y * y)), l * l * (4 * f), d * d);
    CongMul(rx, l * l - n, 4 * f, 4 * f);
    CongAdd(l * l * (4 * f), d * d, n * (4 * f), n * (4 * f));
    Spread(l * l, n, 4 * f);
    CongTrans(rx * (4 * f), (l * l - n) * (4 * f), s);
  }

  lemma Spread(a: int, b: int, c: int)
    ensures (a - b) * c == a * c - b * c
  {
  }

  lemma SlopeSquared(l: int, y: int)
    ensures (l * (2 * y)) * (l * (2 * y)) == l * l * (4 * (y * y))
  {
  }

  lemma SymmetricIdentity(e: int, q: int, u: int)
    ensures var g, h := e * u - q + 1, e * e * u - q * (2 * u + e) + e;
      g * g - 2 * u * h + u * u * (e * e - 4 * q) == (q - 1) * (q - 1)
  {
    var v := e * u;
    ShiftedSquare(v, q - 1);
    SquareOfProduct(e, u);
    Spread(e * e, 4 * q, u * u);
    ScaledTwice(u, e * e * u, q * (2 * u + e), e);
    MovedOver(e, u);
    TwoTerms(q, u, e);
  }

  lemma ShiftedSquare(v: int, q: int)
    ensures (v - q) * (v - q) == v * v - 2 * (v * q) + q * q
  {
  }

  lemma ScaledTwice(u: int, x: int, y: int, z: int)
    ensures 2 * u * (x - y + z) == 2 * (u * x) - 2 * (u * y) + 2 * (u * z)
  {
  }

  lemma MovedOver(e: int, u: int)
    ensures u * (e * e * u) == e * e * (u * u)
  {
  }

  lemma TwoTerms(q: int, u: int, e: int)
    ensures u * (q * (2 * u + e)) == 2 * (q * (u * u)) + e * u * q && 4 * q * (u * u) == 4 * (q * (u * u))
  {
    assert q * (2 * u + e) == 2 * (q * u) + q * e;
    assert u * (2 * (q * u)) == 2 * (q * (u * u));
    assert u * (q * e) == e * u * q;
  }

  lemma CubicParts(a: int, c: int)
    ensures var e, q, u := a + c, a * c, A + a + c;
      Cubic(a) - Cubic(c) == (a - c) * (e * u - q + 1)
      && Cubic(a) + Cubic(c) == e * e * u - q * (2 * u + e) + e
      && (a - c) * (a - c) == e * e - 4 * q
  {
    var e, q := a + c, a * c;
    Cubes(a, c);
    SplitDifference(a - c, e, q, A);
    SplitSum(e, q, A);
    assert A + a + c == A + e;
  }

  lemma SplitDifference(d: int, e: int, q: int, k: int)
    ensures d * (e * (k + e) - q + 1) == k * (d * e) + d * (e * e - q) + d
  {
  }

  lemma SplitSum(e: int, q: int, k: int)
    ensures e * e * (k + e) - q * (2 * (k + e) + e) + e == k * (e * e - 2 * q) + (e * e * e - 3 * (q * e)) + e
  {
  }

  lemma Cubes(a: int, c: int)
    ensures var e, q := a + c, a * c;
      a * a - c * c == (a - c) * e && a * a + c * c == e * e - 2 * q
      && a * a * a - c * c * c == (a - c) * (e * e - q) && a * a * a + c * c * c == e * e * e - 3 * (q * e)
  {
  }

  lemma ChordIdentity(a: int, c: int)
    ensures var d, u, q := (a - c) * (a - c), A + a + c, a * c - 1;
      var f, g := Cubic(a), Cubic(c);
      (f - g) * (f - g) - 2 * (u * d) * (f + g) + (u * d) * (u * d) == d * (q * q)
  {
    var e, q, u, d := a + c, a * c, A + a + c, (a - c) * (a - c);
    var g, h := e * u - q + 1, e * e * u - q * (2 * u + e) + e;
    CubicParts(a, c);
    SymmetricIdentity(e, q, u);
    FactorOut(a - c, u, g, h);
  }

  lemma FactorOut(s: int, u: int, g: int, h: int)
    ensures var d := s * s;
      (s * g) * (s * g) - 2 * (u * d) * h + (u * d) * (u * d) == d * (g * g - 2 * u * h + u * u * d)
  {
  }

  /** The x coordinate of a chord's third point, without the division. */
  lemma ChordFrom(l: int, s: int, e: int, n: int, rx: int)
    requires Cong(l * s, e) && Cong(rx, l * l - n)
    ensures Cong(rx * (s * s), e * e - n * (s * s))
  {
    hide Cong;
    CongRefl(s * s);
    CongRefl(n * (s * s));
    CongMul(l * s, e, l * s, e);
    SquareOfProduct(l, s);
    CongMul(rx, l * l - n, s * s, s * s);
    CongAdd(l * l * (s * s), e * e, n * (s * s), n * (s * s));
    Spread(l * l, n, s * s);
    CongTrans(rx * (s * s), (l * l - n) * (s * s), e * e - n * (s * s));
  }

  lemma BothChords(y: int, z: int, k: int)
    ensures ((y - z) * (y - z) - k) * ((y + z) * (y + z) - k)
         == (y * y - z * z) * (y * y - z * z) - 2 * k * (y * y + z * z) + k * k
  {
    var e, f := (y - z) * (y - z), (y + z) * (y + z);
    assert (y - z) * (y + z) == y * y - z * z && e + f == 2 * (y * y + z * z);
    SquareOfProduct(y - z, y + z);
    assert (e - k) * (f - k) == e * f - k * (e + f) + k * k;
    assert k * (2 * (y * y + z * z)) == 2 * k * (y * y + z * z);
  }

  lemma Substituted(y: int, z: int, f: int, g: int, k: int)
    requires Cong(y, f) && Cong(z, g)
    ensures Cong((y - z) * (y - z) - 2 * k * (y + z) + k * k, (f - g) * (f - g) - 2 * k * (f + g) + k * k)
  {
    hide Cong;
    CongAdd(y, f, z, g);
    CongMul(y - z, f - g, y - z, f - g);
    CongRefl(2 * k);
    CongRefl(k * k);
    CongMul(2 * k, 2 * k, y + z, f + g);
    CongAdd((y - z) * (y - z), (f - g) * (f - g), 2 * k * (y + z), 2 * k * (f + g));
    CongAdd((y - z) * (y - z) - 2 * k * (y + z), (f - g) * (f - g) - 2 * k * (f + g), k * k, k * k);
  }

  lemma Cancel(i: int, d: int, x: int, y: int)
    requires Cong(i * d, 1) && Cong(x * (d * d), d * d * y)
    ensures Cong(x, y)
  {
    hide Cong;
    CongMul(i * d, 1, i * d, 1);
    SquareOfProduct(i, d);
    CancelUnit(i * i, d * d, x, y);
  }

  lemma CancelUnit(i: int, d: int, x: int, y: int)
    requires Cong(i * d, 1) && Cong(x * d, d * y)
    ensures Cong(x, y)
  {
    hide Cong;
    CongRefl(i);
    CongRefl(x);
    CongRefl(y);
    CongMul(i, i, x * d, d * y);
    CongMul(x, x, i * d, 1);
    CongMul(y, y, i * d, 1);
    Reorder(i, d, x);
    Reorder(i, d, y);
    CongBoth(x * (i * d), x, y * (i * d));
    CongTrans(x, y * (i * d), y);
  }

  lemma Reorder(i: int, d: int, x: int)
    ensures i * (x * d) == x * (i * d) && i * (d * x) == x * (i * d)
  {
  }

  /** The product of the x coordinates of a sum and a difference. */
  lemma ChordProduct(p: Point, q: Point, r: Point, t: Point)
    requires OnCurve(p) && OnCurve(q) && Apart(p, q) && Adds(p, q, r) && Adds(p, Negated(q), t)
    ensures var d, w := p.x - q.x, p.x * q.x - 1; Cong(r.x * t.x * (d * d), w * w)
  {
    hide Cong, Cubic;
    var d, u := p.x - q.x, A + p.x + q.x;
    ChordX(p, q, r);
    ChordX(p, Negated(q), t);
    var i :| Separates(i, p, q);
    ChordIdentity(p.x, q.x);
    ProductOf(r.x, t.x, d * d, p.y, q.y, Cubic(p.x), Cubic(q.x), u * (d * d), (p.x * q.x - 1) * (p.x * q.x - 1));
    Cancel(i, d, r.x * t.x * (d * d), (p.x * q.x - 1) * (p.x * q.x - 1));
  }

  lemma ChordX(p: Point, q: Point, r: Point)
    requires Adds(p, q, r)
    ensures var d := p.x - q.x; Cong(r.x * (d * d), (p.y - q.y) * (p.y - q.y) - (A + p.x + q.x) * (d * d))
  {
    hide Cong;
    var l :| ChordSlope(p, q, l) && Third(p, q, l, r);
    assert l * l - A - p.x - q.x == l * l - (A + p.x + q.x);
    ChordFrom(l, p.x - q.x, p.y - q.y, A + p.x + q.x, r.x);
  }

  lemma ProductOf(rx: int, tx: int, d: int, y: int, z: int, f: int, g: int, k: int, w: int)
    requires Cong(rx * d, (y - z) * (y - z) - k) && Cong(tx * d, (y + z) * (y + z) - k)
    requires Cong(y * y, f) && Cong(z * z, g) && (f - g) * (f - g) - 2 * k * (f + g) + k * k == d * w
    ensures Cong(rx * tx * d * d, d * w)
  {
    hide Cong;
    var (e, e') := ((y - z) * (y - z), (y + z) * (y + z));
    CongMul(rx * d, e - k, tx * d, e' - k);
    BothChords(y, z, k);
    Substituted(y * y, z * z, f, g, k);
    CongTrans(rx * d * (tx * d), (e - k) * (e' - k), d * w);
    Gather(rx, tx, d);
  }

  lemma Gather(x: int, y: int, d: int)
    ensures x * d * (y * d) == x * y * d * d
  {
  }

  //
  // The ladder on the curve
  //

  /** How the points numbered h and h + 1 lead to those numbered n and n + 1, where h is
      half of n: by one tangent and one chord, their difference being the first point. */
  ghost predicate Follows(q: nat -> Point, h: nat, n: nat) {
    if h == 0 then OnCurve(q(1)) && (n == 1 ==> Doubles(q(1), q(2)))
    else
      OnCurve(q(h)) && OnCurve(q(h + 1)) && Apart(q(h + 1), q(h)) && Adds(q(h + 1), Negated(q(h)), q(1))
      && Adds(q(h + 1), q(h), q(2 * h + 1))
      && if n == 2 * h then Doubles(q(h), q(2 * h)) else Doubles(q(h + 1), q(2 * h + 2))
  }

  /** q gives the multiples of its first point that lead to number n. */
  ghost predicate Chain(q: nat -> Point, n: nat, bits: nat) {
    bits == 0 || (Chain(q, n / 2, bits - 1) && Follows(q, n / 2, n))
  }

  /** The ratio stands for the x coordinate of p. */
  ghost predicate StandsFor(r: Ratio, p: Point) {
    Cong(r.x, p.x * r.z)
  }

  /** Doubling x / 1 with both parts scaled. */
  lemma ScaledDouble(s: int, xz: int, x: int, t: int)
    requires Cong(s, x * x * t) && Cong(xz, x * t)
    ensures var w := x * x - 1;
      Cong((s - t) * (s - t), t * t * (w * w)) && Cong(4 * xz * (s + 486662 * xz + t), t * t * (4 * Cubic(x)))
  {
    hide Cong;
    var w, c := x * x - 1, x * x + A * x + 1;
    CongRefl(t);
    CongRefl(A);
    CongRefl(4);
    CongAdd(s, x * x * t, t, t);
    CongMul(s - t, x * x * t - t, s - t, x * x * t - t);
    Spread(x * x, 1, t);
    SquareOfProduct(w, t);
    CongMul(4, 4, xz, x * t);
    CongMul(A, A, xz, x * t);
    CongAdd(s, x * x * t, A * xz, A * (x * t));
    CongAdd(s + A * xz, x * x * t + A * (x * t), t, t);
    CongMul(4 * xz, 4 * (x * t), s + A * xz + t, x * x * t + A * (x * t) + t);
    ThreeTerms(x * x, A, x, t);
    FourTimes(x, t, c);
    CubicFactor(x);
    Commute(w * w, t * t);
  }

  lemma Commute(a: int, b: int)
    ensures a * b == b * a
  {
  }

  lemma Swap(a: int, b: int, c: int)
    ensures a * (b * c) == b * (a * c) && a * b * c == a * (b * c)
  {
  }

  lemma ThreeTerms(s: int, k: int, x: int, t: int)
    ensures s * t + k * (x * t) + t == (s + k * x + 1) * t
  {
  }

  lemma FourTimes(x: int, t: int, c: int)
    ensures 4 * (x * t) * (c * t) == t * t * (4 * (x * c))
  {
  }

  lemma CubicFactor(x: int)
    ensures Cubic(x) == x * (x * x + A * x + 1)
  {
    assert x * (x * x) == x * x * x && x * (A * x) == A * (x * x);
  }

  lemma DoubleIs(r: Ratio)
    ensures Double(r) == Ratio((r.x * r.x - r.z * r.z) * (r.x * r.x - r.z * r.z),
                               4 * (r.x * r.z) * (r.x * r.x + 486662 * (r.x * r.z) + r.z * r.z))
  {
  }

  lemma DoubleStands(r: Ratio, p: Point, s: Point)
    requires OnCurve(p) && Doubles(p, s) && StandsFor(r, p)
    ensures StandsFor(Double(r), s)
  {
    hide Cubic, OnCurve, Doubles, Cong, Double;
    TangentX(p, s);
    DoubleIs(r);
    var x, z, w := p.x, r.z, p.x * p.x - 1;
    var t := z * z;
    CongRefl(z);
    CongMul(r.x, x * z, r.x, x * z);
    CongMul(r.x, x * z, z, z);
    SquareOfProduct(x, z);
    Swap(x, z, z);
    ScaledDouble(r.x * r.x, r.x * z, x, t);
    Ratios((r.x * r.x - t) * (r.x * r.x - t), 4 * (r.x * z) * (r.x * r.x + 486662 * (r.x * z) + t),
           t * t, w * w, 4 * Cubic(x), s.x);
  }

  /** A ratio whose parts are scaled alike. */
  lemma Ratios(x: int, z: int, k: int, n: int, d: int, v: int)
    requires Cong(x, k * n) && Cong(z, k * d) && Cong(v * d, n)
    ensures Cong(x, v * z)
  {
    hide Cong;
    CongRefl(v);
    CongRefl(k);
    CongMul(v, v, z, k * d);
    CongMul(k, k, v * d, n);
    Swap(v, k, d);
    CongTrans(v * z, k * (v * d), k * n);
    CongSym(v * z, k * n);
    CongTrans(x, k * n, v * z);
  }

  /** Adding x / 1 and y / 1 with their parts scaled. */
  lemma ScaledSum(rx: int, rz: int, sx: int, sz: int, x: int, y: int)
    requires Cong(rx, x * rz) && Cong(sx, y * sz)
    ensures Cong(rx * sx - rz * sz, (x * y - 1) * (rz * sz)) && Cong(rx * sz - rz * sx, (x - y) * (rz * sz))
  {
    hide Cong;
    var k := rz * sz;
    CongRefl(k);
    CongRefl(sz);
    CongRefl(rz);
    CongMul(rx, x * rz, sx, y * sz);
    CongAdd(rx * sx, x * rz * (y * sz), k, k);
    CongMul(rx, x * rz, sz, sz);
    CongMul(rz, rz, sx, y * sz);
    CongAdd(rx * sz, x * rz * sz, rz * sx, rz * (y * sz));
    Crossed(x, y, rz, sz);
  }

  lemma Crossed(x: int, y: int, r: int, s: int)
    ensures x * r * (y * s) - r * s == (x * y - 1) * (r * s) && x * r * s - r * (y * s) == (x - y) * (r * s)
  {
  }

  lemma SumStands(r: Ratio, s: Ratio, p: Point, q: Point, t: Point, base: Point)
    requires OnCurve(p) && OnCurve(q) && Apart(q, p) && Adds(q, p, t) && Adds(q, Negated(p), base)
    requires StandsFor(r, p) && StandsFor(s, q)
    ensures StandsFor(Sum(r, s, base.x), t)
  {
    ChordProduct(q, p, t, base);
    hide OnCurve, Apart, Adds, Cong;
    var x, y, k, u := p.x, q.x, r.z * s.z, base.x;
    var (v, w) := (r.x * s.x - r.z * s.z, r.x * s.z - r.z * s.x);
    var n, d := x * y - 1, x - y;
    ScaledSum(r.x, r.z, s.x, s.z, x, y);
    CongMul(v, n * k, v, n * k);
    CongMul(w, d * k, w, d * k);
    SquareOfProduct(n, k);
    SquareOfProduct(d, k);
    CongRefl(4);
    CongRefl(4 * u);
    CongMul(4, 4, v * v, n * n * (k * k));
    CongMul(4 * u, 4 * u, w * w, d * d * (k * k));
    Commute(y, x);
    SquareOfNegation(x, y);
    SumScale(n * n, k * k, u, d * d, t.x);
    Ratios(4 * (v * v), 4 * u * (w * w), 4 * (k * k), n * n, u * (d * d), t.x);
  }

  lemma SumScale(n: int, k: int, u: int, d: int, v: int)
    ensures 4 * (n * k) == 4 * k * n && 4 * u * (d * k) == 4 * k * (u * d) && v * (u * d) == v * u * d
  {
  }

  /** The point at infinity doubled, and added to the base point. */
  lemma InfinityDouble(r: Ratio)
    requires Cong(r.z, 0)
    ensures Cong(Double(r).z, 0)
  {
    hide Cong;
    var xz := r.x * r.z;
    var c := r.x * r.x + 486662 * xz + r.z * r.z;
    CongRefl(r.x);
    CongMul(r.x, r.x, r.z, 0);
    CongRefl(4);
    CongMul(4, 4, xz, 0);
    CongRefl(c);
    CongMul(4 * xz, 0, c, c);
  }

  lemma InfinitySum(r: Ratio, s: Ratio, p: Point)
    requires Cong(r.z, 0) && StandsFor(s, p)
    ensures StandsFor(Sum(r, s, p.x), p)
  {
    hide Cong;
    var u, g := p.x, r.x * s.z;
    var (v, w) := (r.x * s.x - r.z * s.z, r.x * s.z - r.z * s.x);
    CongRefl(r.x);
    CongRefl(s.z);
    CongRefl(s.x);
    CongRefl(g);
    CongMul(r.x, r.x, s.x, u * s.z);
    CongMul(r.z, 0, s.z, s.z);
    CongMul(r.z, 0, s.x, s.x);
    CongAdd(r.x * s.x, r.x * (u * s.z), r.z * s.z, 0);
    CongAdd(g, g, r.z * s.x, 0);
    Swap(r.x, u, s.z);
    CongMul(v, u * g, v, u * g);
    CongMul(w, g, w, g);
    SquareOfProduct(u, g);
    CongRefl(4);
    CongRefl(4 * u);
    CongMul(4, 4, v * v, u * u * (g * g));
    CongMul(4 * u, 4 * u, w * w, g * g);
    SumScale(u * u, g * g, 1, u, 1);
    Swap(4, u, g * g);
    Commute(u, g * g);
    Swap(4, g * g, u);
    CongRefl(u * u);
    Ratios(4 * (v * v), 4 * u * (w * w), 4 * (g * g), u * u, u, u);
  }

  /** The ladder without swaps keeps the coordinates of two neighbouring multiples. */
  lemma {:induction false} MultiplesStand(q: nat -> Point, n: nat, bits: nat)
    requires Chain(q, n, bits) && n < Pow2(bits)
    ensures var m := Multiples(n, bits, q(1).x);
      (if n == 0 then Cong(m.low.z, 0) else StandsFor(m.low, q(n))) && StandsFor(m.high, q(n + 1))
    decreases bits
  {
    hide Double, Sum, OnCurve, Doubles, Adds, Apart;
    if bits == 0 {
      CongRefl(0);
      CongRefl(q(1).x);
    } else {
      var h := n / 2;
      MultiplesStand(q, h, bits - 1);
      var m := Multiples(h, bits - 1, q(1).x);
      hide StandsFor, Cong, Multiples, Chain;
      if h == 0 {
        InfinitySum(m.low, m.high, q(1));
        if n == 0 {
          InfinityDouble(m.low);
        } else {
          DoubleStands(m.high, q(1), q(2));
        }
      } else {
        SumStands(m.low, m.high, q(h), q(h + 1), q(2 * h + 1), q(1));
        if n == 2 * h {
          DoubleStands(m.low, q(h), q(2 * h));
        } else {
          DoubleStands(m.high, q(h + 1), q(2 * h + 2));
        }
      }
    }
  }

  /** X25519 is the quotient that the ladder without swaps leaves. */
  lemma {:induction false} X25519Multiple(k: nat, u: int)
    ensures var m := Multiples(k, 255, u).low; X25519(k, u) == (m.x * Pow(m.z, P - 2)) % P
  {
    hide Ladder, Multiples, CSwap, Pow, Cong, Cong;
    LadderMultiples(k, u, 0);
    assert Pow2(0) == 1 && Prefix(k, 0) == k;
    var s, m := CSwap(Ladder(k, u, 0)), Multiples(k, 255, u).low;
    SameQuotient(s.x2, s.z2, m.x, m.z);
  }

  lemma {:induction false} SameQuotient(x: int, z: int, a: int, b: int)
    requires Cong(x, a) && Cong(z, b)
    ensures (x * Pow(z, P - 2)) % P == (a * Pow(b, P - 2)) % P
  {
    hide Cong, Pow;
    PowCong(z, b, P - 2);
    CongMul(x, a, Pow(z, P - 2), Pow(b, P - 2));
    CongIs(x * Pow(z, P - 2), a * Pow(b, P - 2));
  }

  /** For a point on the curve and its multiples, X25519 is the x coordinate of the
      multiple, whenever the inversion inverts. */
  lemma {:induction false} X25519OnCurve(k: nat, q: nat -> Point)
    requires 0 < k < Pow2(255) && Chain(q, k, 255)
    ensures var z := Multiples(k, 255, q(1).x).low.z; Cong(Pow(z, P - 1), 1) ==> X25519(k, q(1).x) == q(k).x % P
  {
    X25519Multiple(k, q(1).x);
    MultiplesStand(q, k, 255);
    var m, x := Multiples(k, 255, q(1).x).low, q(k).x;
    hide Multiples, Chain, X25519, Pow2;
    if Cong(Pow(m.z, P - 1), 1) {
      PowerOfInverse(m.x, m.z, x);
    }
  }

  lemma {:induction false} PowerOfInverse(a: int, z: int, x: int)
    requires Cong(a, x * z) && Cong(Pow(z, P - 1), 1)
    ensures (a * Pow(z, P - 2)) % P == x % P
  {
    var i := Pow(z, P - 2);
    assert Pow(z, P - 1) == z * i;
    hide Pow, Cong;
    CongRefl(i);
    CongRefl(x);
    CongMul(a, x * z, i, i);
    CongMul(x, x, z * i, 1);
    Swap(x, z, i);
    CongTrans(a * i, x * (z * i), x);
    CongIs(a * i, x);
  }

  /** The scalars of private keys are such numbers. */
  lemma PublicKeyOnCurve(key: seq<Byte>, q: nat -> Point)
    requires |key| == 32 && q(1).x == 9 && Chain(q, DecodeScalar(key), 255)
    ensures var k := DecodeScalar(key);
      Cong(Pow(Multiples(k, 255, 9).low.z, P - 1), 1) ==> X25519(k, 9) == q(k).x % P
  {
    hide Pow2, Chain, Multiples, X25519, Pow;
    ScalarShape(key);
    X25519OnCurve(DecodeScalar(key), q);
  }
}
