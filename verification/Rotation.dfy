/** Rotation of a point about an axis, over the reals: the perpendicular vector, the matrix
    product M Z M^T, and the proof that the result is a rigid motion that fixes the axis. */
module Rotation {

  datatype Vec3 = Vec3(x: real, y: real, z: real)

  /** Rows of a 3 by 3 matrix. */
  datatype Mat3 = Mat3(r0: Vec3, r1: Vec3, r2: Vec3)

  const IDENTITY := Mat3(Vec3(1.0, 0.0, 0.0), Vec3(0.0, 1.0, 0.0), Vec3(0.0, 0.0, 1.0))

  function Dot(a: Vec3, b: Vec3): real {
    a.x * b.x + a.y * b.y + a.z * b.z
  }

  function Cross(a: Vec3, b: Vec3): Vec3 {
    Vec3(a.y * b.z - a.z * b.y, a.z * b.x - a.x * b.z, a.x * b.y - a.y * b.x)
  }

  function Scale(k: real, a: Vec3): Vec3 {
    Vec3(k * a.x, k * a.y, k * a.z)
  }

  function Transpose(m: Mat3): Mat3 {
    Mat3(Vec3(m.r0.x, m.r1.x, m.r2.x), Vec3(m.r0.y, m.r1.y, m.r2.y), Vec3(m.r0.z, m.r1.z, m.r2.z))
  }

  function Apply(m: Mat3, p: Vec3): Vec3 {
    Vec3(Dot(m.r0, p), Dot(m.r1, p), Dot(m.r2, p))
  }

  /** `_MatrixMultiply`, by rows of the first and columns of the second. */
  function Multiply(a: Mat3, b: Mat3): Mat3 {
    var c := Transpose(b);
    Mat3(Apply(c, a.r0), Apply(c, a.r1), Apply(c, a.r2))
  }

  // ----- matrix algebra ---------------------------------------------------------------------

  /** A matrix moves across a dot product by transposition. */
  lemma DotTranspose(m: Mat3, a: Vec3, b: Vec3)
    ensures Dot(Apply(m, a), b) == Dot(a, Apply(Transpose(m), b))
  {
  }

  lemma {:induction false} ApplyMultiply(a: Mat3, b: Mat3, p: Vec3)
    ensures Apply(Multiply(a, b), p) == Apply(a, Apply(b, p))
  {
    RowThrough(a.r0, b, p);
    RowThrough(a.r1, b, p);
    RowThrough(a.r2, b, p);
  }

  lemma {:induction false} RowThrough(row: Vec3, b: Mat3, p: Vec3)
    ensures Dot(Apply(Transpose(b), row), p) == Dot(row, Apply(b, p))
  {
    DotTranspose(Transpose(b), row, p);
  }

  // ----- the perpendicular vector -----------------------------------------------------------

  function Abs(r: real): real {
    if r < 0.0 then -r else r
  }

  function Component(v: Vec3, i: int): real
    requires 0 <= i < 3
  {
    if i == 0 then v.x else if i == 1 then v.y else v.z
  }

  function Axis(i: int): Vec3
    requires 0 <= i < 3
  {
    Vec3(if i == 0 then 1.0 else 0.0, if i == 1 then 1.0 else 0.0, if i == 2 then 1.0 else 0.0)
  }

  ghost predicate Unit(v: Vec3) {
    Dot(v, v) == 1.0
  }

  /** `_ProjectPointOnPlane`. It divides by the square of the normal's length twice over. */
  method ProjectPointOnPlane(p: Vec3, normal: Vec3) returns (dst: Vec3)
    requires Dot(normal, normal) != 0.0
    ensures dst == Lowered(p, normal, DividedTwice(Dot(normal, p), Dot(normal, normal)))
  {
    hide Dot, DividedTwice;
    var invDenom := 1.0 / Dot(normal, normal);
    var d := Dot(normal, p) * invDenom;
    var n := Vec3(normal.x * invDenom, normal.y * invDenom, normal.z * invDenom);
    DivideTwice(Dot(normal, p), Dot(normal, normal), invDenom, d);
    var k := DividedTwice(Dot(normal, p), Dot(normal, normal));
    Regrouped(d, invDenom, normal.x, k);
    Regrouped(d, invDenom, normal.y, k);
    Regrouped(d, invDenom, normal.z, k);
    dst := Vec3(p.x - d * n.x, p.y - d * n.y, p.z - d * n.z);
  }

  function DividedTwice(a: real, b: real): real
    requires b != 0.0
  {
    a / b / b
  }

  lemma {:induction false} DividedTwiceIs(a: real, b: real)
    requires b != 0.0
    ensures DividedTwice(a, b) * b * b == a
  {
    Quotient(a, b);
    Quotient(a / b, b);
  }

  lemma Quotient(a: real, b: real)
    requires b != 0.0
    ensures (a / b) * b == a
  {
  }

  lemma {:induction false} DivideTwice(a: real, b: real, inverse: real, d: real)
    requires b != 0.0 && inverse == 1.0 / b && d == a * inverse
    ensures DividedTwice(a, b) == d * inverse
  {
    TimesInverse(a, b, inverse);
    TimesInverse(d, b, inverse);
  }

  lemma {:induction false} TimesInverse(a: real, b: real, inverse: real)
    requires b != 0.0 && inverse == 1.0 / b
    ensures a / b == a * inverse
  {
    Quotient(1.0, b);
    Quotient(a, b);
    var x, y := a / b, a * inverse;
    assert y * b == a * (inverse * b);
    assert (x - y) * b == 0.0;
    ProductZero(x - y, b);
  }

  lemma ProductZero(x: real, y: real)
    ensures x * y == 0.0 <==> x == 0.0 || y == 0.0
  {
  }

  lemma {:induction false} Regrouped(d: real, inverse: real, x: real, k: real)
    requires k == d * inverse
    ensures d * (x * inverse) == k * x
  {
    Substitute(k, d * inverse, x);
  }

  /** The point moved down by `k` normals. */
  function Lowered(p: Vec3, normal: Vec3, k: real): Vec3 {
    Vec3(p.x - k * normal.x, p.y - k * normal.y, p.z - k * normal.z)
  }

  /** The orthogonal projection onto the plane of a unit normal. */
  function Projected(p: Vec3, normal: Vec3): Vec3 {
    Lowered(p, normal, Dot(normal, p))
  }

  /** When `_ProjectPointOnPlane` does what its name says: for a unit normal, or a point that is in
      the plane already, and for nothing else. */
  lemma {:induction false} ProjectsIff(p: Vec3, normal: Vec3)
    requires Dot(normal, normal) != 0.0
    ensures var dst := Lowered(p, normal, DividedTwice(Dot(normal, p), Dot(normal, normal)));
            Dot(dst, normal) == 0.0 <==> Unit(normal) || Dot(normal, p) == 0.0
  {
    hide Dot, Lowered, DividedTwice;
    var a, b := Dot(normal, p), Dot(normal, normal);
    var k := DividedTwice(a, b);
    LoweredDots(p, normal, k);
    DividedTwiceIs(a, b);
    ZeroProduct(a, b, k, k * b);
  }

  lemma {:induction false} ZeroProduct(a: real, b: real, k: real, u: real)
    requires b != 0.0 && u * b == a && u == k * b
    ensures a - k * b == 0.0 <==> b == 1.0 || a == 0.0
  {
    ProductZero(u, b - 1.0);
    ProductZero(u, b);
    assert a - u == u * (b - 1.0);
  }

  lemma LoweredDots(p: Vec3, normal: Vec3, k: real)
    ensures Dot(Lowered(p, normal, k), normal) == Dot(normal, p) - k * Dot(normal, normal)
  {
  }

  /** Subtracting the part along a unit normal leaves a vector in the plane, shorter by exactly
      that part. */
  lemma {:induction false} ProjectedMeaning(p: Vec3, normal: Vec3)
    requires Unit(normal)
    ensures Dot(Projected(p, normal), normal) == 0.0
    ensures Dot(Projected(p, normal), Projected(p, normal)) == Dot(p, p) - Dot(normal, p) * Dot(normal, p)
  {
    var d := Dot(normal, p);
    assert Dot(Projected(p, normal), normal) == Dot(p, normal) - d * Dot(normal, normal);
    assert Dot(Projected(p, normal), Projected(p, normal))
           == Dot(p, p) - 2.0 * d * Dot(p, normal) + d * d * Dot(normal, normal);
  }

  predicate IsLeast(v: Vec3, c: real) {
    c <= Abs(v.x) && c <= Abs(v.y) && c <= Abs(v.z)
  }

  /** The index of a component of least magnitude, as the loop of `_PerpendicularVector` finds it. */
  method LeastComponent(src: Vec3) returns (pos: int)
    requires Unit(src)
    ensures 0 <= pos < 3 && IsLeast(src, Abs(Component(src, pos)))
  {
    var minelem := 1.0;
    pos := 0;
    var i := 0;
    while i < 3
      invariant 0 <= i <= 3 && 0 <= pos < 3 && 0.0 <= minelem <= 1.0
      invariant forall j | 0 <= j < i :: minelem <= Abs(Component(src, j))
      invariant minelem == 1.0 || minelem == Abs(Component(src, pos))
    {
      if Abs(Component(src, i)) < minelem {
        pos := i;
        minelem := Abs(Component(src, i));
      }
      i := i + 1;
    }
    assert minelem <= Abs(Component(src, 0)) && minelem <= Abs(Component(src, 1)) && minelem <= Abs(Component(src, 2));
    LeastIsSmall(src, minelem);
  }

  lemma {:induction false} SquareAtLeast(a: real, b: real)
    requires b >= 0.0
    ensures Abs(a) >= b ==> a * a >= b * b
  {
    if Abs(a) >= b {
      assert Abs(a) * Abs(a) >= b * b;
    }
  }

  /** The axis of the least component is far from parallel: what its projection leaves is at least
      two thirds long, squared, so normalising it never divides by zero. */
  lemma {:induction false} ProjectionIsLong(src: Vec3, pos: int)
    requires Unit(src) && 0 <= pos < 3 && IsLeast(src, Abs(Component(src, pos)))
    ensures Dot(Projected(Axis(pos), src), src) == 0.0
    ensures Dot(Projected(Axis(pos), src), Projected(Axis(pos), src)) >= 2.0 / 3.0
  {
    hide Dot, Projected;
    ProjectedMeaning(Axis(pos), src);
    AxisDots(src, pos);
    LeastIsSmall(src, Abs(Component(src, pos)));
    SquareOfAbs(Component(src, pos));
  }

  lemma SquareOfAbs(c: real)
    ensures Abs(c) * Abs(c) == c * c
  {
  }

  lemma AxisDots(src: Vec3, pos: int)
    requires 0 <= pos < 3
    ensures Dot(src, Axis(pos)) == Component(src, pos) && Dot(Axis(pos), Axis(pos)) == 1.0
  {
  }

  lemma {:induction false} LeastIsSmall(v: Vec3, c: real)
    requires Unit(v) && c >= 0.0 && IsLeast(v, c)
    ensures c * c <= 1.0 / 3.0
  {
    SquareAtLeast(v.x, c);
    SquareAtLeast(v.y, c);
    SquareAtLeast(v.z, c);
  }

  /** `_VectorNormalize`, given the value of the square root. */
  method VectorNormalize(v: Vec3, length: real) returns (r: Vec3)
    requires length * length == Dot(v, v)
    ensures length == 0.0 ==> r == v
    ensures length != 0.0 ==> Unit(r) && v == Scale(length, r)
  {
    r := v;
    if length != 0.0 {
      var ilength := 1.0 / length;
      r := Vec3(v.x * ilength, v.y * ilength, v.z * ilength);
      NormalizeIsUnit(v, length, ilength);
    }
  }

  lemma {:induction false} NormalizeIsUnit(v: Vec3, length: real, ilength: real)
    requires length * length == Dot(v, v) && length * ilength == 1.0
    ensures var r := Vec3(v.x * ilength, v.y * ilength, v.z * ilength);
            Unit(r) && v == Scale(length, r)
  {
    var r := Vec3(v.x * ilength, v.y * ilength, v.z * ilength);
    assert Dot(r, r) == Dot(v, v) * (ilength * ilength);
    assert Dot(r, r) == (length * ilength) * (length * ilength);
    assert length * (v.x * ilength) == v.x * (length * ilength);
    assert length * (v.y * ilength) == v.y * (length * ilength);
    assert length * (v.z * ilength) == v.z * (length * ilength);
  }

  lemma DividedByOne(a: real)
    ensures DividedTwice(a, 1.0) == a
  {
  }

  /** `_PerpendicularVector`. The square root is taken by `sqrt`. */
  method PerpendicularVector(src: Vec3, sqrt: real -> real) returns (dst: Vec3)
    requires Unit(src) && forall r | r >= 0.0 :: sqrt(r) * sqrt(r) == r
    ensures Unit(dst) && Dot(dst, src) == 0.0
  {
    var pos := LeastComponent(src);
    var tempvec := Axis(pos);
    dst := ProjectPointOnPlane(tempvec, src);
    DividedByOne(Dot(src, tempvec));
    assert dst == Projected(tempvec, src);
    ProjectionIsLong(src, pos);
    var length := sqrt(Dot(dst, dst));
    ghost var projected := dst;
    dst := VectorNormalize(dst, length);
    assert length != 0.0;
    ScaleDot(length, dst, src);
  }

  lemma {:induction false} ScaleDot(k: real, a: Vec3, b: Vec3)
    ensures Dot(Scale(k, a), b) == k * Dot(a, b)
    ensures k != 0.0 && Dot(Scale(k, a), b) == 0.0 ==> Dot(a, b) == 0.0
  {
    assert Dot(Scale(k, a), b) == k * Dot(a, b);
  }

  // ----- the rotation -----------------------------------------------------------------------

  /** The rotation matrix built from a perpendicular vector, the axis, and the cosine and sine of
      the angle. */
  function RotationMatrix(vr: Vec3, vf: Vec3, c: real, s: real): Mat3 {
    var vup := Cross(vr, vf);
    var im := Mat3(vr, vup, vf);
    var m := Transpose(im);
    var zrot := Mat3(Vec3(c, s, 0.0), Vec3(-s, c, 0.0), Vec3(0.0, 0.0, 1.0));
    Multiply(Multiply(m, zrot), im)
  }

  /** `_RotatePointAroundVector`, given the sine and cosine of the angle. */
  method RotatePointAroundVector(dir: Vec3, point: Vec3, c: real, s: real, sqrt: real -> real) returns (dst: Vec3)
    requires Unit(dir) && (forall r | r >= 0.0 :: sqrt(r) * sqrt(r) == r) && c * c + s * s == 1.0
    ensures dst == Rodrigues(dir, point, c, s)
  {
    var vf := dir;
    var vr := PerpendicularVector(dir, sqrt);
    var vup := Cross(vr, vf);
    var m := Mat3(Vec3(vr.x, vup.x, vf.x), Vec3(vr.y, vup.y, vf.y), Vec3(vr.z, vup.z, vf.z));
    var im := Mat3(Vec3(m.r0.x, m.r1.x, m.r2.x), Vec3(m.r0.y, m.r1.y, m.r2.y), Vec3(m.r0.z, m.r1.z, m.r2.z));
    var zrot := Mat3(Vec3(c, s, 0.0), Vec3(-s, c, 0.0), Vec3(0.0, 0.0, 1.0));
    var tmpmat := Multiply(m, zrot);
    var rot := Multiply(tmpmat, im);
    dst := Apply(rot, point);
    assert rot == RotationMatrix(vr, vf, c, s);
    RotationIsRodrigues(vr, vf, c, s, point);
  }

  function Add(a: Vec3, b: Vec3): Vec3 {
    Vec3(a.x + b.x, a.y + b.y, a.z + b.z)
  }

  /** Rotation of `p` about the unit axis `k`, by the angle with the given cosine and sine. It
      does not mention any perpendicular vector. */
  function Rodrigues(k: Vec3, p: Vec3, c: real, s: real): Vec3 {
    Add(Add(Scale(c, p), Scale(s, Cross(k, p))), Scale((1.0 - c) * Dot(k, p), k))
  }

  /** Two perpendicular unit vectors; with their cross product they form a frame. */
  ghost predicate Frame(vr: Vec3, vf: Vec3) {
    Unit(vr) && Unit(vf) && Dot(vr, vf) == 0.0
  }

  function Combine(vr: Vec3, vup: Vec3, vf: Vec3, v: Vec3): Vec3 {
    Add(Add(Scale(v.x, vr), Scale(v.y, vup)), Scale(v.z, vf))
  }

  lemma {:induction false} TripleProduct(a: Vec3, b: Vec3, c: Vec3)
    ensures Cross(a, Cross(b, c)) == Add(Scale(Dot(a, c), b), Scale(-Dot(a, b), c))
  {
    hide Dot, Cross, Add, Scale;
    var u, ac, ab := Cross(b, c), Dot(a, c), Dot(a, b);
    DotIs(a, c);
    DotIs(a, b);
    CrossIs(b, c);
    CrossIs(a, u);
    TripleComponent(a.x, a.y, a.z, b.x, b.y, b.z, c.x, c.y, c.z, u.y, u.z, ac, ab);
    TripleComponent(a.y, a.z, a.x, b.y, b.z, b.x, c.y, c.z, c.x, u.z, u.x, ac, ab);
    TripleComponent(a.z, a.x, a.y, b.z, b.x, b.y, c.z, c.x, c.y, u.x, u.y, ac, ab);
    SumIs(b, c, ac, -ab, Cross(a, u));
  }

  lemma DotIs(a: Vec3, b: Vec3)
    ensures Dot(a, b) == a.x * b.x + a.y * b.y + a.z * b.z
  {
  }

  lemma CrossIs(a: Vec3, b: Vec3)
    ensures Cross(a, b).x == a.y * b.z - a.z * b.y
    ensures Cross(a, b).y == a.z * b.x - a.x * b.z
    ensures Cross(a, b).z == a.x * b.y - a.y * b.x
  {
  }

  lemma SumIs(a: Vec3, b: Vec3, s: real, t: real, r: Vec3)
    requires r.x == s * a.x + t * b.x && r.y == s * a.y + t * b.y && r.z == s * a.z + t * b.z
    ensures r == Add(Scale(s, a), Scale(t, b))
  {
  }

  lemma {:induction false} TripleComponent(
      ax: real, ay: real, az: real, bx: real, by': real, bz: real, cx: real, cy: real, cz: real,
      uy: real, uz: real, ac: real, ab: real)
    requires ac == ax * cx + ay * cy + az * cz && ab == ax * bx + ay * by' + az * bz
    requires uz == bx * cy - by' * cx && uy == bz * cx - bx * cz
    ensures ay * uz - az * uy == ac * bx + -ab * cx
  {
    Substitute(uz, bx * cy - by' * cx, ay);
    Substitute(uy, bz * cx - bx * cz, az);
    Substitute(ac, ax * cx + ay * cy + az * cz, bx);
    Substitute(ab, ax * bx + ay * by' + az * bz, cx);
  }

  lemma CrossIsPerpendicular(a: Vec3, b: Vec3)
    ensures Dot(Cross(a, b), a) == 0.0 && Dot(Cross(a, b), b) == 0.0
  {
  }

  lemma Lagrange(a: Vec3, b: Vec3)
    ensures Dot(Cross(a, b), Cross(a, b)) == Dot(a, a) * Dot(b, b) - Dot(a, b) * Dot(a, b)
  {
  }

  lemma CrossAdd(k: Vec3, a: Vec3, b: Vec3)
    ensures Cross(k, Add(a, b)) == Add(Cross(k, a), Cross(k, b))
  {
  }

  lemma {:induction false} CrossScale(k: Vec3, a: Vec3, t: real)
    ensures Cross(k, Scale(t, a)) == Scale(t, Cross(k, a))
  {
    hide Cross, Scale;
    var ta, u := Scale(t, a), Cross(k, a);
    ScaleIs(t, a);
    CrossIs(k, a);
    CrossIs(k, ta);
    ScaledDifference(k.y, a.z, k.z, a.y, t, ta.z, ta.y, u.x);
    ScaledDifference(k.z, a.x, k.x, a.z, t, ta.x, ta.z, u.y);
    ScaledDifference(k.x, a.y, k.y, a.x, t, ta.y, ta.x, u.z);
    ScaleIs(t, u);
  }

  lemma ScaleIs(t: real, a: Vec3)
    ensures Scale(t, a).x == t * a.x && Scale(t, a).y == t * a.y && Scale(t, a).z == t * a.z
  {
  }

  lemma {:induction false} ScaledDifference(a: real, b: real, c: real, d: real, t: real, tb: real, td: real, u: real)
    requires tb == t * b && td == t * d && u == a * b - c * d
    ensures a * tb - c * td == t * u
  {
    Substitute(tb, t * b, a);
    Substitute(td, t * d, c);
    Substitute(u, a * b - c * d, t);
  }

  /** The third vector of a frame is a unit vector perpendicular to the other two, and the frame
      turns into itself under the cross product with the axis. */
  lemma {:induction false} FrameFacts(vr: Vec3, vf: Vec3)
    requires Frame(vr, vf)
    ensures var vup := Cross(vr, vf);
            && Unit(vup) && Dot(vup, vr) == 0.0 && Dot(vup, vf) == 0.0
            && Cross(vf, vr) == Scale(-1.0, vup) && Cross(vf, vup) == vr
  {
    Lagrange(vr, vf);
    CrossIsPerpendicular(vr, vf);
    TripleProduct(vf, vr, vf);
    assert Dot(vf, vr) == Dot(vr, vf);
  }

  /** What is left of a vector after removing its parts along `vr` and `vf` lies along the third. */
  lemma {:induction false} Leftover(vr: Vec3, vf: Vec3, q: Vec3)
    requires Frame(vr, vf) && Dot(q, vr) == 0.0 && Dot(q, vf) == 0.0
    ensures var vup := Cross(vr, vf); q == Scale(Dot(vup, q), vup)
  {
    hide Dot, Cross, Add, Scale;
    var vup := Cross(vr, vf);
    FrameFacts(vr, vf);
    calc {
      Cross(q, vup);
    ==  { TripleProduct(q, vr, vf); }
      Add(Scale(Dot(q, vf), vr), Scale(-Dot(q, vr), vf));
    ==
      Add(Scale(0.0, vr), Scale(-0.0, vf));
    ==  { ZeroScales(vr, vf); }
      ZERO;
    }
    calc {
      Add(Scale(1.0, q), Scale(-Dot(vup, q), vup));
    ==  { assert Dot(vup, vup) == 1.0; }
      Add(Scale(Dot(vup, vup), q), Scale(-Dot(vup, q), vup));
    ==  { TripleProduct(vup, q, vup); }
      Cross(vup, ZERO);
    ==  { CrossZero(vup); }
      ZERO;
    }
    SolveZero(q, vup, Dot(vup, q));
  }

  const ZERO := Vec3(0.0, 0.0, 0.0)

  lemma ZeroScales(a: Vec3, b: Vec3)
    ensures Add(Scale(0.0, a), Scale(-0.0, b)) == ZERO && Scale(0.0, a) == ZERO
  {
  }

  lemma CrossZero(a: Vec3)
    ensures Cross(a, ZERO) == ZERO && Cross(a, a) == ZERO
  {
  }

  lemma {:induction false} SolveZero(q: Vec3, v: Vec3, t: real)
    requires Add(Scale(1.0, q), Scale(-t, v)) == ZERO
    ensures q == Scale(t, v)
  {
    assert q.x + -t * v.x == 0.0 && q.y + -t * v.y == 0.0 && q.z + -t * v.z == 0.0;
  }

  function Coordinates(vr: Vec3, vf: Vec3, p: Vec3): Vec3 {
    Vec3(Dot(vr, p), Dot(Cross(vr, vf), p), Dot(vf, p))
  }

  /** A frame is complete: every vector is the combination of its coordinates. */
  lemma {:induction false} Complete(vr: Vec3, vf: Vec3, p: Vec3)
    requires Frame(vr, vf)
    ensures p == Combine(vr, Cross(vr, vf), vf, Coordinates(vr, vf, p))
  {
    hide Dot, Cross, Add, Scale, Combine;
    var vup := Cross(vr, vf);
    FrameFacts(vr, vf);
    DotCommutes(vr, vf);
    DotCommutes(vup, vr);
    DotCommutes(vup, vf);
    var a, g := Dot(vr, p), Dot(vf, p);
    var q := Add(Add(p, Scale(-a, vr)), Scale(-g, vf));
    Remainder(vr, vf, vr, p, a, g, 1.0, 0.0);
    Remainder(vr, vf, vf, p, a, g, 0.0, 1.0);
    Remainder(vr, vf, vup, p, a, g, 0.0, 0.0);
    Leftover(vr, vf, q);
    Recombine(p, vr, vup, vf, a, Dot(vup, p), g);
  }

  lemma DotCommutes(a: Vec3, b: Vec3)
    ensures Dot(a, b) == Dot(b, a)
  {
  }

  lemma {:induction false} Recombine(p: Vec3, vr: Vec3, vup: Vec3, vf: Vec3, a: real, b: real, g: real)
    requires Add(Add(p, Scale(-a, vr)), Scale(-g, vf)) == Scale(b, vup)
    ensures p == Combine(vr, vup, vf, Vec3(a, b, g))
  {
    assert p.x + -a * vr.x + -g * vf.x == b * vup.x;
    assert p.y + -a * vr.y + -g * vf.y == b * vup.y;
    assert p.z + -a * vr.z + -g * vf.z == b * vup.z;
  }

  lemma {:induction false} Remainder(vr: Vec3, vf: Vec3, k: Vec3, p: Vec3, a: real, g: real, x: real, y: real)
    requires x == Dot(k, vr) && y == Dot(k, vf)
    ensures var q := Add(Add(p, Scale(-a, vr)), Scale(-g, vf));
            Dot(k, q) == Dot(k, p) - a * x - g * y && Dot(q, k) == Dot(k, q)
  {
    Substitute(x, Dot(k, vr), a);
    Substitute(y, Dot(k, vf), g);
    RemainderExpanded(vr, vf, k, p, a, g);
  }

  lemma RemainderExpanded(vr: Vec3, vf: Vec3, k: Vec3, p: Vec3, a: real, g: real)
    ensures var q := Add(Add(p, Scale(-a, vr)), Scale(-g, vf));
            Dot(k, q) == Dot(k, p) - a * Dot(k, vr) - g * Dot(k, vf) && Dot(q, k) == Dot(k, q)
  {
  }

  lemma {:induction false} CrossOfCombination(vr: Vec3, vf: Vec3, v: Vec3)
    requires Frame(vr, vf)
    ensures var vup := Cross(vr, vf);
            Cross(vf, Combine(vr, vup, vf, v)) == Add(Scale(v.y, vr), Scale(-v.x, vup))
  {
    hide Dot, Cross, Add, Scale;
    var vup := Cross(vr, vf);
    FrameFacts(vr, vf);
    CrossAdd(vf, Add(Scale(v.x, vr), Scale(v.y, vup)), Scale(v.z, vf));
    CrossAdd(vf, Scale(v.x, vr), Scale(v.y, vup));
    CrossScale(vf, vr, v.x);
    CrossScale(vf, vup, v.y);
    CrossScale(vf, vf, v.z);
    CrossZero(vf);
    Tidy(vr, vup, v);
  }

  lemma {:induction false} Tidy(a: Vec3, b: Vec3, v: Vec3)
    ensures Add(Add(Scale(v.x, Scale(-1.0, b)), Scale(v.y, a)), Scale(v.z, ZERO)) == Add(Scale(v.y, a), Scale(-v.x, b))
  {
    var l := Add(Add(Scale(v.x, Scale(-1.0, b)), Scale(v.y, a)), Scale(v.z, ZERO));
    var r := Add(Scale(v.y, a), Scale(-v.x, b));
    assert l.x == r.x && l.y == r.y && l.z == r.z;
  }

  function Turned(v: Vec3, c: real, s: real): Vec3 {
    Vec3(c * v.x + s * v.y, c * v.y - s * v.x, v.z)
  }

  /** The matrix acts on coordinates. */
  lemma {:induction false} RotationActs(vr: Vec3, vf: Vec3, c: real, s: real, p: Vec3)
    ensures var v := Coordinates(vr, vf, p);
            Apply(RotationMatrix(vr, vf, c, s), p)
            == Combine(vr, Cross(vr, vf), vf, Turned(v, c, s))
  {
    var vup := Cross(vr, vf);
    var im := Mat3(vr, vup, vf);
    var m := Transpose(im);
    var zrot := Mat3(Vec3(c, s, 0.0), Vec3(-s, c, 0.0), Vec3(0.0, 0.0, 1.0));
    ApplyMultiply(Multiply(m, zrot), im, p);
    ApplyMultiply(m, zrot, Apply(im, p));
    var v := Coordinates(vr, vf, p);
    assert Apply(im, p) == v;
    var w := Turned(v, c, s);
    assert Apply(zrot, v) == w;
    ApplyColumns(vr, vup, vf, w);
  }

  lemma ApplyColumns(a: Vec3, b: Vec3, c: Vec3, v: Vec3)
    ensures Apply(Transpose(Mat3(a, b, c)), v) == Combine(a, b, c, v)
  {
  }

  lemma {:induction false} CombineRodrigues(vr: Vec3, vup: Vec3, vf: Vec3, v: Vec3, c: real, s: real)
    ensures Combine(vr, vup, vf, Turned(v, c, s))
            == Add(Add(Scale(c, Combine(vr, vup, vf, v)), Scale(s, Add(Scale(v.y, vr), Scale(-v.x, vup)))),
                   Scale((1.0 - c) * v.z, vf))
  {
    hide Turned, Combine, Add, Scale, Dot, Tilt;
    var p, t := Combine(vr, vup, vf, v), Turned(v, c, s);
    var r, w, g := Combine(vr, vup, vf, t), Add(Scale(v.y, vr), Scale(-v.x, vup)), (1.0 - c) * v.z;
    CombineIs(vr, vup, vf, v);
    CombineIs(vr, vup, vf, t);
    TiltIs(vr, vup, v);
    CombineComponent(vr.x, vup.x, vf.x, v, c, s, p.x, r.x, w.x, g);
    CombineComponent(vr.y, vup.y, vf.y, v, c, s, p.y, r.y, w.y, g);
    CombineComponent(vr.z, vup.z, vf.z, v, c, s, p.z, r.z, w.z, g);
    SumOf(c, p, s, w, g, vf, r);
  }

  lemma CombineIs(a: Vec3, b: Vec3, c: Vec3, v: Vec3)
    ensures var r := Combine(a, b, c, v);
            && r.x == Dot(v, Vec3(a.x, b.x, c.x))
            && r.y == Dot(v, Vec3(a.y, b.y, c.y)) && r.z == Dot(v, Vec3(a.z, b.z, c.z))
  {
  }

  function Tilt(v: Vec3, a: real, b: real): real {
    v.y * a + -v.x * b
  }

  lemma TiltIs(a: Vec3, b: Vec3, v: Vec3)
    ensures var w := Add(Scale(v.y, a), Scale(-v.x, b));
            w.x == Tilt(v, a.x, b.x) && w.y == Tilt(v, a.y, b.y) && w.z == Tilt(v, a.z, b.z)
  {
  }

  lemma SumOf(c: real, p: Vec3, s: real, w: Vec3, g: real, f: Vec3, r: Vec3)
    requires r.x == c * p.x + s * w.x + g * f.x
    requires r.y == c * p.y + s * w.y + g * f.y
    requires r.z == c * p.z + s * w.z + g * f.z
    ensures r == Add(Add(Scale(c, p), Scale(s, w)), Scale(g, f))
  {
  }

  /** One component of `CombineRodrigues`. */
  lemma {:induction false} CombineComponent(
      a: real, b: real, f: real, v: Vec3, c: real, s: real, p: real, r: real, w: real, g: real)
    requires p == Dot(v, Vec3(a, b, f)) && r == Dot(Turned(v, c, s), Vec3(a, b, f)) && w == Tilt(v, a, b)
    requires g == (1.0 - c) * v.z
    ensures r == c * p + s * w + g * f
  {
    var t := Turned(v, c, s);
    Substitute(t.x, c * v.x + s * v.y, a);
    Substitute(t.y, c * v.y - s * v.x, b);
    Substitute(p, v.x * a + v.y * b + v.z * f, c);
    Substitute(w, v.y * a + -v.x * b, s);
    Substitute(g, (1.0 - c) * v.z, f);
  }

  lemma Substitute(x: real, y: real, k: real)
    requires x == y
    ensures x * k == y * k && k * x == k * y
  {
  }

  /** The matrix product is the rotation about the axis, whichever perpendicular vector was used
      to build it. */
  lemma {:induction false} RotationIsRodrigues(vr: Vec3, vf: Vec3, c: real, s: real, p: Vec3)
    requires Frame(vr, vf)
    ensures Apply(RotationMatrix(vr, vf, c, s), p) == Rodrigues(vf, p, c, s)
  {
    hide Dot, Cross, Add, Scale, Combine, Apply, RotationMatrix, Turned;
    var v := Coordinates(vr, vf, p);
    RotationActs(vr, vf, c, s, p);
    Complete(vr, vf, p);
    CrossOfCombination(vr, vf, v);
    CombineRodrigues(vr, Cross(vr, vf), vf, v, c, s);
    var w, g := Add(Scale(v.y, vr), Scale(-v.x, Cross(vr, vf))), (1.0 - c) * v.z;
    assert Cross(vf, p) == w && g == (1.0 - c) * Dot(vf, p);
    assert Apply(RotationMatrix(vr, vf, c, s), p) == Add(Add(Scale(c, p), Scale(s, w)), Scale(g, vf));
    RodriguesIs(vf, p, c, s, w, g);
  }

  lemma {:induction false} RodriguesIs(k: Vec3, p: Vec3, c: real, s: real, w: Vec3, g: real)
    requires w == Cross(k, p) && g == (1.0 - c) * Dot(k, p)
    ensures Rodrigues(k, p, c, s) == Add(Add(Scale(c, p), Scale(s, w)), Scale(g, k))
  {
    hide Dot, Cross;
  }

  // ----- rigidity ---------------------------------------------------------------------------

  /** In a frame the dot product is that of the coordinates. */
  lemma {:induction false} DotOfCombinations(vr: Vec3, vf: Vec3, v: Vec3, w: Vec3)
    requires Frame(vr, vf)
    ensures var vup := Cross(vr, vf);
            Dot(Combine(vr, vup, vf, v), Combine(vr, vup, vf, w)) == Dot(v, w)
  {
    hide Dot, Cross, Combine;
    var vup := Cross(vr, vf);
    FrameFacts(vr, vf);
    var b := Combine(vr, vup, vf, w);
    Along(vr, vr, vup, vf, w);
    Along(vup, vr, vup, vf, w);
    Along(vf, vr, vup, vf, w);
    Pick(w, Vec3(Dot(vr, vr), Dot(vr, vup), Dot(vr, vf)));
    Pick(w, Vec3(Dot(vup, vr), Dot(vup, vup), Dot(vup, vf)));
    Pick(w, Vec3(Dot(vf, vr), Dot(vf, vup), Dot(vf, vf)));
    Along(b, vr, vup, vf, v);
    Substitute(Dot(b, vr), w.x, v.x);
    Substitute(Dot(b, vup), w.y, v.y);
    Substitute(Dot(b, vf), w.z, v.z);
    DotIs(v, w);
    DotCommutes(Combine(vr, vup, vf, v), b);
  }

  lemma Pick(w: Vec3, u: Vec3)
    ensures u == Axis(0) ==> w.x * u.x + w.y * u.y + w.z * u.z == w.x
    ensures u == Axis(1) ==> w.x * u.x + w.y * u.y + w.z * u.z == w.y
    ensures u == Axis(2) ==> w.x * u.x + w.y * u.y + w.z * u.z == w.z
  {
  }

  lemma Along(k: Vec3, a: Vec3, b: Vec3, c: Vec3, v: Vec3)
    ensures Dot(k, Combine(a, b, c, v)) == v.x * Dot(k, a) + v.y * Dot(k, b) + v.z * Dot(k, c)
    ensures Dot(Combine(a, b, c, v), k) == Dot(k, Combine(a, b, c, v))
    ensures Dot(k, a) == Dot(a, k) && Dot(k, b) == Dot(b, k) && Dot(k, c) == Dot(c, k)
  {
  }

  lemma {:induction false} TurnKeepsDot(v: Vec3, w: Vec3, c: real, s: real)
    requires c * c + s * s == 1.0
    ensures Dot(Turned(v, c, s), Turned(w, c, s)) == Dot(v, w)
  {
    hide Turned, Dot;
    var t, u := Turned(v, c, s), Turned(w, c, s);
    TurnedIs(v, c, s);
    TurnedIs(w, c, s);
    TurnedDot(v, w, c, s, t, u, 1.0, v.x * w.x + v.y * w.y);
    SameSum(v, w, t, u);
  }

  lemma TurnedIs(v: Vec3, c: real, s: real)
    ensures var t := Turned(v, c, s); t.x == c * v.x + s * v.y && t.y == c * v.y - s * v.x && t.z == v.z
  {
  }

  lemma {:induction false} TurnedDot(v: Vec3, w: Vec3, c: real, s: real, t: Vec3, u: Vec3, k: real, m: real)
    requires t.x == c * v.x + s * v.y && t.y == c * v.y - s * v.x
    requires u.x == c * w.x + s * w.y && u.y == c * w.y - s * w.x
    requires k == c * c + s * s && m == v.x * w.x + v.y * w.y
    ensures t.x * u.x + t.y * u.y == k * m
  {
    Substitute(t.x, c * v.x + s * v.y, u.x);
    Substitute(t.y, c * v.y - s * v.x, u.y);
    Substitute(u.x, c * w.x + s * w.y, c * v.x + s * v.y);
    Substitute(u.y, c * w.y - s * w.x, c * v.y - s * v.x);
    Substitute(m, v.x * w.x + v.y * w.y, c * c + s * s);
    Substitute(k, c * c + s * s, m);
  }

  lemma {:induction false} SameSum(v: Vec3, w: Vec3, t: Vec3, u: Vec3)
    requires t.x * u.x + t.y * u.y == 1.0 * (v.x * w.x + v.y * w.y) && t.z == v.z && u.z == w.z
    ensures Dot(t, u) == Dot(v, w)
  {
    Substitute(t.z, v.z, u.z);
    Substitute(u.z, w.z, v.z);
  }

  /** The rotation preserves every dot product, hence every length and angle. */
  lemma {:induction false} RotationIsRigid(vr: Vec3, vf: Vec3, c: real, s: real, p: Vec3, q: Vec3)
    requires Frame(vr, vf) && c * c + s * s == 1.0
    ensures var r := RotationMatrix(vr, vf, c, s);
            Dot(Apply(r, p), Apply(r, q)) == Dot(p, q)
  {
    hide Dot, Cross, Combine, Apply, RotationMatrix, Coordinates, Turned;
    var v, w := Coordinates(vr, vf, p), Coordinates(vr, vf, q);
    RotationActs(vr, vf, c, s, p);
    RotationActs(vr, vf, c, s, q);
    DotOfCombinations(vr, vf, Turned(v, c, s), Turned(w, c, s));
    TurnKeepsDot(v, w, c, s);
    Complete(vr, vf, p);
    Complete(vr, vf, q);
    DotOfCombinations(vr, vf, v, w);
  }

  /** The rotation leaves its axis where it is. */
  lemma {:induction false} RotationFixesAxis(vr: Vec3, vf: Vec3, c: real, s: real)
    requires Frame(vr, vf)
    ensures Apply(RotationMatrix(vr, vf, c, s), vf) == vf
  {
    RotationIsRodrigues(vr, vf, c, s, vf);
    RodriguesFixes(vf, c, s);
  }

  lemma {:induction false} RodriguesFixes(k: Vec3, c: real, s: real)
    requires Unit(k)
    ensures Rodrigues(k, k, c, s) == k
  {
    CrossZero(k);
    var r := Rodrigues(k, k, c, s);
    assert r.x == c * k.x + s * 0.0 + (1.0 - c) * k.x;
    assert r.y == c * k.y + s * 0.0 + (1.0 - c) * k.y;
    assert r.z == c * k.z + s * 0.0 + (1.0 - c) * k.z;
  }

  /** The rotation matrix is orthogonal. */
  lemma {:induction false} RotationIsOrthogonal(vr: Vec3, vf: Vec3, c: real, s: real)
    requires Frame(vr, vf) && c * c + s * s == 1.0
    ensures var r := RotationMatrix(vr, vf, c, s);
            Multiply(Transpose(r), r) == IDENTITY
  {
    var r := RotationMatrix(vr, vf, c, s);
    forall i, j | 0 <= i < 3 && 0 <= j < 3
      ensures Dot(Column(r, i), Column(r, j)) == if i == j then 1.0 else 0.0
    {
      RotationIsRigid(vr, vf, c, s, Axis(i), Axis(j));
      ApplyAxis(r, i);
      ApplyAxis(r, j);
    }
    assert forall i, j | 0 <= i < 3 && 0 <= j < 3 :: Dot(Column(r, i), Column(r, j)) == if i == j then 1.0 else 0.0;
    EntriesAreDots(r);
  }

  function Column(m: Mat3, i: int): Vec3
    requires 0 <= i < 3
  {
    Vec3(Component(m.r0, i), Component(m.r1, i), Component(m.r2, i))
  }

  lemma ApplyAxis(m: Mat3, i: int)
    requires 0 <= i < 3
    ensures Apply(m, Axis(i)) == Column(m, i)
  {
  }

  lemma EntriesAreDots(m: Mat3)
    ensures var p := Multiply(Transpose(m), m);
            && p.r0 == Vec3(Dot(Column(m, 0), Column(m, 0)),
                            Dot(Column(m, 0), Column(m, 1)), Dot(Column(m, 0), Column(m, 2)))
            && p.r1 == Vec3(Dot(Column(m, 1), Column(m, 0)),
                            Dot(Column(m, 1), Column(m, 1)), Dot(Column(m, 1), Column(m, 2)))
            && p.r2 == Vec3(Dot(Column(m, 2), Column(m, 0)),
                            Dot(Column(m, 2), Column(m, 1)), Dot(Column(m, 2), Column(m, 2)))
  {
  }
}
