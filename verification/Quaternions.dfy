/** Unit quaternions and rotation matrices, over the real numbers; a square root is a parameter. */
module Quaternions {

  datatype Vector3 = Vector3(x: real, y: real, z: real)

  datatype Quaternion = Quaternion(x: real, y: real, z: real, w: real)

  /** Column-major, as the program stores it: m0, m1, m2, m3 is the first column. */
  datatype Matrix = Matrix(m0: real, m4: real, m8: real, m12: real,
                           m1: real, m5: real, m9: real, m13: real,
                           m2: real, m6: real, m10: real, m14: real,
                           m3: real, m7: real, m11: real, m15: real)

  // ---- The program ----

  function Vector3Transform(v: Vector3, mat: Matrix): Vector3 {
    Vector3(mat.m0 * v.x + mat.m4 * v.y + mat.m8 * v.z + mat.m12,
            mat.m1 * v.x + mat.m5 * v.y + mat.m9 * v.z + mat.m13,
            mat.m2 * v.x + mat.m6 * v.y + mat.m10 * v.z + mat.m14)
  }

  function Vector3RotateByQuaternion(v: Vector3, q: Quaternion): Vector3 {
    Vector3(
      v.x * (q.x * q.x + q.w * q.w - q.y * q.y - q.z * q.z) + v.y * (2.0 * q.x * q.y - 2.0 * q.w * q.z)
      + v.z * (2.0 * q.x * q.z + 2.0 * q.w * q.y),
      v.x * (2.0 * q.w * q.z + 2.0 * q.x * q.y) + v.y * (q.w * q.w - q.x * q.x + q.y * q.y - q.z * q.z)
      + v.z * (-2.0 * q.w * q.x + 2.0 * q.y * q.z),
      v.x * (-2.0 * q.w * q.y + 2.0 * q.x * q.z) + v.y * (2.0 * q.w * q.x + 2.0 * q.y * q.z)
      + v.z * (q.w * q.w - q.x * q.x - q.y * q.y + q.z * q.z))
  }

  function QuaternionMultiply(q1: Quaternion, q2: Quaternion): Quaternion {
    Quaternion(q1.x * q2.w + q1.w * q2.x + q1.y * q2.z - q1.z * q2.y,
               q1.y * q2.w + q1.w * q2.y + q1.z * q2.x - q1.x * q2.z,
               q1.z * q2.w + q1.w * q2.z + q1.x * q2.y - q1.y * q2.x,
               q1.w * q2.w - q1.x * q2.x - q1.y * q2.y - q1.z * q2.z)
  }

  function QuaternionToMatrix(q: Quaternion): Matrix {
    var a2, b2, c2 := q.x * q.x, q.y * q.y, q.z * q.z;
    var ac, ab, bc := q.x * q.z, q.x * q.y, q.y * q.z;
    var ad, bd, cd := q.w * q.x, q.w * q.y, q.w * q.z;
    Matrix(1.0 - 2.0 * (b2 + c2), 2.0 * (ab - cd), 2.0 * (ac + bd), 0.0,
           2.0 * (ab + cd), 1.0 - 2.0 * (a2 + c2), 2.0 * (bc - ad), 0.0,
           2.0 * (ac - bd), 2.0 * (bc + ad), 1.0 - 2.0 * (a2 + b2), 0.0,
           0.0, 0.0, 0.0, 1.0)
  }

  /** Which component is the biggest, in the order w, x, y, z, and four times its square minus one. */
  function Biggest(mat: Matrix): (chosen: (int, real)) {
    var fourWSquaredMinus1 := mat.m0 + mat.m5 + mat.m10;
    var fourXSquaredMinus1 := mat.m0 - mat.m5 - mat.m10;
    var fourYSquaredMinus1 := mat.m5 - mat.m0 - mat.m10;
    var fourZSquaredMinus1 := mat.m10 - mat.m0 - mat.m5;
    var afterW := (0, fourWSquaredMinus1);
    var afterX := if fourXSquaredMinus1 > afterW.1 then (1, fourXSquaredMinus1) else afterW;
    var afterY := if fourYSquaredMinus1 > afterX.1 then (2, fourYSquaredMinus1) else afterX;
    if fourZSquaredMinus1 > afterY.1 then (3, fourZSquaredMinus1) else afterY
  }

  predicate IsRoot(root: real, x: real) {
    root >= 0.0 && root * root == x
  }

  function QuaternionFromMatrix(mat: Matrix, root: real): Quaternion
    requires IsRoot(root, Biggest(mat).1 + 1.0)
  {
    RootIsPositive(mat, root);
    var biggestVal := root * 0.5;
    var mult := 0.25 / biggestVal;
    match Biggest(mat).0
    case 0 => Quaternion((mat.m6 - mat.m9) * mult, (mat.m8 - mat.m2) * mult, (mat.m1 - mat.m4) * mult, biggestVal)
    case 1 => Quaternion(biggestVal, (mat.m1 + mat.m4) * mult, (mat.m8 + mat.m2) * mult, (mat.m6 - mat.m9) * mult)
    case 2 => Quaternion((mat.m1 + mat.m4) * mult, biggestVal, (mat.m6 + mat.m9) * mult, (mat.m8 - mat.m2) * mult)
    case _ => Quaternion((mat.m8 + mat.m2) * mult, (mat.m6 + mat.m9) * mult, biggestVal, (mat.m1 - mat.m4) * mult)
  }

  lemma Product(a: real, b: real)
    ensures a >= 0.0 && b >= 0.0 ==> a * b >= 0.0
    ensures a * b == 0.0 ==> a == 0.0 || b == 0.0
  {
  }

  /** For every matrix at all, the square root is of at least one, and the division is by at least a half. */
  lemma RootIsPositive(mat: Matrix, root: real)
    requires IsRoot(root, Biggest(mat).1 + 1.0)
    ensures Biggest(mat).1 >= 0.0 && root >= 1.0
  {
    var d := 1.0 - root;
    Product(root, d);
    assert root * d == root - root * root;
  }

  // ---- From a quaternion to its matrix and back ----

  function NormSquared(q: Quaternion): real {
    q.x * q.x + q.y * q.y + q.z * q.z + q.w * q.w
  }

  function Negated(q: Quaternion): Quaternion {
    Quaternion(-q.x, -q.y, -q.z, -q.w)
  }

  function Component(q: Quaternion, index: int): real {
    match index
    case 0 => q.w
    case 1 => q.x
    case 2 => q.y
    case _ => q.z
  }

  function Square(x: real): real {
    x * x
  }

  /** The chosen component is one of the biggest, and its square is at least a quarter. */
  lemma BiggestOfUnit(q: Quaternion)
    requires NormSquared(q) == 1.0
    ensures var chosen := Biggest(QuaternionToMatrix(q));
      var square := Square(Component(q, chosen.0));
      && chosen.1 + 1.0 == 4.0 * square && square >= 0.25 && 0 <= chosen.0 < 4
      && Square(q.w) <= square && Square(q.x) <= square && Square(q.y) <= square && Square(q.z) <= square
  {
    DiagonalSquares(q);
    hide Square, QuaternionToMatrix, Biggest, NormSquared;
    BiggestBySquares(QuaternionToMatrix(q), Square(q.x), Square(q.y), Square(q.z), Square(q.w));
  }

  /** Of equal components the first in the order w, x, y, z is chosen. */
  lemma ChosenExactly(q: Quaternion)
    requires NormSquared(q) == 1.0
    ensures var x, y, z, w := Square(q.x), Square(q.y), Square(q.z), Square(q.w);
      var index := Biggest(QuaternionToMatrix(q)).0;
      && (index == 0 <==> w >= x && w >= y && w >= z) && (index == 1 <==> x > w && x >= y && x >= z)
      && (index == 2 <==> y > w && y > x && y >= z) && (index == 3 <==> z > w && z > x && z > y)
  {
    DiagonalSquares(q);
    hide Square, QuaternionToMatrix, NormSquared;
  }

  lemma DiagonalSquares(q: Quaternion)
    ensures var m := QuaternionToMatrix(q);
      && m.m0 == 1.0 - 2.0 * (Square(q.y) + Square(q.z)) && m.m5 == 1.0 - 2.0 * (Square(q.x) + Square(q.z))
      && m.m10 == 1.0 - 2.0 * (Square(q.x) + Square(q.y))
      && NormSquared(q) == Square(q.x) + Square(q.y) + Square(q.z) + Square(q.w)
  {
  }

  lemma BiggestBySquares(mat: Matrix, x2: real, y2: real, z2: real, w2: real)
    requires mat.m0 == 1.0 - 2.0 * (y2 + z2) && mat.m5 == 1.0 - 2.0 * (x2 + z2) && mat.m10 == 1.0 - 2.0 * (x2 + y2)
    requires x2 + y2 + z2 + w2 == 1.0
    ensures var square := match Biggest(mat).0 case 0 => w2 case 1 => x2 case 2 => y2 case _ => z2;
      && Biggest(mat).1 + 1.0 == 4.0 * square && square >= 0.25 && 0 <= Biggest(mat).0 < 4
      && w2 <= square && x2 <= square && y2 <= square && z2 <= square
  {
  }

  lemma SameSquare(a: real, b: real)
    requires a * a == b * b && a >= 0.0
    ensures a == if b >= 0.0 then b else -b
  {
    assert (a - b) * (a + b) == a * a - b * b;
    Product(a - b, a + b);
  }

  function FourTimes(a: real, b: real): real {
    4.0 * (a * b)
  }

  function Scaled(n: real, root: real): real
    requires root > 0.0
  {
    n * (0.25 / (root * 0.5))
  }

  /** A product with the chosen component, divided by it again. */
  lemma Recovered(c: real, root: real, x: real, n: real)
    requires root >= 1.0 && Square(root) == 4.0 * Square(c) && n == FourTimes(c, x)
    ensures Scaled(n, root) == if c >= 0.0 then x else -x
    ensures root * 0.5 == if c >= 0.0 then c else -c
  {
    SameSquare(root, 2.0 * c);
    var mult := 0.25 / (root * 0.5);
    assert mult * (root * 0.5) == 0.25;
    var d := if c >= 0.0 then c else -c;
    assert mult * d == 0.25;
    assert 4.0 * (d * x) * mult == 4.0 * x * (mult * d);
  }

  lemma FromMatrixCases(m: Matrix, root: real)
    requires IsRoot(root, Biggest(m).1 + 1.0)
    ensures root >= 1.0
    ensures QuaternionFromMatrix(m, root) ==
      match Biggest(m).0
      case 0 => Quaternion(Scaled(m.m6 - m.m9, root), Scaled(m.m8 - m.m2, root), Scaled(m.m1 - m.m4, root), root * 0.5)
      case 1 => Quaternion(root * 0.5, Scaled(m.m1 + m.m4, root), Scaled(m.m8 + m.m2, root), Scaled(m.m6 - m.m9, root))
      case 2 => Quaternion(Scaled(m.m1 + m.m4, root), root * 0.5, Scaled(m.m6 + m.m9, root), Scaled(m.m8 - m.m2, root))
      case _ => Quaternion(Scaled(m.m8 + m.m2, root), Scaled(m.m6 + m.m9, root), root * 0.5, Scaled(m.m1 - m.m4, root))
  {
    RootIsPositive(m, root);
  }

  /** A unit quaternion comes back from its matrix, up to its sign: with the chosen component positive. */
  lemma FromToMatrix(q: Quaternion, root: real)
    requires NormSquared(q) == 1.0 && IsRoot(root, Biggest(QuaternionToMatrix(q)).1 + 1.0)
    ensures QuaternionFromMatrix(QuaternionToMatrix(q), root)
            == if Component(q, Biggest(QuaternionToMatrix(q)).0) >= 0.0 then q else Negated(q)
  {
    var m := QuaternionToMatrix(q);
    var index := Biggest(m).0;
    BiggestOfUnit(q);
    FromMatrixCases(m, root);
    assert Square(root) == root * root;
    hide QuaternionToMatrix, Biggest, NormSquared, Square, Scaled, QuaternionFromMatrix, FourTimes, IsRoot;
    Differences(q);
    if index == 0 {
      Recovered(q.w, root, q.x, m.m6 - m.m9);
      Recovered(q.w, root, q.y, m.m8 - m.m2);
      Recovered(q.w, root, q.z, m.m1 - m.m4);
    } else if index == 1 {
      Recovered(q.x, root, q.w, m.m6 - m.m9);
      Recovered(q.x, root, q.y, m.m1 + m.m4);
      Recovered(q.x, root, q.z, m.m8 + m.m2);
    } else if index == 2 {
      Recovered(q.y, root, q.w, m.m8 - m.m2);
      Recovered(q.y, root, q.x, m.m1 + m.m4);
      Recovered(q.y, root, q.z, m.m6 + m.m9);
    } else {
      Recovered(q.z, root, q.w, m.m1 - m.m4);
      Recovered(q.z, root, q.x, m.m8 + m.m2);
      Recovered(q.z, root, q.y, m.m6 + m.m9);
    }
  }

  lemma Differences(q: Quaternion)
    ensures var m := QuaternionToMatrix(q);
      && m.m6 - m.m9 == FourTimes(q.w, q.x) && m.m6 + m.m9 == FourTimes(q.y, q.z)
      && m.m8 - m.m2 == FourTimes(q.w, q.y) && m.m8 + m.m2 == FourTimes(q.x, q.z)
      && m.m1 - m.m4 == FourTimes(q.w, q.z) && m.m1 + m.m4 == FourTimes(q.x, q.y)
    ensures forall a: real, b: real :: FourTimes(a, b) == FourTimes(b, a)
  {
  }

  // ---- What the matrix does ----

  /** For a unit quaternion the matrix rotates like the quaternion. */
  lemma MatrixRotates(v: Vector3, q: Quaternion)
    requires NormSquared(q) == 1.0
    ensures Vector3Transform(v, QuaternionToMatrix(q)) == Vector3RotateByQuaternion(v, q)
  {
  }

  // The coefficients of a rotation: the first of each three; turning x to y, y to z and z to x gives
  // the other two.

  function XX(x: real, y: real, z: real, w: real): real {
    x * x + w * w - y * y - z * z
  }

  function XY(x: real, y: real, z: real, w: real): real {
    2.0 * x * y - 2.0 * w * z
  }

  function XZ(x: real, y: real, z: real, w: real): real {
    2.0 * x * z + 2.0 * w * y
  }

  /** The x component of a rotated vector. */
  function RotatedX(v: Vector3, q: Quaternion): real {
    v.x * XX(q.x, q.y, q.z, q.w) + v.y * XY(q.x, q.y, q.z, q.w) + v.z * XZ(q.x, q.y, q.z, q.w)
  }

  function TurnVector(v: Vector3): Vector3 {
    Vector3(v.y, v.z, v.x)
  }

  function Turn(q: Quaternion): Quaternion {
    Quaternion(q.y, q.z, q.x, q.w)
  }

  /** Rotation treats the three axes alike. */
  lemma RotatedByAxis(v: Vector3, q: Quaternion)
    ensures Vector3RotateByQuaternion(v, q)
            == Vector3(RotatedX(v, q), RotatedX(TurnVector(v), Turn(q)),
                       RotatedX(TurnVector(TurnVector(v)), Turn(Turn(q))))
  {
  }

  function Mul(u: real, v: real): real {
    u * v
  }

  lemma ExpandedXX(a: real, b: real, c: real, d: real, x: real, y: real, z: real, w: real)
    ensures Mul(a * w + d * x + b * z - c * y, a * w + d * x + b * z - c * y)
               + Mul(d * w - a * x - b * y - c * z, d * w - a * x - b * y - c * z)
               - Mul(b * w + d * y + c * x - a * z, b * w + d * y + c * x - a * z)
               - Mul(c * w + d * z + a * y - b * x, c * w + d * z + a * y - b * x)
            == Mul(a * a + d * d - b * b - c * c, x * x + w * w - y * y - z * z)
               + Mul(2.0 * a * b - 2.0 * d * c, 2.0 * y * x + 2.0 * w * z)
               + Mul(2.0 * a * c + 2.0 * d * b, 2.0 * z * x - 2.0 * w * y)
  {
  }

  lemma ProductXX(a: real, b: real, c: real, d: real, x: real, y: real, z: real, w: real, p: real, q: real, r: real,
                  s: real,
                  f1: real, f2: real, f3: real, g1: real, g2: real, g3: real)
    requires p == Mul(a, w) + Mul(d, x) + Mul(b, z) - Mul(c, y) && q == Mul(b, w) + Mul(d, y) + Mul(c, x) - Mul(a, z)
    requires r == Mul(c, w) + Mul(d, z) + Mul(a, y) - Mul(b, x) && s == Mul(d, w) - Mul(a, x) - Mul(b, y) - Mul(c, z)
    requires f1 == Mul(a, a) + Mul(d, d) - Mul(b, b) - Mul(c, c) && f2 == 2.0 * Mul(a, b) - 2.0 * Mul(d, c)
             && f3 == 2.0 * Mul(a, c) + 2.0 * Mul(d, b)
    requires g1 == Mul(x, x) + Mul(w, w) - Mul(y, y) - Mul(z, z) && g2 == 2.0 * Mul(y, x) + 2.0 * Mul(w, z)
             && g3 == 2.0 * Mul(z, x) - 2.0 * Mul(w, y)
    ensures Mul(p, p) + Mul(s, s) - Mul(q, q) - Mul(r, r) == Mul(f1, g1) + Mul(f2, g2) + Mul(f3, g3)
  {
    ExpandedXX(a, b, c, d, x, y, z, w);
    assert p == a * w + d * x + b * z - c * y && s == d * w - a * x - b * y - c * z;
    assert q == b * w + d * y + c * x - a * z && r == c * w + d * z + a * y - b * x;
    assert f1 == a * a + d * d - b * b - c * c && g1 == x * x + w * w - y * y - z * z;
    assert f2 == 2.0 * a * b - 2.0 * d * c && g2 == 2.0 * y * x + 2.0 * w * z;
    assert f3 == 2.0 * a * c + 2.0 * d * b && g3 == 2.0 * z * x - 2.0 * w * y;
    hide Mul;
  }

  lemma ExpandedXY(a: real, b: real, c: real, d: real, x: real, y: real, z: real, w: real)
    ensures 2.0 * Mul(a * w + d * x + b * z - c * y, b * w + d * y + c * x - a * z)
               - 2.0 * Mul(d * w - a * x - b * y - c * z, c * w + d * z + a * y - b * x)
            == Mul(a * a + d * d - b * b - c * c, 2.0 * x * y - 2.0 * w * z)
               + Mul(2.0 * a * b - 2.0 * d * c, y * y + w * w - z * z - x * x)
               + Mul(2.0 * a * c + 2.0 * d * b, 2.0 * z * y + 2.0 * w * x)
  {
  }

  lemma ProductXY(a: real, b: real, c: real, d: real, x: real, y: real, z: real, w: real, p: real, q: real, r: real,
                  s: real,
                  f1: real, f2: real, f3: real, g1: real, g2: real, g3: real)
    requires p == Mul(a, w) + Mul(d, x) + Mul(b, z) - Mul(c, y) && q == Mul(b, w) + Mul(d, y) + Mul(c, x) - Mul(a, z)
    requires r == Mul(c, w) + Mul(d, z) + Mul(a, y) - Mul(b, x) && s == Mul(d, w) - Mul(a, x) - Mul(b, y) - Mul(c, z)
    requires f1 == Mul(a, a) + Mul(d, d) - Mul(b, b) - Mul(c, c) && f2 == 2.0 * Mul(a, b) - 2.0 * Mul(d, c)
             && f3 == 2.0 * Mul(a, c) + 2.0 * Mul(d, b)
    requires g1 == 2.0 * Mul(x, y) - 2.0 * Mul(w, z) && g2 == Mul(y, y) + Mul(w, w) - Mul(z, z) - Mul(x, x)
             && g3 == 2.0 * Mul(z, y) + 2.0 * Mul(w, x)
    ensures 2.0 * Mul(p, q) - 2.0 * Mul(s, r) == Mul(f1, g1) + Mul(f2, g2) + Mul(f3, g3)
  {
    ExpandedXY(a, b, c, d, x, y, z, w);
    assert p == a * w + d * x + b * z - c * y && q == b * w + d * y + c * x - a * z;
    assert s == d * w - a * x - b * y - c * z && r == c * w + d * z + a * y - b * x;
    assert f1 == a * a + d * d - b * b - c * c && g1 == 2.0 * x * y - 2.0 * w * z;
    assert f2 == 2.0 * a * b - 2.0 * d * c && g2 == y * y + w * w - z * z - x * x;
    assert f3 == 2.0 * a * c + 2.0 * d * b && g3 == 2.0 * z * y + 2.0 * w * x;
    hide Mul;
  }

  lemma ExpandedXZ(a: real, b: real, c: real, d: real, x: real, y: real, z: real, w: real)
    ensures 2.0 * Mul(a * w + d * x + b * z - c * y, c * w + d * z + a * y - b * x)
               + 2.0 * Mul(d * w - a * x - b * y - c * z, b * w + d * y + c * x - a * z)
            == Mul(a * a + d * d - b * b - c * c, 2.0 * x * z + 2.0 * w * y)
               + Mul(2.0 * a * b - 2.0 * d * c, 2.0 * y * z - 2.0 * w * x)
               + Mul(2.0 * a * c + 2.0 * d * b, z * z + w * w - x * x - y * y)
  {
  }

  lemma ProductXZ(a: real, b: real, c: real, d: real, x: real, y: real, z: real, w: real, p: real, q: real, r: real,
                  s: real,
                  f1: real, f2: real, f3: real, g1: real, g2: real, g3: real)
    requires p == Mul(a, w) + Mul(d, x) + Mul(b, z) - Mul(c, y) && q == Mul(b, w) + Mul(d, y) + Mul(c, x) - Mul(a, z)
    requires r == Mul(c, w) + Mul(d, z) + Mul(a, y) - Mul(b, x) && s == Mul(d, w) - Mul(a, x) - Mul(b, y) - Mul(c, z)
    requires f1 == Mul(a, a) + Mul(d, d) - Mul(b, b) - Mul(c, c) && f2 == 2.0 * Mul(a, b) - 2.0 * Mul(d, c)
             && f3 == 2.0 * Mul(a, c) + 2.0 * Mul(d, b)
    requires g1 == 2.0 * Mul(x, z) + 2.0 * Mul(w, y) && g2 == 2.0 * Mul(y, z) - 2.0 * Mul(w, x)
             && g3 == Mul(z, z) + Mul(w, w) - Mul(x, x) - Mul(y, y)
    ensures 2.0 * Mul(p, r) + 2.0 * Mul(s, q) == Mul(f1, g1) + Mul(f2, g2) + Mul(f3, g3)
  {
    ExpandedXZ(a, b, c, d, x, y, z, w);
    assert p == a * w + d * x + b * z - c * y && r == c * w + d * z + a * y - b * x;
    assert s == d * w - a * x - b * y - c * z && q == b * w + d * y + c * x - a * z;
    assert f1 == a * a + d * d - b * b - c * c && g1 == 2.0 * x * z + 2.0 * w * y;
    assert f2 == 2.0 * a * b - 2.0 * d * c && g2 == 2.0 * y * z - 2.0 * w * x;
    assert f3 == 2.0 * a * c + 2.0 * d * b && g3 == z * z + w * w - x * x - y * y;
    hide Mul;
  }

  lemma MulCommutes()
    ensures forall a: real, b: real :: Mul(a, b) == Mul(b, a)
  {
  }

  lemma ByMul(x: real, y: real, z: real, w: real)
    ensures XX(x, y, z, w) == Mul(x, x) + Mul(w, w) - Mul(y, y) - Mul(z, z)
    ensures XY(x, y, z, w) == 2.0 * Mul(x, y) - 2.0 * Mul(w, z)
    ensures XZ(x, y, z, w) == 2.0 * Mul(x, z) + 2.0 * Mul(w, y)
  {
  }

  lemma MultiplyByMul(q1: Quaternion, q2: Quaternion)
    ensures QuaternionMultiply(q1, q2) ==
      Quaternion(Mul(q1.x, q2.w) + Mul(q1.w, q2.x) + Mul(q1.y, q2.z) - Mul(q1.z, q2.y),
                 Mul(q1.y, q2.w) + Mul(q1.w, q2.y) + Mul(q1.z, q2.x) - Mul(q1.x, q2.z),
                 Mul(q1.z, q2.w) + Mul(q1.w, q2.z) + Mul(q1.x, q2.y) - Mul(q1.y, q2.x),
                 Mul(q1.w, q2.w) - Mul(q1.x, q2.x) - Mul(q1.y, q2.y) - Mul(q1.z, q2.z))
  {
  }

  lemma MultiplyTurns(q1: Quaternion, q2: Quaternion)
    ensures QuaternionMultiply(Turn(q1), Turn(q2)) == Turn(QuaternionMultiply(q1, q2))
  {
    hide Mul, QuaternionMultiply;
    MultiplyByMul(q1, q2);
    MultiplyByMul(Turn(q1), Turn(q2));
  }

  /** The first row of the coefficients of a product is that of the product of the matrices. */
  lemma FirstRowXX(q1: Quaternion, q2: Quaternion)
    ensures var q := QuaternionMultiply(q1, q2);
      XX(q.x, q.y, q.z, q.w)
      == Mul(XX(q1.x, q1.y, q1.z, q1.w), XX(q2.x, q2.y, q2.z, q2.w))
        + Mul(XY(q1.x, q1.y, q1.z, q1.w), XZ(q2.y, q2.z, q2.x, q2.w))
         + Mul(XZ(q1.x, q1.y, q1.z, q1.w), XY(q2.z, q2.x, q2.y, q2.w))
  {
    var q := QuaternionMultiply(q1, q2);
    var a, b, c, d, x, y, z, w := q1.x, q1.y, q1.z, q1.w, q2.x, q2.y, q2.z, q2.w;
    MultiplyByMul(q1, q2);
    ByMul(q.x, q.y, q.z, q.w);
    ByMul(a, b, c, d);
    ByMul(x, y, z, w);
    ByMul(y, z, x, w);
    ByMul(z, x, y, w);
    MulCommutes();
    hide Mul, XX, XY, XZ, QuaternionMultiply;
    ProductXX(a, b, c, d, x, y, z, w, q.x, q.y, q.z, q.w, XX(a, b, c, d), XY(a, b, c, d), XZ(a, b, c, d),
              XX(x, y, z, w), XZ(y, z, x, w), XY(z, x, y, w));
  }

  lemma FirstRowXY(q1: Quaternion, q2: Quaternion)
    ensures var q := QuaternionMultiply(q1, q2);
      XY(q.x, q.y, q.z, q.w)
      == Mul(XX(q1.x, q1.y, q1.z, q1.w), XY(q2.x, q2.y, q2.z, q2.w))
        + Mul(XY(q1.x, q1.y, q1.z, q1.w), XX(q2.y, q2.z, q2.x, q2.w))
         + Mul(XZ(q1.x, q1.y, q1.z, q1.w), XZ(q2.z, q2.x, q2.y, q2.w))
  {
    var q := QuaternionMultiply(q1, q2);
    var a, b, c, d, x, y, z, w := q1.x, q1.y, q1.z, q1.w, q2.x, q2.y, q2.z, q2.w;
    MultiplyByMul(q1, q2);
    ByMul(q.x, q.y, q.z, q.w);
    ByMul(a, b, c, d);
    ByMul(x, y, z, w);
    ByMul(y, z, x, w);
    ByMul(z, x, y, w);
    MulCommutes();
    hide Mul, XX, XY, XZ, QuaternionMultiply;
    ProductXY(a, b, c, d, x, y, z, w, q.x, q.y, q.z, q.w, XX(a, b, c, d), XY(a, b, c, d), XZ(a, b, c, d),
              XY(x, y, z, w), XX(y, z, x, w), XZ(z, x, y, w));
  }

  lemma FirstRowXZ(q1: Quaternion, q2: Quaternion)
    ensures var q := QuaternionMultiply(q1, q2);
      XZ(q.x, q.y, q.z, q.w)
      == Mul(XX(q1.x, q1.y, q1.z, q1.w), XZ(q2.x, q2.y, q2.z, q2.w))
        + Mul(XY(q1.x, q1.y, q1.z, q1.w), XY(q2.y, q2.z, q2.x, q2.w))
         + Mul(XZ(q1.x, q1.y, q1.z, q1.w), XX(q2.z, q2.x, q2.y, q2.w))
  {
    var q := QuaternionMultiply(q1, q2);
    var a, b, c, d, x, y, z, w := q1.x, q1.y, q1.z, q1.w, q2.x, q2.y, q2.z, q2.w;
    MultiplyByMul(q1, q2);
    ByMul(q.x, q.y, q.z, q.w);
    ByMul(a, b, c, d);
    ByMul(x, y, z, w);
    ByMul(y, z, x, w);
    ByMul(z, x, y, w);
    MulCommutes();
    hide Mul, XX, XY, XZ, QuaternionMultiply;
    ProductXZ(a, b, c, d, x, y, z, w, q.x, q.y, q.z, q.w, XX(a, b, c, d), XY(a, b, c, d), XZ(a, b, c, d),
              XZ(x, y, z, w), XY(y, z, x, w), XX(z, x, y, w));
  }

  /** Two linear maps in turn: u is the image of (x, y, z) under b, and c the product of a and b. */
  lemma InTurn(x: real, y: real, z: real, a1: real, a2: real, a3: real, b1: real, b2: real, b3: real, b4: real,
               b5: real, b6: real,
               b7: real, b8: real, b9: real, u1: real, u2: real, u3: real, c1: real, c2: real, c3: real)
    requires u1 == Mul(x, b1) + Mul(y, b2) + Mul(z, b3) && u2 == Mul(x, b4) + Mul(y, b5) + Mul(z, b6)
    requires u3 == Mul(x, b7) + Mul(y, b8) + Mul(z, b9)
    requires c1 == Mul(a1, b1) + Mul(a2, b4) + Mul(a3, b7) && c2 == Mul(a1, b2) + Mul(a2, b5) + Mul(a3, b8)
    requires c3 == Mul(a1, b3) + Mul(a2, b6) + Mul(a3, b9)
    ensures Mul(u1, a1) + Mul(u2, a2) + Mul(u3, a3) == Mul(x, c1) + Mul(y, c2) + Mul(z, c3)
  {
  }

  lemma RotatedByMul(v: Vector3, q: Quaternion)
    ensures RotatedX(v, q)
            == Mul(v.x, XX(q.x, q.y, q.z, q.w)) + Mul(v.y, XY(q.x, q.y, q.z, q.w)) + Mul(v.z, XZ(q.x, q.y, q.z, q.w))
  {
  }

  lemma RotationsComposeX(v: Vector3, q1: Quaternion, q2: Quaternion)
    ensures RotatedX(Vector3RotateByQuaternion(v, q2), q1) == RotatedX(v, QuaternionMultiply(q1, q2))
  {
    var u, q := Vector3RotateByQuaternion(v, q2), QuaternionMultiply(q1, q2);
    var a, b, c, d, x, y, z, w := q1.x, q1.y, q1.z, q1.w, q2.x, q2.y, q2.z, q2.w;
    hide Mul, XX, XY, XZ, RotatedX, QuaternionMultiply, Vector3RotateByQuaternion;
    FirstRowXX(q1, q2);
    FirstRowXY(q1, q2);
    FirstRowXZ(q1, q2);
    RotatedByAxis(v, q2);
    RotatedByMul(v, q2);
    RotatedByMul(TurnVector(v), Turn(q2));
    RotatedByMul(TurnVector(TurnVector(v)), Turn(Turn(q2)));
    InTurn(v.x, v.y, v.z, XX(a, b, c, d), XY(a, b, c, d), XZ(a, b, c, d),
           XX(x, y, z, w), XY(x, y, z, w), XZ(x, y, z, w), XZ(y, z, x, w), XX(y, z, x, w), XY(y, z, x, w),
           XY(z, x, y, w), XZ(z, x, y, w), XX(z, x, y, w), u.x, u.y, u.z,
           XX(q.x, q.y, q.z, q.w), XY(q.x, q.y, q.z, q.w), XZ(q.x, q.y, q.z, q.w));
    RotatedByMul(u, q1);
    RotatedByMul(v, q);
  }

  /** Rotating by q2 and then by q1 is rotating by their product. */
  lemma RotationsCompose(v: Vector3, q1: Quaternion, q2: Quaternion)
    ensures Vector3RotateByQuaternion(Vector3RotateByQuaternion(v, q2), q1)
            == Vector3RotateByQuaternion(v, QuaternionMultiply(q1, q2))
  {
    hide Vector3RotateByQuaternion, QuaternionMultiply, RotatedX;
    RotatedByAxis(v, q2);
    RotatedByAxis(TurnVector(v), Turn(q2));
    RotatedByAxis(TurnVector(TurnVector(v)), Turn(Turn(q2)));
    RotatedByAxis(Vector3RotateByQuaternion(v, q2), q1);
    RotatedByAxis(v, QuaternionMultiply(q1, q2));
    MultiplyTurns(q1, q2);
    MultiplyTurns(Turn(q1), Turn(q2));
    RotationsComposeX(v, q1, q2);
    RotationsComposeX(TurnVector(v), Turn(q1), Turn(q2));
    RotationsComposeX(TurnVector(TurnVector(v)), Turn(Turn(q1)), Turn(Turn(q2)));
  }

  /** The product of unit quaternions is one. */
  lemma NormMultiplies(q1: Quaternion, q2: Quaternion)
    ensures NormSquared(QuaternionMultiply(q1, q2)) == NormSquared(q1) * NormSquared(q2)
  {
    var q := QuaternionMultiply(q1, q2);
    NormByMul(q1);
    NormByMul(q2);
    NormByMul(q);
    MultiplyByMul(q1, q2);
    assert NormSquared(q1) * NormSquared(q2) == Mul(NormSquared(q1), NormSquared(q2));
    hide NormSquared, Mul, QuaternionMultiply;
    ProductNorm(q1.x, q1.y, q1.z, q1.w, q2.x, q2.y, q2.z, q2.w, q.x, q.y, q.z, q.w, NormSquared(q1), NormSquared(q2));
  }

  lemma NormByMul(q: Quaternion)
    ensures NormSquared(q) == Mul(q.x, q.x) + Mul(q.y, q.y) + Mul(q.z, q.z) + Mul(q.w, q.w)
  {
  }

  lemma ProductNorm(a: real, b: real, c: real, d: real, x: real, y: real, z: real, w: real, p: real, q: real, r: real,
                    s: real,
                    n1: real, n2: real)
    requires p == Mul(a, w) + Mul(d, x) + Mul(b, z) - Mul(c, y) && q == Mul(b, w) + Mul(d, y) + Mul(c, x) - Mul(a, z)
    requires r == Mul(c, w) + Mul(d, z) + Mul(a, y) - Mul(b, x) && s == Mul(d, w) - Mul(a, x) - Mul(b, y) - Mul(c, z)
    requires n1 == Mul(a, a) + Mul(b, b) + Mul(c, c) + Mul(d, d) && n2 == Mul(x, x) + Mul(y, y) + Mul(z, z) + Mul(w, w)
    ensures Mul(p, p) + Mul(q, q) + Mul(r, r) + Mul(s, s) == Mul(n1, n2)
  {
  }

  // ---- From a rotation matrix to its quaternion and back ----

  /** The columns x and y are of length one and at right angles, and z is their cross product: a
      right-handed set of axes. The second letter names the column. */
  predicate AreAxes(xx: real, yx: real, zx: real, xy: real, yy: real, zy: real, xz: real, yz: real, zz: real) {
    && Mul(xx, xx) + Mul(yx, yx) + Mul(zx, zx) == 1.0 && Mul(xy, xy) + Mul(yy, yy) + Mul(zy, zy) == 1.0
    && Mul(xx, xy) + Mul(yx, yy) + Mul(zx, zy) == 0.0
    && xz == Mul(yx, zy) - Mul(zx, yy) && yz == Mul(zx, xy) - Mul(xx, zy) && zz == Mul(xx, yy) - Mul(yx, xy)
  }

  predicate IsRotation(m: Matrix) {
    && AreAxes(m.m0, m.m1, m.m2, m.m4, m.m5, m.m6, m.m8, m.m9, m.m10)
    && m.m12 == m.m13 == m.m14 == m.m3 == m.m7 == m.m11 == 0.0 && m.m15 == 1.0
  }

  /** With c = a x e for unit vectors at right angles, e = c x a and a = e x c, one component each. */
  lemma CrossBack(ax: real, ay: real, az: real, ex: real, ey: real, ez: real, cy: real, cz: real)
    requires Mul(ax, ax) + Mul(ay, ay) + Mul(az, az) == 1.0 && Mul(ex, ex) + Mul(ey, ey) + Mul(ez, ez) == 1.0
    requires Mul(ax, ex) + Mul(ay, ey) + Mul(az, ez) == 0.0
    requires cy == Mul(az, ex) - Mul(ax, ez) && cz == Mul(ax, ey) - Mul(ay, ex)
    ensures ex == Mul(cy, az) - Mul(cz, ay) && ax == Mul(ey, cz) - Mul(ez, cy)
  {
  }

  /** The rows are of length one as well. */
  lemma RowUnit(ax: real, ay: real, az: real, ex: real, ey: real, ez: real, cx: real)
    requires Mul(ax, ax) + Mul(ay, ay) + Mul(az, az) == 1.0 && Mul(ex, ex) + Mul(ey, ey) + Mul(ez, ez) == 1.0
    requires Mul(ax, ex) + Mul(ay, ey) + Mul(az, ez) == 0.0
    requires cx == Mul(ay, ez) - Mul(az, ey)
    ensures Mul(ax, ax) + Mul(ex, ex) + Mul(cx, cx) == 1.0
  {
  }

  /** And at right angles. */
  lemma RowsOrthogonal(ax: real, ay: real, az: real, ex: real, ey: real, ez: real, cx: real, cy: real)
    requires Mul(ax, ax) + Mul(ay, ay) + Mul(az, az) == 1.0 && Mul(ex, ex) + Mul(ey, ey) + Mul(ez, ez) == 1.0
    requires Mul(ax, ex) + Mul(ay, ey) + Mul(az, ez) == 0.0
    requires cx == Mul(ay, ez) - Mul(az, ey) && cy == Mul(az, ex) - Mul(ax, ez)
    ensures Mul(ax, ay) + Mul(ex, ey) + Mul(cx, cy) == 0.0
  {
  }

  /** The cross product is of length one. */
  lemma CrossUnit(ax: real, ay: real, az: real, ex: real, ey: real, ez: real, cx: real, cy: real, cz: real)
    requires Mul(ax, ax) + Mul(ay, ay) + Mul(az, az) == 1.0 && Mul(ex, ex) + Mul(ey, ey) + Mul(ez, ez) == 1.0
    requires Mul(ax, ex) + Mul(ay, ey) + Mul(az, ez) == 0.0
    requires cx == Mul(ay, ez) - Mul(az, ey) && cy == Mul(az, ex) - Mul(ax, ez) && cz == Mul(ax, ey) - Mul(ay, ex)
    ensures Mul(cx, cx) + Mul(cy, cy) + Mul(cz, cz) == 1.0
  {
  }

  lemma CrossOrthogonal(ax: real, ay: real, az: real, ex: real, ey: real, ez: real, cx: real, cy: real, cz: real)
    requires cx == Mul(ay, ez) - Mul(az, ey) && cy == Mul(az, ex) - Mul(ax, ez) && cz == Mul(ax, ey) - Mul(ay, ex)
    ensures Mul(ex, cx) + Mul(ey, cy) + Mul(ez, cz) == 0.0
  {
  }

  /** Axes stay axes when x, y and z take turns. */
  lemma AxesTurn(xx: real, yx: real, zx: real, xy: real, yy: real, zy: real, xz: real, yz: real, zz: real)
    requires AreAxes(xx, yx, zx, xy, yy, zy, xz, yz, zz)
    ensures AreAxes(yy, zy, xy, yz, zz, xz, yx, zx, xx)
  {
    MulCommutes();
    hide Mul;
    CrossUnit(xx, yx, zx, xy, yy, zy, xz, yz, zz);
    CrossOrthogonal(xx, yx, zx, xy, yy, zy, xz, yz, zz);
    CrossBack(xx, yx, zx, xy, yy, zy, yz, zz);
    CrossBack(yx, zx, xx, yy, zy, xy, zz, xz);
    CrossBack(zx, xx, yx, zy, xy, yy, xz, yz);
  }

  lemma DiagonalIdentity(xx: real, yx: real, zx: real, xy: real, yy: real, xz: real, zz: real, v: real, w: real,
                         t: real)
    requires Mul(xx, xx) + Mul(yx, yx) + Mul(zx, zx) == 1.0 && Mul(xx, xx) + Mul(xy, xy) + Mul(xz, xz) == 1.0
    requires yy == Mul(zz, xx) - Mul(xz, zx) && zz == Mul(xx, yy) - Mul(yx, xy)
    requires v == xz - zx && w == yx - xy && t == 1.0 + xx + yy + zz
    ensures Mul(v, v) + Mul(w, w) == 2.0 * Mul(t, 1.0 - xx)
  {
  }

  lemma MixedIdentity(xx: real, yx: real, zx: real, xy: real, yy: real, zy: real, xz: real, yz: real, zz: real,
                      u: real, v: real, t: real)
    requires Mul(xx, xy) + Mul(yx, yy) + Mul(zx, zy) == 0.0 && Mul(xx, yx) + Mul(xy, yy) + Mul(xz, yz) == 0.0
    requires xy == Mul(yz, zx) - Mul(zz, yx) && yx == Mul(zy, xz) - Mul(xy, zz)
    requires u == zy - yz && v == xz - zx && t == 1.0 + xx + yy + zz
    ensures Mul(u, v) == Mul(t, yx + xy)
  {
  }

  /** What ties the off-diagonal entries of a rotation to its trace. */
  lemma AxesIdentities(xx: real, yx: real, zx: real, xy: real, yy: real, zy: real, xz: real, yz: real, zz: real)
    requires AreAxes(xx, yx, zx, xy, yy, zy, xz, yz, zz)
    ensures var u, v, w, t := zy - yz, xz - zx, yx - xy, 1.0 + xx + yy + zz;
      Mul(v, v) + Mul(w, w) == 2.0 * Mul(t, 1.0 - xx) && Mul(u, v) == Mul(t, yx + xy)
  {
    MulCommutes();
    hide Mul;
    RowUnit(xx, yx, zx, xy, yy, zy, xz);
    RowsOrthogonal(xx, yx, zx, xy, yy, zy, xz, yz);
    CrossBack(xx, yx, zx, xy, yy, zy, yz, zz);
    CrossBack(yx, zx, xx, yy, zy, xy, zz, xz);
    DiagonalIdentity(xx, yx, zx, xy, yy, xz, zz, xz - zx, yx - xy, 1.0 + xx + yy + zz);
    MixedIdentity(xx, yx, zx, xy, yy, zy, xz, yz, zz, zy - yz, xz - zx, 1.0 + xx + yy + zz);
  }

  // A quaternion read off a matrix: h is one over four times the component chosen, so that h squared
  // times the number under the root is a quarter.

  lemma HalfSquare(root: real, h: real, t: real)
    requires root > 0.0 && Mul(root, root) == t && h == Scaled(1.0, root)
    ensures Mul(h, root) == 0.5 && Mul(Mul(h, h), t) == 0.25
  {
  }

  lemma DiagonalBack(v: real, w: real, h: real, t: real, d: real, y: real, z: real)
    requires y == Mul(v, h) && z == Mul(w, h) && Mul(v, v) + Mul(w, w) == 2.0 * Mul(t, d) && Mul(Mul(h, h), t) == 0.25
    ensures 2.0 * (Mul(y, y) + Mul(z, z)) == d
  {
  }

  lemma MixedBack(u: real, v: real, h: real, t: real, e: real, x: real, y: real)
    requires x == Mul(u, h) && y == Mul(v, h) && Mul(u, v) == Mul(t, e) && Mul(Mul(h, h), t) == 0.25
    ensures 4.0 * Mul(x, y) == e
  {
  }

  lemma WithChosen(root: real, h: real, u: real, x: real)
    requires Mul(h, root) == 0.5 && x == Mul(u, h)
    ensures 4.0 * Mul(root * 0.5, x) == u
  {
  }

  function ByProducts(q: Quaternion): Matrix {
    Matrix(
      1.0 - 2.0 * (Mul(q.y, q.y) + Mul(q.z, q.z)), 2.0 * (Mul(q.x, q.y) - Mul(q.w, q.z)),
        2.0 * (Mul(q.x, q.z) + Mul(q.w, q.y)), 0.0,
      2.0 * (Mul(q.x, q.y) + Mul(q.w, q.z)), 1.0 - 2.0 * (Mul(q.x, q.x) + Mul(q.z, q.z)),
        2.0 * (Mul(q.y, q.z) - Mul(q.w, q.x)), 0.0,
      2.0 * (Mul(q.x, q.z) - Mul(q.w, q.y)), 2.0 * (Mul(q.y, q.z) + Mul(q.w, q.x)),
        1.0 - 2.0 * (Mul(q.x, q.x) + Mul(q.y, q.y)), 0.0,
      0.0, 0.0, 0.0, 1.0)
  }

  lemma ToMatrixByMul(q: Quaternion)
    ensures QuaternionToMatrix(q) == ByProducts(q)
  {
  }

  /** The branch for w: the quaternion is of length one and its matrix is the one it was read off. */
  lemma BranchW(m: Matrix, root: real, q: Quaternion)
    requires IsRotation(m) && root > 0.0 && Mul(root, root) == 1.0 + m.m0 + m.m5 + m.m10
    requires q == Quaternion(Scaled(m.m6 - m.m9, root), Scaled(m.m8 - m.m2, root), Scaled(m.m1 - m.m4, root),
                             root * 0.5)
    ensures QuaternionToMatrix(q) == m && NormSquared(q) == 1.0
  {
    var u, v, w, t, h := m.m6 - m.m9, m.m8 - m.m2, m.m1 - m.m4, 1.0 + m.m0 + m.m5 + m.m10, Scaled(1.0, root);
    ScaledByMul(u, root);
    ScaledByMul(v, root);
    ScaledByMul(w, root);
    SquareOfHalf(root);
    MulCommutes();
    NormByMul(q);
    hide Mul, Scaled, QuaternionToMatrix, NormSquared, AreAxes;
    AxesTurn(m.m0, m.m1, m.m2, m.m4, m.m5, m.m6, m.m8, m.m9, m.m10);
    AxesTurn(m.m5, m.m6, m.m4, m.m9, m.m10, m.m8, m.m1, m.m2, m.m0);
    AxesIdentities(m.m0, m.m1, m.m2, m.m4, m.m5, m.m6, m.m8, m.m9, m.m10);
    AxesIdentities(m.m5, m.m6, m.m4, m.m9, m.m10, m.m8, m.m1, m.m2, m.m0);
    AxesIdentities(m.m10, m.m8, m.m9, m.m2, m.m0, m.m1, m.m6, m.m4, m.m5);
    HalfSquare(root, h, t);
    DiagonalBack(v, w, h, t, 1.0 - m.m0, q.y, q.z);
    DiagonalBack(w, u, h, t, 1.0 - m.m5, q.z, q.x);
    DiagonalBack(u, v, h, t, 1.0 - m.m10, q.x, q.y);
    MixedBack(u, v, h, t, m.m1 + m.m4, q.x, q.y);
    MixedBack(v, w, h, t, m.m6 + m.m9, q.y, q.z);
    MixedBack(w, u, h, t, m.m8 + m.m2, q.z, q.x);
    WithChosen(root, h, u, q.x);
    WithChosen(root, h, v, q.y);
    WithChosen(root, h, w, q.z);
    ToMatrixByMul(q);
  }

  lemma ScaledByMul(n: real, root: real)
    requires root > 0.0
    ensures Scaled(n, root) == Mul(n, Scaled(1.0, root))
  {
  }

  lemma SquareOfHalf(root: real)
    ensures 4.0 * Mul(root * 0.5, root * 0.5) == Mul(root, root)
  {
  }

  // The other branches are that of w for the matrix with two of its columns negated.

  lemma NegatedColumns(xx: real, yx: real, zx: real, xy: real, yy: real, zy: real, xz: real, yz: real, zz: real)
    requires AreAxes(xx, yx, zx, xy, yy, zy, xz, yz, zz)
    ensures AreAxes(xx, yx, zx, -xy, -yy, -zy, -xz, -yz, -zz)
    ensures AreAxes(-xx, -yx, -zx, xy, yy, zy, -xz, -yz, -zz)
    ensures AreAxes(-xx, -yx, -zx, -xy, -yy, -zy, xz, yz, zz)
  {
  }

  lemma BranchX(m: Matrix, root: real, q: Quaternion)
    requires IsRotation(m) && root > 0.0 && Mul(root, root) == 1.0 + m.m0 - m.m5 - m.m10
    requires q == Quaternion(root * 0.5, Scaled(m.m1 + m.m4, root), Scaled(m.m8 + m.m2, root),
                             Scaled(m.m6 - m.m9, root))
    ensures QuaternionToMatrix(q) == m && NormSquared(q) == 1.0
  {
    NegatedColumns(m.m0, m.m1, m.m2, m.m4, m.m5, m.m6, m.m8, m.m9, m.m10);
    ScaledNegates(m.m6 - m.m9, root);
    ScaledNegates(m.m8 + m.m2, root);
    hide Mul, Scaled, QuaternionToMatrix, AreAxes, NormSquared;
    var p := Quaternion(-q.w, -q.z, q.y, q.x);
    BranchW(m.(m4 := -m.m4, m5 := -m.m5, m6 := -m.m6, m8 := -m.m8, m9 := -m.m9, m10 := -m.m10), root, p);
    TwoNegated(q.w, q.z, q.y, q.x);
    SameProducts(p, q);
  }

  lemma BranchY(m: Matrix, root: real, q: Quaternion)
    requires IsRotation(m) && root > 0.0 && Mul(root, root) == 1.0 + m.m5 - m.m0 - m.m10
    requires q == Quaternion(Scaled(m.m1 + m.m4, root), root * 0.5, Scaled(m.m6 + m.m9, root),
                             Scaled(m.m8 - m.m2, root))
    ensures QuaternionToMatrix(q) == m && NormSquared(q) == 1.0
  {
    NegatedColumns(m.m0, m.m1, m.m2, m.m4, m.m5, m.m6, m.m8, m.m9, m.m10);
    ScaledNegates(m.m8 - m.m2, root);
    ScaledNegates(m.m1 + m.m4, root);
    hide Mul, Scaled, QuaternionToMatrix, AreAxes, NormSquared;
    var p := Quaternion(q.z, -q.w, -q.x, q.y);
    BranchW(m.(m0 := -m.m0, m1 := -m.m1, m2 := -m.m2, m8 := -m.m8, m9 := -m.m9, m10 := -m.m10), root, p);
    TwoNegated(q.w, q.x, q.z, q.y);
    SameProducts(p, q);
  }

  lemma BranchZ(m: Matrix, root: real, q: Quaternion)
    requires IsRotation(m) && root > 0.0 && Mul(root, root) == 1.0 + m.m10 - m.m0 - m.m5
    requires q == Quaternion(Scaled(m.m8 + m.m2, root), Scaled(m.m6 + m.m9, root), root * 0.5,
                             Scaled(m.m1 - m.m4, root))
    ensures QuaternionToMatrix(q) == m && NormSquared(q) == 1.0
  {
    NegatedColumns(m.m0, m.m1, m.m2, m.m4, m.m5, m.m6, m.m8, m.m9, m.m10);
    ScaledNegates(m.m6 + m.m9, root);
    ScaledNegates(m.m1 - m.m4, root);
    hide Mul, Scaled, QuaternionToMatrix, AreAxes, NormSquared;
    var p := Quaternion(-q.y, q.x, -q.w, q.z);
    BranchW(m.(m0 := -m.m0, m1 := -m.m1, m2 := -m.m2, m4 := -m.m4, m5 := -m.m5, m6 := -m.m6), root, p);
    TwoNegated(q.y, q.w, q.x, q.z);
    SameProducts(p, q);
  }

  lemma TwoNegated(a: real, b: real, c: real, d: real)
    ensures Mul(-a, -a) == Mul(a, a) && Mul(-b, -b) == Mul(b, b) && Mul(-a, -b) == Mul(a, b) && Mul(-b, -a) == Mul(a, b)
    ensures Mul(-a, c) == Mul(c, -a) == -Mul(a, c) && Mul(-a, d) == Mul(d, -a) == -Mul(a, d)
    ensures Mul(-b, c) == Mul(c, -b) == -Mul(b, c) && Mul(-b, d) == Mul(d, -b) == -Mul(b, d)
  {
  }

  /** Both matrices and both lengths, by products. */
  lemma SameProducts(p: Quaternion, q: Quaternion)
    ensures forall a: real, b: real :: Mul(a, b) == Mul(b, a)
    ensures NormSquared(p) == Mul(p.x, p.x) + Mul(p.y, p.y) + Mul(p.z, p.z) + Mul(p.w, p.w)
    ensures NormSquared(q) == Mul(q.x, q.x) + Mul(q.y, q.y) + Mul(q.z, q.z) + Mul(q.w, q.w)
    ensures QuaternionToMatrix(p) == ByProducts(p) && QuaternionToMatrix(q) == ByProducts(q)
  {
    MulCommutes();
    NormByMul(p);
    NormByMul(q);
    ToMatrixByMul(p);
    ToMatrixByMul(q);
  }

  /** For every rotation matrix, whichever branch is taken, the quaternion is of length one and its
      matrix is the given one. */
  lemma ToFromMatrix(m: Matrix, root: real)
    requires IsRotation(m) && IsRoot(root, Biggest(m).1 + 1.0)
    ensures QuaternionToMatrix(QuaternionFromMatrix(m, root)) == m
    ensures NormSquared(QuaternionFromMatrix(m, root)) == 1.0
  {
    FromMatrixCases(m, root);
    assert Mul(root, root) == root * root;
    var q := QuaternionFromMatrix(m, root);
    hide Mul, Scaled, QuaternionToMatrix, QuaternionFromMatrix, AreAxes, NormSquared;
    match Biggest(m).0
    case 0 => BranchW(m, root, q);
    case 1 => BranchX(m, root, q);
    case 2 => BranchY(m, root, q);
    case _ => BranchZ(m, root, q);
  }

  lemma ScaledNegates(n: real, root: real)
    requires root > 0.0
    ensures Scaled(-n, root) == -Scaled(n, root)
  {
  }

  // The matrix of a unit quaternion is a rotation, so that the two functions above invert each other
  // between unit quaternions up to sign and rotation matrices.

  lemma UnitColumn(x: real, y: real, z: real, w: real, xx: real, yx: real, zx: real)
    requires Mul(x, x) + Mul(y, y) + Mul(z, z) + Mul(w, w) == 1.0
    requires xx == 1.0 - 2.0 * (Mul(y, y) + Mul(z, z)) && yx == 2.0 * (Mul(x, y) + Mul(w, z))
             && zx == 2.0 * (Mul(x, z) - Mul(w, y))
    ensures Mul(xx, xx) + Mul(yx, yx) + Mul(zx, zx) == 1.0
  {
  }

  lemma ColumnsOrthogonal(x: real, y: real, z: real, w: real, xx: real, yx: real, zx: real, xy: real, yy: real,
                          zy: real)
    requires Mul(x, x) + Mul(y, y) + Mul(z, z) + Mul(w, w) == 1.0
    requires xx == 1.0 - 2.0 * (Mul(y, y) + Mul(z, z)) && yx == 2.0 * (Mul(x, y) + Mul(w, z))
             && zx == 2.0 * (Mul(x, z) - Mul(w, y))
    requires xy == 2.0 * (Mul(x, y) - Mul(w, z)) && yy == 1.0 - 2.0 * (Mul(x, x) + Mul(z, z))
             && zy == 2.0 * (Mul(y, z) + Mul(w, x))
    ensures Mul(xx, xy) + Mul(yx, yy) + Mul(zx, zy) == 0.0
  {
  }

  lemma ThirdExpanded(x: real, y: real, z: real, w: real)
    ensures Mul(2.0 * (x * y + w * z), 2.0 * (y * z + w * x)) - Mul(2.0 * (x * z - w * y), 1.0 - 2.0 * (x * x + z * z))
            == 2.0 * (w * y) - 2.0 * (x * z) + 4.0 * Mul(x * z, x * x + y * y + z * z + w * w)
    ensures Mul(2.0 * (x * z - w * y), 2.0 * (x * y - w * z)) - Mul(1.0 - 2.0 * (y * y + z * z), 2.0 * (y * z + w * x))
            == -2.0 * (y * z) - 2.0 * (w * x) + 4.0 * Mul(y * z, x * x + y * y + z * z + w * w)
    ensures Mul(1.0 - 2.0 * (y * y + z * z), 1.0 - 2.0 * (x * x + z * z)) - Mul(2.0 * (x * y + w * z),
            2.0 * (x * y - w * z))
            == 1.0 - 2.0 * (x * x) - 2.0 * (y * y) - 4.0 * (z * z) + 4.0 * Mul(z * z, x * x + y * y + z * z + w * w)
  {
  }

  lemma ThirdColumn(x: real, y: real, z: real, w: real, xx: real, yx: real, zx: real, xy: real, yy: real, zy: real)
    requires Mul(x, x) + Mul(y, y) + Mul(z, z) + Mul(w, w) == 1.0
    requires xx == 1.0 - 2.0 * (Mul(y, y) + Mul(z, z)) && yx == 2.0 * (Mul(x, y) + Mul(w, z))
             && zx == 2.0 * (Mul(x, z) - Mul(w, y))
    requires xy == 2.0 * (Mul(x, y) - Mul(w, z)) && yy == 1.0 - 2.0 * (Mul(x, x) + Mul(z, z))
             && zy == 2.0 * (Mul(y, z) + Mul(w, x))
    ensures 2.0 * (Mul(x, z) + Mul(w, y)) == Mul(yx, zy) - Mul(zx, yy)
    ensures 2.0 * (Mul(y, z) - Mul(w, x)) == Mul(zx, xy) - Mul(xx, zy)
    ensures 1.0 - 2.0 * (Mul(x, x) + Mul(y, y)) == Mul(xx, yy) - Mul(yx, xy)
  {
    ThirdExpanded(x, y, z, w);
    assert x * x + y * y + z * z + w * w == 1.0;
    assert xx == 1.0 - 2.0 * (y * y + z * z) && yx == 2.0 * (x * y + w * z) && zx == 2.0 * (x * z - w * y);
    assert xy == 2.0 * (x * y - w * z) && yy == 1.0 - 2.0 * (x * x + z * z) && zy == 2.0 * (y * z + w * x);
    assert Mul(x * z, 1.0) == x * z == Mul(x, z) && Mul(y * z, 1.0) == y * z == Mul(y, z) && Mul(z * z, 1.0) == z * z;
    assert Mul(w, y) == w * y && Mul(w, x) == w * x && Mul(x, x) == x * x && Mul(y, y) == y * y;
    hide Mul;
  }

  lemma MatrixIsRotation(q: Quaternion)
    requires NormSquared(q) == 1.0
    ensures IsRotation(QuaternionToMatrix(q))
  {
    var m := QuaternionToMatrix(q);
    ToMatrixByMul(q);
    NormByMul(q);
    MulCommutes();
    hide Mul, QuaternionToMatrix, NormSquared;
    UnitColumn(q.x, q.y, q.z, q.w, m.m0, m.m1, m.m2);
    UnitColumn(q.y, q.z, q.x, q.w, m.m5, m.m6, m.m4);
    ColumnsOrthogonal(q.x, q.y, q.z, q.w, m.m0, m.m1, m.m2, m.m4, m.m5, m.m6);
    ThirdColumn(q.x, q.y, q.z, q.w, m.m0, m.m1, m.m2, m.m4, m.m5, m.m6);
  }

  // ---- Directions and order ----

  /** The last column of a matrix is where it moves the origin to, and the others are where it moves the
      unit vectors to from there. */
  lemma ColumnsOf(mat: Matrix)
    ensures Vector3Transform(Vector3(0.0, 0.0, 0.0), mat) == Vector3(mat.m12, mat.m13, mat.m14)
    ensures Vector3Transform(Vector3(1.0, 0.0, 0.0), mat)
            == Vector3(mat.m0 + mat.m12, mat.m1 + mat.m13, mat.m2 + mat.m14)
    ensures Vector3Transform(Vector3(0.0, 1.0, 0.0), mat)
            == Vector3(mat.m4 + mat.m12, mat.m5 + mat.m13, mat.m6 + mat.m14)
    ensures Vector3Transform(Vector3(0.0, 0.0, 1.0), mat)
            == Vector3(mat.m8 + mat.m12, mat.m9 + mat.m13, mat.m10 + mat.m14)
  {
  }

  /** Between them it is affine: a point on a line goes to the same place on the image of the line. */
  lemma TransformsLines(u: Vector3, v: Vector3, t: real, mat: Matrix)
    ensures Vector3Transform(Vector3(Blend(u.x, v.x, t), Blend(u.y, v.y, t), Blend(u.z, v.z, t)), mat)
            == var x, y := Vector3Transform(u, mat), Vector3Transform(v, mat);
               Vector3(Blend(x.x, y.x, t), Blend(x.y, y.y, t), Blend(x.z, y.z, t))
  {
    TransformByRows(Vector3(Blend(u.x, v.x, t), Blend(u.y, v.y, t), Blend(u.z, v.z, t)), mat);
    TransformByRows(u, mat);
    TransformByRows(v, mat);
    hide Vector3Transform, Row, Blend;
    AffineRow(mat.m0, mat.m4, mat.m8, mat.m12, u, v, t);
    AffineRow(mat.m1, mat.m5, mat.m9, mat.m13, u, v, t);
    AffineRow(mat.m2, mat.m6, mat.m10, mat.m14, u, v, t);
  }

  function Blend(a: real, b: real, t: real): real {
    a + t * (b - a)
  }

  function Row(a: real, b: real, c: real, d: real, v: Vector3): real {
    a * v.x + b * v.y + c * v.z + d
  }

  lemma TransformByRows(v: Vector3, mat: Matrix)
    ensures Vector3Transform(v, mat) == Vector3(Row(mat.m0, mat.m4, mat.m8, mat.m12, v),
                                                Row(mat.m1, mat.m5, mat.m9, mat.m13, v),
                                                Row(mat.m2, mat.m6, mat.m10, mat.m14, v))
  {
  }

  lemma AffineRow(a: real, b: real, c: real, d: real, u: Vector3, v: Vector3, t: real)
    ensures Row(a, b, c, d, Vector3(Blend(u.x, v.x, t), Blend(u.y, v.y, t), Blend(u.z, v.z, t)))
            == Blend(Row(a, b, c, d, u), Row(a, b, c, d, v), t)
  {
    Scales(a, t, v.x - u.x);
    Scales(b, t, v.y - u.y);
    Scales(c, t, v.z - u.z);
  }

  lemma Scales(a: real, t: real, d: real)
    ensures a * (t * d) == t * (a * d)
  {
  }

  /** A unit quaternion leaves its axis where it is. */
  lemma KeepsAxis(q: Quaternion)
    requires NormSquared(q) == 1.0
    ensures Vector3RotateByQuaternion(Vector3(q.x, q.y, q.z), q) == Vector3(q.x, q.y, q.z)
  {
    AxisX(q.x, q.y, q.z, q.w);
    AxisX(q.y, q.z, q.x, q.w);
    AxisX(q.z, q.x, q.y, q.w);
  }

  lemma AxisX(x: real, y: real, z: real, w: real)
    requires x * x + y * y + z * z + w * w == 1.0
    ensures x * (x * x + w * w - y * y - z * z) + y * (2.0 * x * y - 2.0 * w * z) + z * (2.0 * x * z + 2.0 * w * y) == x
  {
    assert x * (x * x + w * w - y * y - z * z) + y * (2.0 * x * y - 2.0 * w * z) + z * (2.0 * x * z + 2.0 * w * y)
           == x * (x * x + y * y + z * z + w * w);
  }

  /** A quarter turn about each axis, counterclockwise for who looks against the axis. */
  lemma QuarterTurns(s: real)
    requires 2.0 * s * s == 1.0
    ensures Vector3RotateByQuaternion(Vector3(1.0, 0.0, 0.0), Quaternion(0.0, 0.0, s, s)) == Vector3(0.0, 1.0, 0.0)
    ensures Vector3RotateByQuaternion(Vector3(0.0, 1.0, 0.0), Quaternion(s, 0.0, 0.0, s)) == Vector3(0.0, 0.0, 1.0)
    ensures Vector3RotateByQuaternion(Vector3(0.0, 0.0, 1.0), Quaternion(0.0, s, 0.0, s)) == Vector3(1.0, 0.0, 0.0)
  {
    assert s * s == 0.5;
  }

  /** Products with the basis quaternions. */
  lemma TimesBasis(q: Quaternion)
    ensures QuaternionMultiply(q, Quaternion(0.0, 0.0, 0.0, 1.0)) == q
    ensures QuaternionMultiply(q, Quaternion(1.0, 0.0, 0.0, 0.0)) == Quaternion(q.w, q.z, -q.y, -q.x)
    ensures QuaternionMultiply(q, Quaternion(0.0, 1.0, 0.0, 0.0)) == Quaternion(-q.z, q.w, q.x, -q.y)
    ensures QuaternionMultiply(q, Quaternion(0.0, 0.0, 1.0, 0.0)) == Quaternion(q.y, -q.x, q.w, -q.z)
  {
  }
}
