/** The 4x4 matrices of Lab4: a Matrix4 holds sixteen numbers m[0..15];
    operator* reads them row-major (m[row * 4 + col]), while OpenGL, which
    receives them with transpose = GL_FALSE, reads them column-major. Float
    arithmetic is modelled by exact reals; cosf, sinf and tanf are not
    modelled, their results come in as parameters. */
module Transforms {

  /** The sixteen slots of a Matrix4. */
  type Matrix4 = m: seq<real> | |m| == 16 witness seq(16, _ => 0.0)

  /** A homogeneous vertex, as the vertex shader sees it. */
  datatype Vec4 = Vec4(x: real, y: real, z: real, w: real)

  /** The slot of (row, col) in operator*'s row-major reading. */
  function Slot(row: int, col: int): int {
    4 * row + col
  }

  /** The matrix the default constructor builds: 1 in slots 0, 5, 10, 15,
      0 elsewhere. */
  function Identity(): Matrix4 {
    seq(16, i => if i == 0 || i == 5 || i == 10 || i == 15 then 1.0 else 0.0)
  }

  /** The sum over k < n of a[row * 4 + k] * b[k * 4 + col], accumulated in
      the order of operator*'s innermost loop. */
  function PartialDot(a: Matrix4, b: Matrix4, row: int, col: int, n: int): real
    requires 0 <= row < 4 && 0 <= col < 4 && 0 <= n <= 4
  {
    if n == 0 then 0.0 else PartialDot(a, b, row, col, n - 1) + a[Slot(row, n - 1)] * b[Slot(n - 1, col)]
  }

  /** A product of two slots. Sums of products are written with Mul so
      that the regrouping lemmas below meet the very terms they rewrite. */
  function Mul(x: real, y: real): real {
    x * y
  }

  /** Row `row` of a times column `col` of b. */
  function Entry(a: Matrix4, b: Matrix4, row: int, col: int): real
    requires 0 <= row < 4 && 0 <= col < 4
  {
    Mul(a[Slot(row, 0)], b[Slot(0, col)]) + Mul(a[Slot(row, 1)], b[Slot(1, col)])
      + Mul(a[Slot(row, 2)], b[Slot(2, col)]) + Mul(a[Slot(row, 3)], b[Slot(3, col)])
  }

  /** operator*: slot row * 4 + col of a * b is Entry(a, b, row, col). */
  function Product(a: Matrix4, b: Matrix4): Matrix4 {
    seq(16, i requires 0 <= i < 16 => Entry(a, b, i / 4, i % 4))
  }

  lemma ProductAt(a: Matrix4, b: Matrix4, row: int, col: int)
    requires 0 <= row < 4 && 0 <= col < 4
    ensures Product(a, b)[Slot(row, col)] == Entry(a, b, row, col)
  {
    var i := Slot(row, col);
    assert i / 4 == row && i % 4 == col;
  }

  /** The innermost loop's sum over all four k is the entry. */
  lemma PartialDotFull(a: Matrix4, b: Matrix4, row: int, col: int)
    requires 0 <= row < 4 && 0 <= col < 4
    ensures PartialDot(a, b, row, col, 4) == Entry(a, b, row, col)
  {
    assert PartialDot(a, b, row, col, 1) == a[Slot(row, 0)] * b[Slot(0, col)];
    assert PartialDot(a, b, row, col, 3) == PartialDot(a, b, row, col, 2) + a[Slot(row, 2)] * b[Slot(2, col)];
  }

  /** How OpenGL applies an uploaded matrix to a vertex: it reads m
      column-major, so output component r is the sum over c of m[c * 4 + r]
      times input component c. */
  function Apply(m: Matrix4, v: Vec4): Vec4 {
    Vec4(Component(m, 0, v), Component(m, 1, v), Component(m, 2, v), Component(m, 3, v))
  }

  /** Component r of v mapped by m: column r of the row-major slots. */
  function Component(m: Matrix4, r: int, v: Vec4): real
    requires 0 <= r < 4
  {
    Mul(m[Slot(0, r)], v.x) + Mul(m[Slot(1, r)], v.y) + Mul(m[Slot(2, r)], v.z) + Mul(m[Slot(3, r)], v.w)
  }

  /** Matrix4(): clears the sixteen slots, then sets the diagonal. */
  method NewMatrix() returns (result: Matrix4)
    ensures result == Identity()
  {
    var m := new real[16];
    for i := 0 to 16
      invariant forall j :: 0 <= j < i ==> m[j] == 0.0
    {
      m[i] := 0.0;
    }
    m[0] := 1.0;
    m[5] := 1.0;
    m[10] := 1.0;
    m[15] := 1.0;
    result := m[..];
  }

  /** The slots of m before slot n hold those of a * b, the rest are 0. */
  ghost predicate FilledUpTo(m: seq<real>, a: Matrix4, b: Matrix4, n: int) {
    |m| == 16 && forall i :: 0 <= i < 16 ==> m[i] == if i < n then Product(a, b)[i] else 0.0
  }

  /** operator*: clears the result, then accumulates each slot over k. */
  method Multiply(a: Matrix4, b: Matrix4) returns (result: Matrix4)
    ensures result == Product(a, b)
  {
    var m := new real[16];
    for i := 0 to 16
      invariant forall j :: 0 <= j < i ==> m[j] == 0.0
    {
      m[i] := 0.0;
    }
    for row := 0 to 4
      invariant FilledUpTo(m[..], a, b, Slot(row, 0))
    {
      for col := 0 to 4
        invariant FilledUpTo(m[..], a, b, Slot(row, col))
      {
        ghost var before := m[..];
        for k := 0 to 4
          invariant forall i :: 0 <= i < 16 && i != Slot(row, col) ==> m[i] == before[i]
          invariant m[Slot(row, col)] == PartialDot(a, b, row, col, k)
        {
          m[row * 4 + col] := m[row * 4 + col] + a[row * 4 + k] * b[k * 4 + col];
        }
        PartialDotFull(a, b, row, col);
        ProductAt(a, b, row, col);
      }
    }
    result := m[..];
  }

  /** Every slot is the slot of its row and column. */
  lemma SlotOf(i: int)
    requires 0 <= i < 16
    ensures 0 <= i / 4 < 4 && 0 <= i % 4 < 4 && Slot(i / 4, i % 4) == i
  {
  }

  /** The identity is a unit on the left of operator*... */
  lemma IdentityLeft(a: Matrix4)
    ensures Product(Identity(), a) == a
  {
    forall i | 0 <= i < 16
      ensures Product(Identity(), a)[i] == a[i]
    {
      SlotOf(i);
      ProductAt(Identity(), a, i / 4, i % 4);
    }
  }

  /** ... and on the right. */
  lemma IdentityRight(a: Matrix4)
    ensures Product(a, Identity()) == a
  {
    forall i | 0 <= i < 16
      ensures Product(a, Identity())[i] == a[i]
    {
      SlotOf(i);
      ProductAt(a, Identity(), i / 4, i % 4);
    }
  }

  /** Regrouping the double sum behind ProductComponent: rows of a times
      a column b, weighted by x, y, z, w, equal that column weighting the
      weighted columns of a. */
  lemma Regroup(a00: real, a01: real, a02: real, a03: real, a10: real, a11: real, a12: real, a13: real,
                a20: real, a21: real, a22: real, a23: real, a30: real, a31: real, a32: real, a33: real,
                b0: real, b1: real, b2: real, b3: real, x: real, y: real, z: real, w: real)
    ensures Mul(Mul(a00, b0) + Mul(a01, b1) + Mul(a02, b2) + Mul(a03, b3), x)
          + Mul(Mul(a10, b0) + Mul(a11, b1) + Mul(a12, b2) + Mul(a13, b3), y)
          + Mul(Mul(a20, b0) + Mul(a21, b1) + Mul(a22, b2) + Mul(a23, b3), z)
          + Mul(Mul(a30, b0) + Mul(a31, b1) + Mul(a32, b2) + Mul(a33, b3), w)
         == Mul(b0, Mul(a00, x) + Mul(a10, y) + Mul(a20, z) + Mul(a30, w))
          + Mul(b1, Mul(a01, x) + Mul(a11, y) + Mul(a21, z) + Mul(a31, w))
          + Mul(b2, Mul(a02, x) + Mul(a12, y) + Mul(a22, z) + Mul(a32, w))
          + Mul(b3, Mul(a03, x) + Mul(a13, y) + Mul(a23, z) + Mul(a33, w))
  {
  }

  lemma ProductComponent(a: Matrix4, b: Matrix4, v: Vec4, r: int)
    requires 0 <= r < 4
    ensures Component(Product(a, b), r, v) == Component(b, r, Apply(a, v))
  {
    Regroup(a[0], a[1], a[2], a[3], a[4], a[5], a[6], a[7], a[8], a[9], a[10], a[11], a[12], a[13], a[14], a[15],
            b[r], b[4 + r], b[8 + r], b[12 + r], v.x, v.y, v.z, v.w);
    ProductAt(a, b, 0, r);
    ProductAt(a, b, 1, r);
    ProductAt(a, b, 2, r);
    ProductAt(a, b, 3, r);
  }

  /** Applying a product applies the left factor first: under OpenGL's
      column-major reading, a * b maps a vertex by a, then by b. */
  lemma ProductApply(a: Matrix4, b: Matrix4, v: Vec4)
    ensures Apply(Product(a, b), v) == Apply(b, Apply(a, v))
  {
    ProductComponent(a, b, v, 0);
    ProductComponent(a, b, v, 1);
    ProductComponent(a, b, v, 2);
    ProductComponent(a, b, v, 3);
  }

  /** The identity leaves every vertex where it is. */
  lemma IdentityApply(v: Vec4)
    ensures Apply(Identity(), v) == v
  {
  }

  /** The unit vertex along axis c: x, y, z, then w. */
  function Basis(c: int): Vec4 {
    if c == 0 then Vec4(1.0, 0.0, 0.0, 0.0)
    else if c == 1 then Vec4(0.0, 1.0, 0.0, 0.0)
    else if c == 2 then Vec4(0.0, 0.0, 1.0, 0.0)
    else Vec4(0.0, 0.0, 0.0, 1.0)
  }

  /** A matrix maps the unit vertex along axis c to its slots 4c .. 4c + 3. */
  lemma BasisImage(m: Matrix4, c: int)
    requires 0 <= c < 4
    ensures Apply(m, Basis(c)) == Vec4(m[Slot(c, 0)], m[Slot(c, 1)], m[Slot(c, 2)], m[Slot(c, 3)])
  {
  }

  /** Two matrices that move every unit vertex alike are equal. */
  lemma EqualByBasis(m: Matrix4, n: Matrix4)
    requires forall c :: 0 <= c < 4 ==> Apply(m, Basis(c)) == Apply(n, Basis(c))
    ensures m == n
  {
    forall i | 0 <= i < 16
      ensures m[i] == n[i]
    {
      SlotOf(i);
      BasisImage(m, i / 4);
      BasisImage(n, i / 4);
    }
  }

  /** createTranslation: the default matrix with x, y, z in slots 12, 13, 14. */
  function Translation(x: real, y: real, z: real): Matrix4 {
    Identity()[12 := x][13 := y][14 := z]
  }

  /** createRotationX with c = cos(angle) and s = sin(angle) given. */
  function RotationX(c: real, s: real): Matrix4 {
    Identity()[5 := c][6 := -s][9 := s][10 := c]
  }

  /** createRotationY with c = cos(angle) and s = sin(angle) given. */
  function RotationY(c: real, s: real): Matrix4 {
    Identity()[0 := c][2 := s][8 := -s][10 := c]
  }

  /** createRotationZ with c = cos(angle) and s = sin(angle) given. */
  function RotationZ(c: real, s: real): Matrix4 {
    Identity()[0 := c][1 := -s][4 := s][5 := c]
  }

  /** createScaling: the default matrix with x, y, z on the diagonal. */
  function Scaling(x: real, y: real, z: real): Matrix4 {
    Identity()[0 := x][5 := y][10 := z]
  }

  /** createShearing: the default matrix with the six factors off the diagonal. */
  function Shearing(shxy: real, shxz: real, shyx: real, shyz: real, shzx: real, shzy: real): Matrix4 {
    Identity()[1 := shxy][2 := shxz][4 := shyx][6 := shyz][8 := shzx][9 := shzy]
  }

  /** m agrees with the identity outside the given slots. */
  predicate IdentityOutside(m: Matrix4, slots: set<int>) {
    forall i :: 0 <= i < 16 && i !in slots ==> m[i] == Identity()[i]
  }

  /** Each constructor touches only its own slots of the default matrix. */
  lemma ConstructorSlots(x: real, y: real, z: real, c: real, s: real, h1: real, h2: real, h3: real, h4: real, h5: real, h6: real)
    ensures IdentityOutside(Translation(x, y, z), {12, 13, 14})
    ensures IdentityOutside(RotationX(c, s), {5, 6, 9, 10})
    ensures IdentityOutside(RotationY(c, s), {0, 2, 8, 10})
    ensures IdentityOutside(RotationZ(c, s), {0, 1, 4, 5})
    ensures IdentityOutside(Scaling(x, y, z), {0, 5, 10})
    ensures IdentityOutside(Shearing(h1, h2, h3, h4, h5, h6), {1, 2, 4, 6, 8, 9})
  {
  }

  /** Neutral arguments give the identity: no shift, unit scale, no shear,
      angle 0. */
  lemma NeutralConstructors()
    ensures Translation(0.0, 0.0, 0.0) == Identity()
    ensures Scaling(1.0, 1.0, 1.0) == Identity()
    ensures Shearing(0.0, 0.0, 0.0, 0.0, 0.0, 0.0) == Identity()
    ensures RotationX(1.0, 0.0) == Identity() && RotationY(1.0, 0.0) == Identity() && RotationZ(1.0, 0.0) == Identity()
  {
  }

  /** A translation moves a point (w = 1) by (x, y, z) and leaves a
      direction (w = 0) alone. */
  lemma TranslationApply(x: real, y: real, z: real, v: Vec4)
    ensures Apply(Translation(x, y, z), v) == Vec4(v.x + x * v.w, v.y + y * v.w, v.z + z * v.w, v.w)
  {
  }

  /** Translating a vertex by (x1, y1, z1) and then by (x2, y2, z2) moves it
      as one translation by the sum does. */
  lemma TranslationTwice(x1: real, y1: real, z1: real, x2: real, y2: real, z2: real, v: Vec4)
    ensures Apply(Translation(x2, y2, z2), Apply(Translation(x1, y1, z1), v))
         == Apply(Translation(x1 + x2, y1 + y2, z1 + z2), v)
  {
    TranslationApply(x1, y1, z1, v);
    TranslationApply(x2, y2, z2, Apply(Translation(x1, y1, z1), v));
    TranslationApply(x1 + x2, y1 + y2, z1 + z2, v);
  }

  /** The product of two translations is the translation by the sum. */
  lemma TranslationCompose(x1: real, y1: real, z1: real, x2: real, y2: real, z2: real)
    ensures Product(Translation(x1, y1, z1), Translation(x2, y2, z2)) == Translation(x1 + x2, y1 + y2, z1 + z2)
  {
    forall c | 0 <= c < 4
      ensures Apply(Product(Translation(x1, y1, z1), Translation(x2, y2, z2)), Basis(c))
           == Apply(Translation(x1 + x2, y1 + y2, z1 + z2), Basis(c))
    {
      TranslationTwice(x1, y1, z1, x2, y2, z2, Basis(c));
      ProductApply(Translation(x1, y1, z1), Translation(x2, y2, z2), Basis(c));
    }
    EqualByBasis(Product(Translation(x1, y1, z1), Translation(x2, y2, z2)), Translation(x1 + x2, y1 + y2, z1 + z2));
  }

  /** Translating a vertex by (x, y, z) and then by (-x, -y, -z) puts it back. */
  lemma TranslationBack(x: real, y: real, z: real, v: Vec4)
    ensures Apply(Translation(-x, -y, -z), Apply(Translation(x, y, z), v)) == v
  {
    TranslationApply(x, y, z, v);
    TranslationApply(-x, -y, -z, Apply(Translation(x, y, z), v));
  }

  /** A translation times its negation is the identity. */
  lemma TranslationInverse(x: real, y: real, z: real)
    ensures Product(Translation(x, y, z), Translation(-x, -y, -z)) == Identity()
  {
    forall c | 0 <= c < 4
      ensures Apply(Product(Translation(x, y, z), Translation(-x, -y, -z)), Basis(c)) == Apply(Identity(), Basis(c))
    {
      TranslationBack(x, y, z, Basis(c));
      ProductApply(Translation(x, y, z), Translation(-x, -y, -z), Basis(c));
      IdentityApply(Basis(c));
    }
    EqualByBasis(Product(Translation(x, y, z), Translation(-x, -y, -z)), Identity());
  }

  /** A scaling multiplies each coordinate by its factor. */
  lemma ScalingApply(x: real, y: real, z: real, v: Vec4)
    ensures Apply(Scaling(x, y, z), v) == Vec4(x * v.x, y * v.y, z * v.z, v.w)
  {
  }

  /** Scaling a vertex by (x1, y1, z1) and then by (x2, y2, z2) moves it as
      one scaling by the products does. */
  lemma ScalingTwice(x1: real, y1: real, z1: real, x2: real, y2: real, z2: real, v: Vec4)
    ensures Apply(Scaling(x2, y2, z2), Apply(Scaling(x1, y1, z1), v))
         == Apply(Scaling(x1 * x2, y1 * y2, z1 * z2), v)
  {
    ScalingApply(x1, y1, z1, v);
    ScalingApply(x2, y2, z2, Apply(Scaling(x1, y1, z1), v));
    ScalingApply(x1 * x2, y1 * y2, z1 * z2, v);
    assert x2 * (x1 * v.x) == (x1 * x2) * v.x;
    assert y2 * (y1 * v.y) == (y1 * y2) * v.y;
    assert z2 * (z1 * v.z) == (z1 * z2) * v.z;
  }

  /** The product of two scalings is the scaling by the products. */
  lemma ScalingCompose(x1: real, y1: real, z1: real, x2: real, y2: real, z2: real)
    ensures Product(Scaling(x1, y1, z1), Scaling(x2, y2, z2)) == Scaling(x1 * x2, y1 * y2, z1 * z2)
  {
    forall c | 0 <= c < 4
      ensures Apply(Product(Scaling(x1, y1, z1), Scaling(x2, y2, z2)), Basis(c))
           == Apply(Scaling(x1 * x2, y1 * y2, z1 * z2), Basis(c))
    {
      ScalingTwice(x1, y1, z1, x2, y2, z2, Basis(c));
      ProductApply(Scaling(x1, y1, z1), Scaling(x2, y2, z2), Basis(c));
    }
    EqualByBasis(Product(Scaling(x1, y1, z1), Scaling(x2, y2, z2)), Scaling(x1 * x2, y1 * y2, z1 * z2));
  }

  /** The scaled model of the program's third view, createTranslation *
      createScaling: the translation acts first and the scaling then scales
      the offset too, so with offset (2, 0, 0) and factor 0.5 on x the
      cube's centre lands at x = 1. */
  lemma TranslateThenScale(x: real, y: real, z: real, sx: real, sy: real, sz: real, v: Vec4)
    ensures Apply(Product(Translation(x, y, z), Scaling(sx, sy, sz)), v)
         == Vec4(sx * (v.x + x * v.w), sy * (v.y + y * v.w), sz * (v.z + z * v.w), v.w)
  {
    ProductApply(Translation(x, y, z), Scaling(sx, sy, sz), v);
    TranslationApply(x, y, z, v);
    ScalingApply(sx, sy, sz, Apply(Translation(x, y, z), v));
  }

  /** A shearing adds multiples of the other coordinates to each one. */
  lemma ShearingApply(shxy: real, shxz: real, shyx: real, shyz: real, shzx: real, shzy: real, v: Vec4)
    ensures Apply(Shearing(shxy, shxz, shyx, shyz, shzx, shzy), v)
         == Vec4(v.x + shyx * v.y + shzx * v.z, shxy * v.x + v.y + shzy * v.z, shxz * v.x + shyz * v.y + v.z, v.w)
  {
    var m := Shearing(shxy, shxz, shyx, shyz, shzx, shzy);
    assert m[0] == 1.0 && m[4] == shyx && m[8] == shzx && m[12] == 0.0;
    assert m[1] == shxy && m[5] == 1.0 && m[9] == shzy && m[13] == 0.0;
    assert m[2] == shxz && m[6] == shyz && m[10] == 1.0 && m[14] == 0.0;
    assert m[3] == 0.0 && m[7] == 0.0 && m[11] == 0.0 && m[15] == 1.0;
  }

  /** c * p + s * q: a coordinate of the pair (p, q) after turning it by
      the angle whose cosine is c and whose sine is s (or -s, for the
      other coordinate). */
  function Turn(c: real, s: real, p: real, q: real): real {
    Mul(c, p) + Mul(s, q)
  }

  /** Rotation about x: x and w stay, (y, z) turn by the given cosine and
      sine: y' = c * y + s * z, z' = c * z - s * y. */
  lemma RotationXApply(c: real, s: real, v: Vec4)
    ensures Apply(RotationX(c, s), v) == Vec4(v.x, Turn(c, s, v.y, v.z), Turn(c, -s, v.z, v.y), v.w)
  {
  }

  /** Rotation about y: y and w stay, (x, z) turn: x' = c * x - s * z,
      z' = c * z + s * x. */
  lemma RotationYApply(c: real, s: real, v: Vec4)
    ensures Apply(RotationY(c, s), v) == Vec4(Turn(c, -s, v.x, v.z), v.y, Turn(c, s, v.z, v.x), v.w)
  {
    var m := RotationY(c, s);
    assert m[0] == c && m[4] == 0.0 && m[8] == -s && m[12] == 0.0;
    assert m[1] == 0.0 && m[5] == 1.0 && m[9] == 0.0 && m[13] == 0.0;
    assert m[2] == s && m[6] == 0.0 && m[10] == c && m[14] == 0.0;
    assert m[3] == 0.0 && m[7] == 0.0 && m[11] == 0.0 && m[15] == 1.0;
  }

  /** Rotation about z: z and w stay, (x, y) turn: x' = c * x + s * y,
      y' = c * y - s * x. */
  lemma RotationZApply(c: real, s: real, v: Vec4)
    ensures Apply(RotationZ(c, s), v) == Vec4(Turn(c, s, v.x, v.y), Turn(c, -s, v.y, v.x), v.z, v.w)
  {
  }

  /** Turning (p, q) by the angle with cosine c and sine s, then by its
      negation, gives the pair back when c * c + s * s == 1. */
  lemma TurnBack(c: real, s: real, p: real, q: real)
    requires c * c + s * s == 1.0
    ensures Turn(c, -s, Turn(c, s, p, q), Turn(c, -s, q, p)) == p
    ensures Turn(c, s, Turn(c, -s, q, p), Turn(c, s, p, q)) == q
  {
    assert c * (c * p + s * q) + -s * (c * q + -s * p) == (c * c + s * s) * p;
    assert c * (c * q + -s * p) + s * (c * p + s * q) == (c * c + s * s) * q;
  }

  /** With c = cos(angle) and s = sin(angle), so c * c + s * s == 1,
      the rotation about x by angle times the rotation by -angle is the identity. */
  lemma RotationXInverse(c: real, s: real)
    requires c * c + s * s == 1.0
    ensures Product(RotationX(c, s), RotationX(c, -s)) == Identity()
  {
    forall k | 0 <= k < 4
      ensures Apply(Product(RotationX(c, s), RotationX(c, -s)), Basis(k)) == Apply(Identity(), Basis(k))
    {
      RotationXBack(c, s, Basis(k));
      ProductApply(RotationX(c, s), RotationX(c, -s), Basis(k));
      IdentityApply(Basis(k));
    }
    EqualByBasis(Product(RotationX(c, s), RotationX(c, -s)), Identity());
  }

  lemma RotationXBack(c: real, s: real, v: Vec4)
    requires c * c + s * s == 1.0
    ensures Apply(RotationX(c, -s), Apply(RotationX(c, s), v)) == v
  {
    var u := Apply(RotationX(c, s), v);
    RotationXApply(c, s, v);
    RotationXApply(c, -s, u);
    TurnBack(c, s, v.y, v.z);
  }

  /** The same about y. */
  lemma RotationYInverse(c: real, s: real)
    requires c * c + s * s == 1.0
    ensures Product(RotationY(c, s), RotationY(c, -s)) == Identity()
  {
    forall k | 0 <= k < 4
      ensures Apply(Product(RotationY(c, s), RotationY(c, -s)), Basis(k)) == Apply(Identity(), Basis(k))
    {
      RotationYBack(c, s, Basis(k));
      ProductApply(RotationY(c, s), RotationY(c, -s), Basis(k));
      IdentityApply(Basis(k));
    }
    EqualByBasis(Product(RotationY(c, s), RotationY(c, -s)), Identity());
  }

  lemma RotationYBack(c: real, s: real, v: Vec4)
    requires c * c + s * s == 1.0
    ensures Apply(RotationY(c, -s), Apply(RotationY(c, s), v)) == v
  {
    var u := Apply(RotationY(c, s), v);
    RotationYApply(c, s, v);
    RotationYApply(c, -s, u);
    TurnBack(c, s, v.z, v.x);
  }

  /** The same about z. */
  lemma RotationZInverse(c: real, s: real)
    requires c * c + s * s == 1.0
    ensures Product(RotationZ(c, s), RotationZ(c, -s)) == Identity()
  {
    forall k | 0 <= k < 4
      ensures Apply(Product(RotationZ(c, s), RotationZ(c, -s)), Basis(k)) == Apply(Identity(), Basis(k))
    {
      RotationZBack(c, s, Basis(k));
      ProductApply(RotationZ(c, s), RotationZ(c, -s), Basis(k));
      IdentityApply(Basis(k));
    }
    EqualByBasis(Product(RotationZ(c, s), RotationZ(c, -s)), Identity());
  }

  lemma RotationZBack(c: real, s: real, v: Vec4)
    requires c * c + s * s == 1.0
    ensures Apply(RotationZ(c, -s), Apply(RotationZ(c, s), v)) == v
  {
    var u := Apply(RotationZ(c, s), v);
    RotationZApply(c, s, v);
    RotationZApply(c, -s, u);
    TurnBack(c, s, v.x, v.y);
  }

  /** createPerspective with tanHalfFov = tan(fov / 2) given: the frustum
      of a symmetric perspective camera looking down -z. */
  function Perspective(tanHalfFov: real, aspect: real, near: real, far: real): Matrix4
    requires tanHalfFov != 0.0 && aspect != 0.0 && far != near
  {
    seq(16, i =>
      if i == 0 then 1.0 / (aspect * tanHalfFov)
      else if i == 5 then 1.0 / tanHalfFov
      else if i == 10 then -(far + near) / (far - near)
      else if i == 11 then -1.0
      else if i == 14 then -(2.0 * far * near) / (far - near)
      else 0.0)
  }

  /** createPerspective: starts from a cleared matrix and sets the five
      slots of the frustum. */
  method CreatePerspective(tanHalfFov: real, aspect: real, near: real, far: real) returns (result: Matrix4)
    requires tanHalfFov != 0.0 && aspect != 0.0 && far != near
    ensures result == Perspective(tanHalfFov, aspect, near, far)
  {
    result := NewMatrix();
    for i := 0 to 16
      invariant forall j :: 0 <= j < i ==> result[j] == 0.0
    {
      result := result[i := 0.0];
    }
    result := result[0 := 1.0 / (aspect * tanHalfFov)];
    result := result[5 := 1.0 / tanHalfFov];
    result := result[10 := -(far + near) / (far - near)];
    result := result[11 := -1.0];
    result := result[14 := -(2.0 * far * near) / (far - near)];
  }

  /** The depth the projection gives a vertex at depth z with weight w,
      before the perspective divide. */
  function ClipDepth(near: real, far: real, z: real, w: real): real
    requires far != near
  {
    -((far + near) * z + 2.0 * far * near * w) / (far - near)
  }

  /** The projection scales x and y by the focal factors, maps z and w
      to the clip depth, and puts -z into w for the perspective divide. */
  lemma PerspectiveApply(tanHalfFov: real, aspect: real, near: real, far: real, v: Vec4)
    requires tanHalfFov != 0.0 && aspect != 0.0 && far != near
    ensures Apply(Perspective(tanHalfFov, aspect, near, far), v)
         == Vec4(v.x / (aspect * tanHalfFov), v.y / tanHalfFov, ClipDepth(near, far, v.z, v.w), -v.z)
  {
  }

  /** A division that leaves no remainder. */
  lemma ExactQuotient(n: real, d: real, q: real)
    requires d != 0.0 && n == q * d
    ensures n / d == q
  {
  }

  /** On the near plane the clip depth is -near, on the far plane far. */
  lemma PlaneDepths(near: real, far: real)
    requires far != near
    ensures ClipDepth(near, far, -near, 1.0) == -near
    ensures ClipDepth(near, far, -far, 1.0) == far
  {
    ExactQuotient(-((far + near) * -near + 2.0 * far * near * 1.0), far - near, -near);
    ExactQuotient(-((far + near) * -far + 2.0 * far * near * 1.0), far - near, far);
  }

  /** A point on the near plane (z == -near) lands at normalised depth -1. */
  lemma PerspectiveNear(tanHalfFov: real, aspect: real, near: real, far: real, x: real, y: real)
    requires tanHalfFov != 0.0 && aspect != 0.0 && far != near && near != 0.0
    ensures var p := Apply(Perspective(tanHalfFov, aspect, near, far), Vec4(x, y, -near, 1.0));
      p.w == near && p.z / p.w == -1.0
  {
    var p := Apply(Perspective(tanHalfFov, aspect, near, far), Vec4(x, y, -near, 1.0));
    PerspectiveApply(tanHalfFov, aspect, near, far, Vec4(x, y, -near, 1.0));
    PlaneDepths(near, far);
    assert p.z == -near && p.w == near;
    ExactQuotient(-near, near, -1.0);
  }

  /** A point on the far plane (z == -far) lands at normalised depth +1. */
  lemma PerspectiveFar(tanHalfFov: real, aspect: real, near: real, far: real, x: real, y: real)
    requires tanHalfFov != 0.0 && aspect != 0.0 && far != near && far != 0.0
    ensures var p := Apply(Perspective(tanHalfFov, aspect, near, far), Vec4(x, y, -far, 1.0));
      p.w == far && p.z / p.w == 1.0
  {
    var p := Apply(Perspective(tanHalfFov, aspect, near, far), Vec4(x, y, -far, 1.0));
    PerspectiveApply(tanHalfFov, aspect, near, far, Vec4(x, y, -far, 1.0));
    PlaneDepths(near, far);
    assert p.z == far && p.w == far;
    ExactQuotient(far, far, 1.0);
  }
}
