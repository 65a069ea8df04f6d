/** Exact real 3-vectors and 3x3 matrices, standing in for the numpy arrays of the pipeline. */
module Vectors {

  datatype Vec3 = Vec3(x: real, y: real, z: real) {

    /** Component `k` (0 = x, 1 = y, 2 = z), as numpy indexes a length-3 array. */
    function At(k: nat): real
      requires k < 3
    {
      if k == 0 then x else if k == 1 then y else z
    }

    /** This vector with `d` added to component `k` (numpy's `v[k] += d`). */
    function AddAt(k: nat, d: real): (r: Vec3)
      requires k < 3
      ensures r.At(k) == At(k) + d
      ensures forall k' :: 0 <= k' < 3 && k' != k ==> r.At(k') == At(k')
    {
      if k == 0 then Vec3(x + d, y, z)
      else if k == 1 then Vec3(x, y + d, z)
      else Vec3(x, y, z + d)
    }

    function Plus(v: Vec3): Vec3 {
      Vec3(x + v.x, y + v.y, z + v.z)
    }

    function Scale(s: real): Vec3 {
      Vec3(s * x, s * y, s * z)
    }

    function Dot(v: Vec3): real {
      x * v.x + y * v.y + z * v.z
    }
  }

  const Zero := Vec3(0.0, 0.0, 0.0)

  /** A 3x3 matrix stored by rows. */
  datatype Mat3 = Mat3(r0: Vec3, r1: Vec3, r2: Vec3) {

    function Row(i: nat): Vec3
      requires i < 3
    {
      if i == 0 then r0 else if i == 1 then r1 else r2
    }

    /** Entry (i, j), numpy's `M[i, j]`. */
    function At(i: nat, j: nat): real
      requires i < 3 && j < 3
    {
      Row(i).At(j)
    }

    /** This matrix with `d` added to entry (i, j) (numpy's `M[i, j] += d`). */
    function AddAt(i: nat, j: nat, d: real): (r: Mat3)
      requires i < 3 && j < 3
      ensures r.At(i, j) == At(i, j) + d
      ensures forall i', j' :: 0 <= i' < 3 && 0 <= j' < 3 && (i', j') != (i, j) ==> r.At(i', j') == At(i', j')
    {
      if i == 0 then Mat3(r0.AddAt(j, d), r1, r2)
      else if i == 1 then Mat3(r0, r1.AddAt(j, d), r2)
      else Mat3(r0, r1, r2.AddAt(j, d))
    }

    /** This matrix with row `i` replaced by `v`. */
    function WithRow(i: nat, v: Vec3): Mat3
      requires i < 3
    {
      if i == 0 then Mat3(v, r1, r2)
      else if i == 1 then Mat3(r0, v, r2)
      else Mat3(r0, r1, v)
    }

    /** The matrix-vector product `M @ p`. */
    function Mul(p: Vec3): (r: Vec3)
      ensures forall i :: 0 <= i < 3 ==> r.At(i) == Row(i).Dot(p)
    {
      Vec3(r0.Dot(p), r1.Dot(p), r2.Dot(p))
    }
  }

  const ZeroMat := Mat3(Zero, Zero, Zero)
  const Identity := Mat3(Vec3(1.0, 0.0, 0.0), Vec3(0.0, 1.0, 0.0), Vec3(0.0, 0.0, 1.0))

  /** The matrix whose columns are `a`, `b` and `c` (numpy's `column_stack`). */
  function Columns(a: Vec3, b: Vec3, c: Vec3): (m: Mat3)
    ensures forall i :: 0 <= i < 3 ==> m.At(i, 0) == a.At(i) && m.At(i, 1) == b.At(i) && m.At(i, 2) == c.At(i)
  {
    Mat3(Vec3(a.x, b.x, c.x), Vec3(a.y, b.y, c.y), Vec3(a.z, b.z, c.z))
  }

  /** The determinant, expanded along the first row. */
  function Det(m: Mat3): real {
    m.r0.x * (m.r1.y * m.r2.z - m.r1.z * m.r2.y)
    - m.r0.y * (m.r1.x * m.r2.z - m.r1.z * m.r2.x)
    + m.r0.z * (m.r1.x * m.r2.y - m.r1.y * m.r2.x)
  }

  /** Scaling the three columns by `s` scales the determinant by `s^3`. */
  lemma DetScale(a: Vec3, b: Vec3, c: Vec3, s: real)
    ensures Det(Columns(a.Scale(s), b.Scale(s), c.Scale(s))) == s * s * s * Det(Columns(a, b, c))
  {
    var m := Columns(a, b, c);
    var t1 := a.x * (b.y * c.z - c.y * b.z);
    var t2 := b.x * (a.y * c.z - c.y * a.z);
    var t3 := c.x * (a.y * b.z - b.y * a.z);
    assert Det(m) == t1 - t2 + t3;
    assert (s * a.x) * ((s * b.y) * (s * c.z) - (s * c.y) * (s * b.z)) == s * s * s * t1;
    assert (s * b.x) * ((s * a.y) * (s * c.z) - (s * c.y) * (s * a.z)) == s * s * s * t2;
    assert (s * c.x) * ((s * a.y) * (s * b.z) - (s * b.y) * (s * a.z)) == s * s * s * t3;
  }

  lemma MulIdentity(p: Vec3)
    ensures Identity.Mul(p) == p
  {
  }

  /** Matrix-vector multiplication is linear in the vector. */
  lemma MulLinear(m: Mat3, p: Vec3, q: Vec3, s: real)
    ensures m.Mul(p.Plus(q)) == m.Mul(p).Plus(m.Mul(q))
    ensures m.Mul(p.Scale(s)) == m.Mul(p).Scale(s)
  {
  }
}
