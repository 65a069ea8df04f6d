/** Lines 92-129 of `build_sample`: fractional coordinates turned into Cartesian ones with the
    lattice vectors, and the supercell of `n x n x n` unit cells, every position repeated once
    per cell `(i, j, k)` shifted by `i a + j b + k c`, with `i` outermost and `k` innermost. */
module Supercell {
  import opened Vectors
  import opened Sites

  /** The lattice vectors `a_vec`, `b_vec`, `c_vec`. */
  datatype Lattice = Lattice(a: Vec3, b: Vec3, c: Vec3)

  // ---------------------------------------------------------------------------
  // Fractional to Cartesian (lines 92-109)

  /** `fractional_to_cartesian`: `x a + y b + z c`. */
  function ToCartesian(lat: Lattice, f: Vec3): Vec3 {
    lat.a.Scale(f.x).Plus(lat.b.Scale(f.y)).Plus(lat.c.Scale(f.z))
  }

  /** The conversion is the product with the matrix whose columns are the lattice vectors. */
  lemma CartesianIsMatrixProduct(lat: Lattice, f: Vec3)
    ensures ToCartesian(lat, f) == Columns(lat.a, lat.b, lat.c).Mul(f)
  {
  }

  /** The conversion is linear in the fractional coordinate. */
  lemma CartesianLinear(lat: Lattice, f: Vec3, g: Vec3, s: real)
    ensures ToCartesian(lat, f.Plus(g)) == ToCartesian(lat, f).Plus(ToCartesian(lat, g))
    ensures ToCartesian(lat, f.Scale(s)) == ToCartesian(lat, f).Scale(s)
  {
    CartesianIsMatrixProduct(lat, f);
    CartesianIsMatrixProduct(lat, g);
    CartesianIsMatrixProduct(lat, f.Plus(g));
    CartesianIsMatrixProduct(lat, f.Scale(s));
    MulLinear(Columns(lat.a, lat.b, lat.c), f, g, s);
  }

  /** One position of lines 104-108: converted, with its occupancy. */
  function CartesianSite(lat: Lattice, s: Site): Site {
    Site(ToCartesian(lat, s.pos), s.occ)
  }

  /** The loop of lines 104-108 over one label's positions, in order. */
  function CartesianList(lat: Lattice, ps: seq<Site>): (r: seq<Site>)
    ensures |r| == |ps|
    ensures forall k :: 0 <= k < |ps| ==> r[k] == CartesianSite(lat, ps[k])
  {
    if |ps| == 0 then [] else CartesianList(lat, ps[..|ps| - 1]) + [CartesianSite(lat, ps[|ps| - 1])]
  }

  /** Lines 101-108: every label keeps its key, and its list is converted position by position,
      in order, each keeping its occupancy. */
  function CartesianAll(lat: Lattice, lists: map<string, seq<Site>>): (r: map<string, seq<Site>>)
    ensures r.Keys == lists.Keys
    ensures forall l :: l in r ==> |r[l]| == |lists[l]|
    ensures forall l, k :: l in r && 0 <= k < |lists[l]| ==>
              r[l][k].pos == ToCartesian(lat, lists[l][k].pos) && r[l][k].occ == lists[l][k].occ
    ensures forall l :: l in r ==> r[l] == CartesianList(lat, lists[l])
  {
    map l | l in lists :: CartesianList(lat, lists[l])
  }

  // ---------------------------------------------------------------------------
  // Replication (lines 113-125)

  /** `sample_size` as a count: `range(n)` is empty when `n <= 0`. */
  function Count(n: int): nat {
    if n > 0 then n else 0
  }

  /** The offset of cell `(i, j, k)`: `i a + j b + k c`. */
  function Offset(lat: Lattice, i: nat, j: nat, k: nat): Vec3 {
    lat.a.Scale(i as real).Plus(lat.b.Scale(j as real)).Plus(lat.c.Scale(k as real))
  }

  /** The copy of a position in cell `(i, j, k)`, with its occupancy. */
  function Shifted(lat: Lattice, p: Site, i: nat, j: nat, k: nat): Site {
    Site(p.pos.Plus(Offset(lat, i, j, k)), p.occ)
  }

  /** The lists of `xss` one after the other. */
  function Concat<T>(xss: seq<seq<T>>): seq<T> {
    if |xss| == 0 then [] else xss[0] + Concat(xss[1..])
  }

  /** When every list has `w` elements, the concatenation has `|xss| w`. */
  lemma {:induction false} ConcatLength<T>(xss: seq<seq<T>>, w: nat)
    requires forall i :: 0 <= i < |xss| ==> |xss[i]| == w
    ensures |Concat(xss)| == |xss| * w
  {
    if |xss| > 0 {
      var rest := xss[1..];
      assert forall i :: 0 <= i < |rest| ==> rest[i] == xss[i + 1];
      ConcatLength(rest, w);
      assert |xss| * w == w + |rest| * w;
    }
  }

  /** When every list has `w` elements, element `o` of list `b` sits at `b w + o` of the
      concatenation. */
  lemma {:induction false} ConcatAt<T>(xss: seq<seq<T>>, w: nat, b: nat, o: nat)
    requires forall i :: 0 <= i < |xss| ==> |xss[i]| == w
    requires b < |xss| && o < w
    ensures b * w + o < |Concat(xss)| && Concat(xss)[b * w + o] == xss[b][o]
  {
    var rest := xss[1..];
    assert Concat(xss) == xss[0] + Concat(rest);
    if b > 0 {
      assert forall i :: 0 <= i < |rest| ==> rest[i] == xss[i + 1];
      ConcatAt(rest, w, b - 1, o);
      assert b * w + o == w + ((b - 1) * w + o);
    }
  }

  /** The elements of the concatenation are those of the lists. */
  lemma {:induction false} ConcatMember<T>(xss: seq<seq<T>>, x: T)
    ensures x in Concat(xss) <==> exists i :: 0 <= i < |xss| && x in xss[i]
  {
    if |xss| > 0 {
      var rest := xss[1..];
      ConcatMember(rest, x);
      if x in Concat(rest) {
        var i :| 0 <= i < |rest| && x in rest[i];
        assert rest[i] == xss[i + 1];
      }
      if exists i :: 0 <= i < |xss| && x in xss[i] {
        var i :| 0 <= i < |xss| && x in xss[i];
        if i > 0 {
          assert xss[i] == rest[i - 1];
        }
      }
    }
  }

  /** The innermost loop, over `k`. */
  function Row(lat: Lattice, p: Site, n: nat, i: nat, j: nat): seq<Site> {
    seq(n, k requires 0 <= k < n => Shifted(lat, p, i, j, k))
  }

  /** The loop over `j`, with the loop over `k` inside. */
  function Layer(lat: Lattice, p: Site, n: nat, i: nat): seq<Site> {
    Concat(seq(n, j requires 0 <= j < n => Row(lat, p, n, i, j)))
  }

  /** All copies of one position: the loop over `i`, with those over `j` and `k` inside. */
  function Replicas(lat: Lattice, p: Site, n: nat): seq<Site> {
    Concat(seq(n, i requires 0 <= i < n => Layer(lat, p, n, i)))
  }

  /** One position has `n^3` copies. */
  lemma ReplicasLength(lat: Lattice, p: Site, n: nat)
    ensures |Replicas(lat, p, n)| == n * n * n
  {
    var layers := seq(n, i requires 0 <= i < n => Layer(lat, p, n, i));
    forall i | 0 <= i < n
      ensures |layers[i]| == n * n
    {
      ConcatLength(seq(n, j requires 0 <= j < n => Row(lat, p, n, i, j)), n);
    }
    ConcatLength(layers, n * n);
  }

  /** The position of the copy in cell `(i, j, k)` among the `n^3` copies of one position:
      `i` varies slowest and `k` fastest, as the loops nest. */
  function CellIndex(n: nat, i: nat, j: nat, k: nat): nat {
    i * (n * n) + j * n + k
  }

  /** The position, in a label's supercell list, of the copy of position `m` in cell `(i, j, k)`:
      each position owns a block of `n^3` entries. */
  function EntryIndex(n: nat, m: nat, i: nat, j: nat, k: nat): nat {
    m * (n * n * n) + CellIndex(n, i, j, k)
  }

  /** Layer `i` lists the cells `(i, j, k)` with `j` outer and `k` inner. */
  lemma LayerAt(lat: Lattice, p: Site, n: nat, i: nat, j: nat, k: nat)
    requires j < n && k < n
    ensures |Layer(lat, p, n, i)| == n * n
    ensures j * n + k < |Layer(lat, p, n, i)|
    ensures Layer(lat, p, n, i)[j * n + k] == Shifted(lat, p, i, j, k)
  {
    var rows := seq(n, j' requires 0 <= j' < n => Row(lat, p, n, i, j'));
    ConcatLength(rows, n);
    ConcatAt(rows, n, j, k);
  }

  /** The copy in cell `(i, j, k)` is at `CellIndex(n, i, j, k)` of the copies of a position. */
  lemma ReplicasAt(lat: Lattice, p: Site, n: nat, i: nat, j: nat, k: nat)
    requires i < n && j < n && k < n
    ensures CellIndex(n, i, j, k) < |Replicas(lat, p, n)|
    ensures Replicas(lat, p, n)[CellIndex(n, i, j, k)] == Shifted(lat, p, i, j, k)
  {
    var layers := seq(n, i' requires 0 <= i' < n => Layer(lat, p, n, i'));
    forall i' | 0 <= i' < n
      ensures |layers[i']| == n * n
    {
      LayerAt(lat, p, n, i', 0, 0);
    }
    var o := j * n + k;
    LayerAt(lat, p, n, i, j, k);
    ConcatAt(layers, n * n, i, o);
    assert CellIndex(n, i, j, k) == i * (n * n) + o;
  }

  /** The copies in layer `i` are those of the cells `(i, j, k)`. */
  lemma LayerMember(lat: Lattice, p: Site, n: nat, i: nat, x: Site)
    ensures x in Layer(lat, p, n, i) <==> exists j, k :: 0 <= j < n && 0 <= k < n && x == Shifted(lat, p, i, j, k)
  {
    var rows := seq(n, j requires 0 <= j < n => Row(lat, p, n, i, j));
    ConcatMember(rows, x);
    if exists j, k :: 0 <= j < n && 0 <= k < n && x == Shifted(lat, p, i, j, k) {
      var j, k :| 0 <= j < n && 0 <= k < n && x == Shifted(lat, p, i, j, k);
      assert rows[j][k] == x;
    }
  }

  /** The copies of a position are the position shifted by the offset of each cell
      `(i, j, k)`, `0 <= i, j, k < n`, with its occupancy. */
  lemma ReplicasMember(lat: Lattice, p: Site, n: nat, x: Site)
    ensures x in Replicas(lat, p, n) <==>
              exists i, j, k :: 0 <= i < n && 0 <= j < n && 0 <= k < n && x == Shifted(lat, p, i, j, k)
  {
    var layers := seq(n, i requires 0 <= i < n => Layer(lat, p, n, i));
    ConcatMember(layers, x);
    if x in Replicas(lat, p, n) {
      var i :| 0 <= i < n && x in layers[i];
      LayerMember(lat, p, n, i, x);
    }
    if exists i, j, k :: 0 <= i < n && 0 <= j < n && 0 <= k < n && x == Shifted(lat, p, i, j, k) {
      var i, j, k :| 0 <= i < n && 0 <= j < n && 0 <= k < n && x == Shifted(lat, p, i, j, k);
      LayerMember(lat, p, n, i, x);
      assert x in layers[i];
    }
  }

  /** Lines 114-125 for one label: the copies of every position, in the order of the positions. */
  function SupercellList(lat: Lattice, ps: seq<Site>, n: int): seq<Site> {
    Concat(seq(|ps|, m requires 0 <= m < |ps| => Replicas(lat, ps[m], Count(n))))
  }

  /** Position `m` of a label owns the `m`-th block of `n^3` entries of its supercell list, and
      the copy in cell `(i, j, k)` is at `EntryIndex`: the positions in order, and for each the
      cells with `i` outermost and `k` innermost. */
  lemma SupercellAt(lat: Lattice, ps: seq<Site>, n: int, m: nat, i: nat, j: nat, k: nat)
    requires m < |ps| && i < Count(n) && j < Count(n) && k < Count(n)
    ensures EntryIndex(Count(n), m, i, j, k) < |SupercellList(lat, ps, n)|
    ensures SupercellList(lat, ps, n)[EntryIndex(Count(n), m, i, j, k)] == Shifted(lat, ps[m], i, j, k)
  {
    var c := Count(n);
    var blocks := seq(|ps|, m' requires 0 <= m' < |ps| => Replicas(lat, ps[m'], c));
    forall m' | 0 <= m' < |ps|
      ensures |blocks[m']| == c * c * c
    {
      ReplicasLength(lat, ps[m'], c);
    }
    ReplicasAt(lat, ps[m], c, i, j, k);
    ReplicasLength(lat, ps[m], c);
    ConcatAt(blocks, c * c * c, m, CellIndex(c, i, j, k));
  }

  /** A label's supercell list holds `n^3` copies of each of its positions; nothing when
      `n <= 0`. */
  lemma SupercellLength(lat: Lattice, ps: seq<Site>, n: int)
    ensures |SupercellList(lat, ps, n)| == |ps| * (Count(n) * Count(n) * Count(n))
  {
    var c := Count(n);
    var blocks := seq(|ps|, m requires 0 <= m < |ps| => Replicas(lat, ps[m], c));
    forall m | 0 <= m < |ps|
      ensures |blocks[m]| == c * c * c
    {
      ReplicasLength(lat, ps[m], c);
    }
    ConcatLength(blocks, c * c * c);
  }

  /** The entries of a label's supercell list are its positions, each shifted by the offset of
      a cell `(i, j, k)`, `0 <= i, j, k < n`, and keeping its occupancy. */
  lemma SupercellMember(lat: Lattice, ps: seq<Site>, n: int, x: Site)
    ensures var c := Count(n);
            x in SupercellList(lat, ps, n) <==>
              exists m, i, j, k :: 0 <= m < |ps| && 0 <= i < c && 0 <= j < c && 0 <= k < c
                                   && x == Shifted(lat, ps[m], i, j, k)
  {
    var c := Count(n);
    var blocks := seq(|ps|, m requires 0 <= m < |ps| => Replicas(lat, ps[m], c));
    ConcatMember(blocks, x);
    if x in SupercellList(lat, ps, n) {
      var m :| 0 <= m < |ps| && x in blocks[m];
      ReplicasMember(lat, ps[m], c, x);
    }
    if exists m, i, j, k :: 0 <= m < |ps| && 0 <= i < c && 0 <= j < c && 0 <= k < c
                           && x == Shifted(lat, ps[m], i, j, k) {
      var m, i, j, k :| 0 <= m < |ps| && 0 <= i < c && 0 <= j < c && 0 <= k < c
                        && x == Shifted(lat, ps[m], i, j, k);
      ReplicasMember(lat, ps[m], c, x);
      assert x in blocks[m];
    }
  }

  /** With one cell the replication would change nothing, so the early return for
      `sample_size == 1` agrees with it. */
  lemma {:induction false} OneCellIsIdentity(lat: Lattice, ps: seq<Site>)
    ensures SupercellList(lat, ps, 1) == ps
  {
    if |ps| > 0 {
      var blocks := seq(|ps|, m requires 0 <= m < |ps| => Replicas(lat, ps[m], 1));
      var rest := ps[1..];
      OneCellIsIdentity(lat, rest);
      assert blocks[1..] == seq(|rest|, m requires 0 <= m < |rest| => Replicas(lat, rest[m], 1));
      OneCopy(lat, ps[0]);
    }
  }

  /** The single copy of a position with one cell is the position. */
  lemma OneCopy(lat: Lattice, p: Site)
    ensures Replicas(lat, p, 1) == [p]
  {
    var row := Row(lat, p, 1, 0, 0);
    assert Shifted(lat, p, 0, 0, 0) == p;
    assert row == [p];
    var rows := seq(1, j requires 0 <= j < 1 => Row(lat, p, 1, 0, j));
    assert rows == [row];
    assert rows[1..] == [];
    assert Layer(lat, p, 1, 0) == Concat(rows) == row;
    var layers := seq(1, i requires 0 <= i < 1 => Layer(lat, p, 1, i));
    assert layers == [[p]];
    assert layers[1..] == [];
    assert Concat(layers) == [p] + Concat(layers[1..]);
  }

  /** The length and the entries of every label's supercell list. */
  lemma SupercellShape(lat: Lattice, lists: map<string, seq<Site>>, n: int)
    ensures forall l :: l in lists ==>
              |SupercellList(lat, lists[l], n)| == |lists[l]| * (Count(n) * Count(n) * Count(n))
    ensures forall l, x :: l in lists ==>
              (x in SupercellList(lat, lists[l], n) <==>
                 exists m, i, j, k :: 0 <= m < |lists[l]| && 0 <= i < Count(n) && 0 <= j < Count(n) && 0 <= k < Count(n)
                                      && x == Shifted(lat, lists[l][m], i, j, k))
    ensures forall l, m, i, j, k :: l in lists && 0 <= m < |lists[l]| && 0 <= i < Count(n) && 0 <= j < Count(n) && 0 <= k < Count(n) ==>
              && EntryIndex(Count(n), m, i, j, k) < |SupercellList(lat, lists[l], n)|
              && SupercellList(lat, lists[l], n)[EntryIndex(Count(n), m, i, j, k)] == Shifted(lat, lists[l][m], i, j, k)
  {
    forall l | l in lists {
      SupercellLength(lat, lists[l], n);
    }
    forall l, x | l in lists {
      SupercellMember(lat, lists[l], n, x);
    }
    forall l, m, i, j, k | l in lists && 0 <= m < |lists[l]| && 0 <= i < Count(n) && 0 <= j < Count(n) && 0 <= k < Count(n) {
      SupercellAt(lat, lists[l], n, m, i, j, k);
    }
  }

  /** Lines 113-129: every label keeps its key and gets `n^3` copies of each of its positions
      (none when `n <= 0`), the copies being exactly the positions shifted by a cell offset, laid
      out position by position with `i` outermost and `k` innermost. */
  function SupercellAll(lat: Lattice, lists: map<string, seq<Site>>, n: int): (r: map<string, seq<Site>>)
    ensures r.Keys == lists.Keys
    ensures forall l :: l in r ==> |r[l]| == |lists[l]| * (Count(n) * Count(n) * Count(n))
    ensures forall l, x :: l in r ==>
              (x in r[l] <==>
                 exists m, i, j, k :: 0 <= m < |lists[l]| && 0 <= i < Count(n) && 0 <= j < Count(n) && 0 <= k < Count(n)
                                      && x == Shifted(lat, lists[l][m], i, j, k))
    ensures forall l, m, i, j, k :: l in r && 0 <= m < |lists[l]| && 0 <= i < Count(n) && 0 <= j < Count(n) && 0 <= k < Count(n) ==>
              && EntryIndex(Count(n), m, i, j, k) < |r[l]|
              && r[l][EntryIndex(Count(n), m, i, j, k)] == Shifted(lat, lists[l][m], i, j, k)
    ensures forall l :: l in r ==> r[l] == SupercellList(lat, lists[l], n)
  {
    SupercellShape(lat, lists, n);
    map l | l in lists :: SupercellList(lat, lists[l], n)
  }
}
