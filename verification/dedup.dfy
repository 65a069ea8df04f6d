/** Lines 71-90 of `build_sample`: `remove_duplicates` keeps, in order, every position that is
    not close to a position already kept, and is applied to the list of every label. The scan is
    stated for any duplicate test `dup(pos, up)`, `up` being the position already kept; the
    source's test, numpy's `isclose` with `atol = tol = 1e-5` and the default `rtol = 1e-5` on
    x, y, z and the occupancy, is `Duplicate`, in exact arithmetic. */
module Dedup {
  import opened Vectors
  import opened Sites

  // ---------------------------------------------------------------------------
  // The closeness test

  /** `tol`, passed to numpy as `atol`. */
  const Atol: real := 0.00001
  /** numpy's default relative tolerance. */
  const Rtol: real := 0.00001

  function Abs(x: real): real {
    if x < 0.0 then -x else x
  }

  /** `np.isclose(a, b, atol=tol)`: `|a - b| <= atol + rtol * |b|`. Only `b` scales the
      tolerance, so the test is not symmetric. */
  predicate IsClose(a: real, b: real) {
    Abs(a - b) <= Atol + Rtol * Abs(b)
  }

  /** The test of line 83: `np.allclose` on the coordinates and `np.isclose` on the occupancy,
      `up` being the position already kept. */
  predicate Duplicate(pos: Site, up: Site) {
    IsClose(pos.pos.x, up.pos.x) && IsClose(pos.pos.y, up.pos.y) && IsClose(pos.pos.z, up.pos.z)
    && IsClose(pos.occ, up.occ)
  }

  /** Two values within the absolute tolerance of each other are close, in both directions. */
  lemma CloseWithinAtol(a: real, b: real)
    requires Abs(a - b) <= Atol
    ensures IsClose(a, b) && IsClose(b, a)
  {
  }

  /** The test is not transitive: `0` and `0.000018` are both close to `0.000009`, in either
      order, but not to each other. */
  lemma CloseNotTransitive()
    ensures IsClose(0.0, 0.000009) && IsClose(0.000009, 0.0)
    ensures IsClose(0.000009, 0.000018) && IsClose(0.000018, 0.000009)
    ensures !IsClose(0.0, 0.000018) && !IsClose(0.000018, 0.0)
  {
  }

  /** The test is not symmetric: `0` is close to a kept value just above the tolerance, since
      that value widens the tolerance, but that value is not close to a kept `0`. */
  lemma CloseIsAsymmetric()
    ensures IsClose(0.0, 0.00001000005) && !IsClose(0.00001000005, 0.0)
  {
  }

  // ---------------------------------------------------------------------------
  // The scan

  /** Whether `pos` is a duplicate of one of `kept`. */
  predicate DuplicateOfAny<T>(dup: (T, T) -> bool, pos: T, kept: seq<T>) {
    exists j :: 0 <= j < |kept| && dup(pos, kept[j])
  }

  /** Whether no element of `ps` is a duplicate of one before it. */
  predicate Distinct<T>(dup: (T, T) -> bool, ps: seq<T>) {
    forall i, j :: 0 <= i < j < |ps| ==> !dup(ps[j], ps[i])
  }

  /** What `remove_duplicates` returns, one element at a time: the last element is kept when it
      is not a duplicate of an element kept from those before it. */
  function Dedup<T>(dup: (T, T) -> bool, ps: seq<T>): (r: seq<T>)
    ensures |r| <= |ps|
    ensures Distinct(dup, r)
    ensures |ps| > 0 ==> |r| > 0 && r[0] == ps[0]
  {
    if |ps| == 0 then []
    else
      var kept := Dedup(dup, ps[..|ps| - 1]);
      if DuplicateOfAny(dup, ps[|ps| - 1], kept) then kept else kept + [ps[|ps| - 1]]
  }

  /** Lines 77-87 as written: a scan over the elements with an inner scan over those kept so
      far that stops at the first duplicate. */
  method RemoveDuplicates<T>(dup: (T, T) -> bool, positions: seq<T>) returns (unique: seq<T>)
    ensures unique == Dedup(dup, positions)
  {
    unique := [];
    for n := 0 to |positions|
      invariant unique == Dedup(dup, positions[..n])
    {
      var pos := positions[n];
      var duplicate := false;
      var k := 0;
      while k < |unique|
        invariant k <= |unique|
        invariant forall j :: 0 <= j < k ==> !dup(pos, unique[j])
      {
        if dup(pos, unique[k]) {
          duplicate := true;
          break;
        }
        k := k + 1;
      }
      assert duplicate <==> DuplicateOfAny(dup, pos, unique);
      assert positions[..n + 1][..n] == positions[..n];
      if !duplicate {
        unique := unique + [pos];
      }
    }
    assert positions[..|positions|] == positions;
  }

  /** The indices of the kept elements, in increasing order. */
  function KeptIndices<T>(dup: (T, T) -> bool, ps: seq<T>): (idx: seq<nat>)
    ensures |idx| == |Dedup(dup, ps)|
    ensures forall m :: 0 <= m < |idx| ==> idx[m] < |ps|
    ensures forall m, m' :: 0 <= m < m' < |idx| ==> idx[m] < idx[m']
  {
    if |ps| == 0 then []
    else
      var prefix := ps[..|ps| - 1];
      if DuplicateOfAny(dup, ps[|ps| - 1], Dedup(dup, prefix)) then KeptIndices(dup, prefix)
      else KeptIndices(dup, prefix) + [|ps| - 1]
  }

  /** The kept elements are the elements at the kept indices: the result of
      `remove_duplicates` is a subsequence of its input, in the input's order. */
  lemma {:induction false} KeptAt<T>(dup: (T, T) -> bool, ps: seq<T>, m: nat)
    requires m < |KeptIndices(dup, ps)|
    ensures Dedup(dup, ps)[m] == ps[KeptIndices(dup, ps)[m]]
  {
    var n := |ps| - 1;
    var prefix := ps[..n];
    if m < |KeptIndices(dup, prefix)| {
      KeptAt(dup, prefix, m);
    }
  }

  /** An index before the last is kept exactly when it is kept from the list without its last
      element. */
  lemma KeptBeforeLast<T>(dup: (T, T) -> bool, ps: seq<T>, k: nat)
    requires k < |ps| - 1
    ensures k in KeptIndices(dup, ps) <==> k in KeptIndices(dup, ps[..|ps| - 1])
  {
  }

  /** The last element is kept exactly when it is not a duplicate of one kept before it. */
  lemma KeptLast<T>(dup: (T, T) -> bool, ps: seq<T>)
    requires |ps| > 0
    ensures |ps| - 1 in KeptIndices(dup, ps) <==> !DuplicateOfAny(dup, ps[|ps| - 1], Dedup(dup, ps[..|ps| - 1]))
  {
    assert |ps| - 1 !in KeptIndices(dup, ps[..|ps| - 1]);
  }

  /** Element `k` is kept exactly when it is not a duplicate of an element kept from those
      before it; so every element dropped is a duplicate of an element kept earlier. */
  lemma {:induction false} KeptIff<T>(dup: (T, T) -> bool, ps: seq<T>, k: nat)
    requires k < |ps|
    ensures k in KeptIndices(dup, ps) <==> !DuplicateOfAny(dup, ps[k], Dedup(dup, ps[..k]))
  {
    var prefix := ps[..|ps| - 1];
    if k < |ps| - 1 {
      KeptBeforeLast(dup, ps, k);
      KeptIff(dup, prefix, k);
      assert prefix[..k] == ps[..k] && prefix[k] == ps[k];
    } else {
      KeptLast(dup, ps);
    }
  }

  /** What is kept from a prefix of the list is a prefix of what is kept from the whole. */
  lemma {:induction false} DedupPrefix<T>(dup: (T, T) -> bool, ps: seq<T>, k: nat)
    requires k <= |ps|
    ensures Dedup(dup, ps[..k]) <= Dedup(dup, ps)
    decreases |ps|
  {
    if k < |ps| {
      var prefix := ps[..|ps| - 1];
      DedupPrefix(dup, prefix, k);
      assert prefix[..k] == ps[..k];
    } else {
      assert ps[..k] == ps;
    }
  }

  /** A list in which no element is a duplicate of an earlier one is returned unchanged. */
  lemma {:induction false} DedupOfDistinct<T>(dup: (T, T) -> bool, ps: seq<T>)
    requires Distinct(dup, ps)
    ensures Dedup(dup, ps) == ps
  {
    if |ps| > 0 {
      var n := |ps| - 1;
      var prefix := ps[..n];
      assert Distinct(dup, prefix);
      DedupOfDistinct(dup, prefix);
      assert !DuplicateOfAny(dup, ps[n], prefix) by {
        forall j | 0 <= j < |prefix|
          ensures !dup(ps[n], prefix[j])
        {
          assert prefix[j] == ps[j];
        }
      }
      assert prefix + [ps[n]] == ps;
    }
  }

  /** `remove_duplicates` leaves a list unchanged exactly when no element in it is a duplicate
      of an earlier one. */
  lemma DedupFixedPoint<T>(dup: (T, T) -> bool, ps: seq<T>)
    ensures Dedup(dup, ps) == ps <==> Distinct(dup, ps)
  {
    if Distinct(dup, ps) {
      DedupOfDistinct(dup, ps);
    }
  }

  /** Removing duplicates twice is removing them once. */
  lemma DedupIdempotent<T>(dup: (T, T) -> bool, ps: seq<T>)
    ensures Dedup(dup, Dedup(dup, ps)) == Dedup(dup, ps)
  {
    DedupOfDistinct(dup, Dedup(dup, ps));
  }

  /** A position on the x axis with full occupancy. */
  function OnAxis(x: real): Site {
    Site(Vec3(x, 0.0, 0.0), 1.0)
  }

  /** Three elements, the second a duplicate of the first and the third not: the first and
      the third are kept. */
  lemma KeepFirstAndThird<T>(dup: (T, T) -> bool, a: T, b: T, c: T)
    requires dup(b, a) && !dup(c, a)
    ensures Dedup(dup, [a, b, c]) == [a, c]
  {
    assert [a, b, c][..2] == [a, b] && [a, b][..1] == [a] && [a][..0] == [] && [a][0] == a;
    assert DuplicateOfAny(dup, b, [a]);
  }

  /** Three elements, the second and the third duplicates of the first: only the first is kept. */
  lemma KeepFirstOnly<T>(dup: (T, T) -> bool, a: T, b: T, c: T)
    requires dup(b, a) && dup(c, a)
    ensures Dedup(dup, [a, b, c]) == [a]
  {
    assert [a, b, c][..2] == [a, b] && [a, b][..1] == [a] && [a][..0] == [] && [a][0] == a;
    assert DuplicateOfAny(dup, b, [a]);
    assert DuplicateOfAny(dup, c, [a]);
  }

  /** Scanning `0, 0.000009, 0.000018` keeps the first and the last: the middle one is within
      the tolerance of the first, the last is not. */
  lemma ScanMiddleSecond()
    ensures Dedup(Duplicate, [OnAxis(0.0), OnAxis(0.000009), OnAxis(0.000018)]) == [OnAxis(0.0), OnAxis(0.000018)]
  {
    CloseNotTransitive();
    assert IsClose(0.0, 0.0) && IsClose(1.0, 1.0);
    KeepFirstAndThird(Duplicate, OnAxis(0.0), OnAxis(0.000009), OnAxis(0.000018));
  }

  /** Scanning `0.000009, 0, 0.000018` keeps the first only: both others are within the
      tolerance of it. */
  lemma ScanMiddleFirst()
    ensures Dedup(Duplicate, [OnAxis(0.000009), OnAxis(0.0), OnAxis(0.000018)]) == [OnAxis(0.000009)]
  {
    CloseNotTransitive();
    assert IsClose(0.0, 0.0) && IsClose(1.0, 1.0);
    KeepFirstOnly(Duplicate, OnAxis(0.000009), OnAxis(0.0), OnAxis(0.000018));
  }

  /** Since the test is not transitive, what is kept depends on the order of the scan: three
      positions each within the tolerance of the next keep two when the middle one comes second,
      and one when it comes first. */
  lemma DedupDependsOnOrder()
    ensures |Dedup(Duplicate, [OnAxis(0.0), OnAxis(0.000009), OnAxis(0.000018)])| == 2
    ensures |Dedup(Duplicate, [OnAxis(0.000009), OnAxis(0.0), OnAxis(0.000018)])| == 1
  {
    ScanMiddleSecond();
    ScanMiddleFirst();
  }

  /** Lines 89-90: every label keeps its key, and its list loses its duplicates: no longer than
      before, and with no position a duplicate of one kept before it. */
  function DedupAll(lists: map<string, seq<Site>>): (r: map<string, seq<Site>>)
    ensures r.Keys == lists.Keys
    ensures forall l :: l in r ==> |r[l]| <= |lists[l]| && Distinct(Duplicate, r[l])
    ensures forall l :: l in r ==> r[l] == Dedup(Duplicate, lists[l])
  {
    map l | l in lists :: Dedup(Duplicate, lists[l])
  }
}
