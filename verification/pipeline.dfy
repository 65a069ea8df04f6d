/** `build_sample` (lines 4-183) end to end: read the cell and the sites, parse the symmetry
    operations, generate and deduplicate the orbits, convert them to Cartesian coordinates and,
    unless `sample_size` is 1, replicate them over the supercell. The lattice vectors of lines
    13-16 come from a parameter `geometry`, and `float()` from a parameter `float`. */
module BuildSample {
  import opened Results
  import opened Vectors
  import opened SymOpParser
  import opened Sites
  import opened Orbits
  import opened Dedup
  import opened Supercell
  import opened SymOpExamples

  /** The exceptions `build_sample` can raise. */
  datatype BuildError =
    | InputFailed(input: InputError)     // lines 9-10
    | ParseFailed(parse: ParseError)     // line 63
    | SingularLattice                    // LinAlgError from `np.linalg.inv` on line 147

  /** The supercell lattice of lines 134-136: each lattice vector times `sample_size`. */
  function SuperLattice(lat: Lattice, n: int): Lattice {
    Lattice(lat.a.Scale(n as real), lat.b.Scale(n as real), lat.c.Scale(n as real))
  }

  /** Whether the matrix with the supercell lattice vectors as columns (line 146) has no inverse. */
  predicate Singular(lat: Lattice, n: int) {
    var s := SuperLattice(lat, n);
    Det(Columns(s.a, s.b, s.c)) == 0.0
  }

  /** The supercell lattice is singular exactly when `sample_size` is 0 or the unit-cell lattice
      is itself singular. */
  lemma SingularIff(lat: Lattice, n: int)
    ensures Singular(lat, n) <==> n == 0 || Det(Columns(lat.a, lat.b, lat.c)) == 0.0
  {
    var s := n as real;
    DetScale(lat.a, lat.b, lat.c, s);
    if s != 0.0 {
      assert s * s != 0.0;
      assert s * s * s != 0.0;
    }
  }

  /** The Cartesian unit cell of lines 57-109: the orbits of the sites under the parsed
      operations, deduplicated per label and converted. */
  function UnitCell(lat: Lattice, ops: seq<SymOp>, table: map<string, Site>): map<string, seq<Site>> {
    CartesianAll(lat, DedupAll(Orbits.Orbits(ops, table)))
  }

  /** Lines 57-183 once the input is read: the unit cell for `sample_size == 1`; otherwise the
      supercell, unless `np.linalg.inv` fails on the supercell lattice. */
  function Assemble(lat: Lattice, table: map<string, Site>, ops: seq<SymOp>, n: int): (r: Result<map<string, seq<Site>>, BuildError>)
    ensures r.Err? <==> n != 1 && (n == 0 || Det(Columns(lat.a, lat.b, lat.c)) == 0.0)
    ensures r.Err? ==> r.error == SingularLattice
    ensures r.Ok? ==> r.value.Keys == table.Keys
  {
    SingularIff(lat, n);
    var unit := UnitCell(lat, ops, table);
    if n == 1 then Ok(unit)
    else if Singular(lat, n) then Err(SingularLattice)
    else Ok(SupercellAll(lat, unit, n))
  }

  /** `build_sample(lattice_parameters, atomic_sites, symmetry_ops, sample_size)`: the
      dictionary returned, or the first exception raised. */
  function Build(float: Reader, geometry: Cell -> Lattice, params: seq<(string, string)>,
                 records: seq<map<string, string>>, ops: seq<string>, n: int): (r: Result<map<string, seq<Site>>, BuildError>)
    ensures ReadCell(float, params).Err? ==> r == Err(InputFailed(ReadCell(float, params).error))
    ensures ReadCell(float, params).Ok? && SiteTable(float, records).Err? ==>
              r == Err(InputFailed(SiteTable(float, records).error))
    ensures ReadCell(float, params).Ok? && SiteTable(float, records).Ok? && ParseAll(ops).Err? ==>
              r == Err(ParseFailed(ParseAll(ops).error))
    ensures ReadCell(float, params).Ok? && SiteTable(float, records).Ok? && ParseAll(ops).Ok? ==>
              r == Assemble(geometry(ReadCell(float, params).value), SiteTable(float, records).value, ParseAll(ops).value, n)
    ensures r.Ok? ==> r.value.Keys == set k | 0 <= k < |records| :: records[k]["element"]
  {
    match ReadCell(float, params)
    case Err(e) => Err(InputFailed(e))
    case Ok(cell) =>
      match SiteTable(float, records)
      case Err(e) => Err(InputFailed(e))
      case Ok(table) =>
        match ParseAll(ops)
        case Err(e) => Err(ParseFailed(e))
        case Ok(sops) => Assemble(geometry(cell), table, sops, n)
  }

  /** Each position kept for a label is the image of the label's site under one of the
      operations, with the site's occupancy. */
  lemma {:induction false} KeptAreImages(sops: seq<SymOp>, table: map<string, Site>, l: string, x: Site)
    requires l in table && x in Dedup.Dedup(Duplicate, Orbits.Orbits(sops, table)[l])
    ensures exists k :: 0 <= k < |sops| && x == Image(sops[k], table[l])
  {
    var orbit := Orbits.Orbits(sops, table)[l];
    var kept := Dedup.Dedup(Duplicate, orbit);
    var m :| 0 <= m < |kept| && kept[m] == x;
    KeptAt(Duplicate, orbit, m);
    var k := KeptIndices(Duplicate, orbit)[m];
    assert k < |sops|;
    assert x == orbit[k] == Image(sops[k], table[l]);
  }

  /** With `sample_size == 1` each label gets the Cartesian images of its site under the
      operations, with the occupancy of the site, no two of them duplicates in the order
      kept, and at most one per operation. */
  lemma UnitCellResult(lat: Lattice, table: map<string, Site>, sops: seq<SymOp>, l: string)
    requires l in table
    ensures Assemble(lat, table, sops, 1).Ok?
    ensures var r := Assemble(lat, table, sops, 1).value;
            var kept := Dedup.Dedup(Duplicate, Orbits.Orbits(sops, table)[l]);
            && l in r
            && r[l] == CartesianList(lat, kept)
            && |r[l]| <= |sops|
            && Distinct(Duplicate, kept)
            && forall x :: x in kept ==> exists k :: 0 <= k < |sops| && x == Image(sops[k], table[l])
  {
    forall x | x in Dedup.Dedup(Duplicate, Orbits.Orbits(sops, table)[l])
      ensures exists k :: 0 <= k < |sops| && x == Image(sops[k], table[l])
    {
      KeptAreImages(sops, table, l, x);
    }
  }

  /** With any other `sample_size`, when the build goes through, each label gets `n^3` copies
      (none when `n < 0`) of each position of its Cartesian unit-cell list: the copy of
      position `m` in cell `(i, j, k)` is entry `EntryIndex(n, m, i, j, k)`. */
  lemma SupercellResult(lat: Lattice, table: map<string, Site>, sops: seq<SymOp>, n: int, l: string)
    requires l in table && n != 1
    ensures var r := Assemble(lat, table, sops, n);
            var unit := UnitCell(lat, sops, table)[l];
            r.Ok? ==>
              && l in r.value
              && r.value[l] == SupercellList(lat, unit, n)
              && |r.value[l]| == |unit| * (Count(n) * Count(n) * Count(n))
              && forall m, i, j, k :: 0 <= m < |unit| && 0 <= i < Count(n) && 0 <= j < Count(n) && 0 <= k < Count(n) ==>
                   && EntryIndex(Count(n), m, i, j, k) < |r.value[l]|
                   && r.value[l][EntryIndex(Count(n), m, i, j, k)] == Shifted(lat, unit[m], i, j, k)
  {
    SupercellLength(lat, UnitCell(lat, sops, table)[l], n);
  }

  /** With a negative `sample_size` the loops of lines 121-123 run zero times: a build that
      goes through returns every label with an empty list. */
  lemma NegativeSizeEmpty(lat: Lattice, table: map<string, Site>, sops: seq<SymOp>, n: int, l: string)
    requires n < 0 && l in table
    ensures var r := Assemble(lat, table, sops, n);
            r.Ok? ==> l in r.value && r.value[l] == []
  {
    var r := Assemble(lat, table, sops, n);
    if r.Ok? {
      var unit := UnitCell(lat, sops, table)[l];
      SupercellResult(lat, table, sops, n, l);
      assert Count(n) == 0;
      assert |r.value[l]| == |unit| * 0;
    }
  }

  /** Under the identity operation every site is its own image. */
  lemma IdentityFixesSite(s: Site)
    ensures Image(SymOp(Identity, Zero), s) == s
  {
    MulIdentity(s.pos);
  }

  /** When the first operation is `x,y,z`, as it conventionally is, the first position of each
      label's unit-cell list is the label's own site in Cartesian coordinates. */
  lemma IdentityFirst(lat: Lattice, table: map<string, Site>, ops: seq<string>, l: string)
    requires |ops| > 0 && ops[0] == "x,y,z" && ParseAll(ops).Ok? && l in table
    ensures var unit := UnitCell(lat, ParseAll(ops).value, table);
            l in unit && |unit[l]| > 0 && unit[l][0] == Site(ToCartesian(lat, table[l].pos), table[l].occ)
  {
    var sops := ParseAll(ops).value;
    IdentityExample();
    assert sops[0] == SymOp(Identity, Zero);
    var orbit := Orbits.Orbits(sops, table)[l];
    IdentityFixesSite(table[l]);
    assert orbit[0] == table[l];
    var kept := DedupAll(Orbits.Orbits(sops, table))[l];
    assert kept == Dedup.Dedup(Duplicate, orbit);
    assert kept[0] == table[l];
  }
}
