/** Lines 9-10 of `build_sample`: the unit-cell parameters and the atomic sites read from their
    string values. Every value is cut at its first `(` and handed to `float()`; the six cell
    parameters are taken in the order of the dictionary, whatever their keys; the sites go into
    a dictionary keyed by element label, so a later site with the same label replaces an earlier
    one. `float()` itself is a parameter: it gives the value of a numeric string, or nothing
    where Python raises `ValueError`. */
module Sites {
  import opened Results
  import opened Vectors
  import opened Text

  /** The six unit-cell parameters `a, b, c, alpha, beta, gamma`. */
  datatype Cell = Cell(a: real, b: real, c: real, alpha: real, beta: real, gamma: real)

  /** A site: a position and an occupancy (the tuple `(x, y, z, occupancy)`). */
  datatype Site = Site(pos: Vec3, occ: real)

  /** The exceptions reading the input can raise. */
  datatype InputError =
    | NotANumber(text: string)      // ValueError from `float()`
    | ParameterCount(count: nat)    // ValueError from unpacking into six names
    | MissingKey(key: string)       // KeyError from a site record without the key

  /** `float()` on a string: its value, or `None` where Python raises. */
  type Reader = string -> Option<real>

  /** `float(value.split("(")[0])` */
  function ReadNumber(float: Reader, value: string): (r: Result<real, InputError>)
    ensures r.Ok? <==> float(StripAnnotation(value)).Some?
    ensures r.Ok? ==> float(StripAnnotation(value)) == Some(r.value)
    ensures r.Err? ==> r.error == NotANumber(StripAnnotation(value))
  {
    match float(StripAnnotation(value))
    case Some(x) => Ok(x)
    case None => Err(NotANumber(StripAnnotation(value)))
  }

  // ---------------------------------------------------------------------------
  // The cell parameters (line 9)

  /** The values of an ordered dictionary, in order. */
  function Values(entries: seq<(string, string)>): (vs: seq<string>)
    ensures |vs| == |entries| && forall k :: 0 <= k < |entries| ==> vs[k] == entries[k].1
  {
    if |entries| == 0 then [] else [entries[0].1] + Values(entries[1..])
  }

  /** Line 9: every parameter is read in dictionary order, and the six names are then bound
      by position, so the keys are never looked at. */
  function ReadCell(float: Reader, params: seq<(string, string)>): (r: Result<Cell, InputError>)
    ensures r.Ok? <==> |params| == 6 && forall k :: 0 <= k < 6 ==> float(StripAnnotation(params[k].1)).Some?
    ensures r.Ok? ==>
              && float(StripAnnotation(params[0].1)) == Some(r.value.a)
              && float(StripAnnotation(params[1].1)) == Some(r.value.b)
              && float(StripAnnotation(params[2].1)) == Some(r.value.c)
              && float(StripAnnotation(params[3].1)) == Some(r.value.alpha)
              && float(StripAnnotation(params[4].1)) == Some(r.value.beta)
              && float(StripAnnotation(params[5].1)) == Some(r.value.gamma)
    ensures |params| != 6 && (forall k :: 0 <= k < |params| ==> float(StripAnnotation(params[k].1)).Some?) ==>
              r == Err(ParameterCount(|params|))
  {
    var vs := Values(params);
    var xs :- MapResult(v => ReadNumber(float, v), vs);
    if |xs| != 6 then Err(ParameterCount(|xs|))
    else Ok(Cell(xs[0], xs[1], xs[2], xs[3], xs[4], xs[5]))
  }

  /** A parameter that `float()` rejects is reported before the count is checked, as the list
      is built before it is unpacked. */
  lemma CellFirstBadValue(float: Reader, params: seq<(string, string)>, k: nat)
    requires k < |params| && float(StripAnnotation(params[k].1)).None?
    requires forall j :: 0 <= j < k ==> float(StripAnnotation(params[j].1)).Some?
    ensures ReadCell(float, params) == Err(NotANumber(StripAnnotation(params[k].1)))
  {
    MapResultFirstError(v => ReadNumber(float, v), Values(params), k);
  }

  /** The keys of the cell dictionary do not matter, only its values and their order. */
  lemma CellIgnoresKeys(float: Reader, p: seq<(string, string)>, q: seq<(string, string)>)
    requires |p| == |q| && forall k :: 0 <= k < |p| ==> p[k].1 == q[k].1
    ensures ReadCell(float, p) == ReadCell(float, q)
  {
    assert Values(p) == Values(q);
  }

  // ---------------------------------------------------------------------------
  // The site table (line 10)

  /** `record[key]` read as a number. */
  function Field(float: Reader, record: map<string, string>, key: string): (r: Result<real, InputError>)
    ensures key !in record ==> r == Err(MissingKey(key))
    ensures key in record ==> r == ReadNumber(float, record[key])
  {
    if key !in record then Err(MissingKey(key)) else ReadNumber(float, record[key])
  }

  /** One entry of the site dictionary: the element label (not stripped) and the site. The key
      is evaluated before the value, and the value's fields in the order x, y, z, occupancy. */
  function ReadSite(float: Reader, record: map<string, string>): (r: Result<(string, Site), InputError>)
    ensures "element" !in record ==> r == Err(MissingKey("element"))
    ensures "element" in record && Field(float, record, "x").Err? ==> r == Err(Field(float, record, "x").error)
    ensures "element" in record && Field(float, record, "x").Ok? && Field(float, record, "y").Err? ==>
              r == Err(Field(float, record, "y").error)
    ensures ("element" in record && Field(float, record, "x").Ok? && Field(float, record, "y").Ok?
             && Field(float, record, "z").Err?) ==>
              r == Err(Field(float, record, "z").error)
    ensures ("element" in record && Field(float, record, "x").Ok? && Field(float, record, "y").Ok?
             && Field(float, record, "z").Ok? && Field(float, record, "occupancy").Err?) ==>
              r == Err(Field(float, record, "occupancy").error)
    ensures r.Ok? ==>
              && "element" in record && r.value.0 == record["element"]
              && Field(float, record, "x") == Ok(r.value.1.pos.x)
              && Field(float, record, "y") == Ok(r.value.1.pos.y)
              && Field(float, record, "z") == Ok(r.value.1.pos.z)
              && Field(float, record, "occupancy") == Ok(r.value.1.occ)
    ensures "element" in record && (forall key | key in ["x", "y", "z", "occupancy"] :: Field(float, record, key).Ok?) ==>
              r.Ok?
  {
    if "element" !in record then Err(MissingKey("element"))
    else
      var x :- Field(float, record, "x");
      var y :- Field(float, record, "y");
      var z :- Field(float, record, "z");
      var occ :- Field(float, record, "occupancy");
      Ok((record["element"], Site(Vec3(x, y, z), occ)))
  }

  /** A dictionary built from `(label, site)` pairs in order: a later pair with a label already
      present replaces the earlier one. */
  function Table(entries: seq<(string, Site)>): (t: map<string, Site>)
    ensures t.Keys == set k | 0 <= k < |entries| :: entries[k].0
  {
    if |entries| == 0 then map[]
    else Table(entries[..|entries| - 1])[entries[|entries| - 1].0 := entries[|entries| - 1].1]
  }

  /** Whether no entry after `k` has the label of entry `k`. */
  predicate IsLastWithLabel(entries: seq<(string, Site)>, k: nat)
    requires k < |entries|
  {
    forall j :: k < j < |entries| ==> entries[j].0 != entries[k].0
  }

  /** The table holds, for each label, the site of the last entry with that label. */
  lemma {:induction false} TableLastWins(entries: seq<(string, Site)>, k: nat)
    requires k < |entries| && IsLastWithLabel(entries, k)
    ensures entries[k].0 in Table(entries)
    ensures Table(entries)[entries[k].0] == entries[k].1
  {
    var n := |entries| - 1;
    if k < n {
      var prefix := entries[..n];
      assert IsLastWithLabel(prefix, k) by {
        forall j | k < j < |prefix| ensures prefix[j].0 != prefix[k].0 {
          assert prefix[j] == entries[j];
        }
      }
      TableLastWins(prefix, k);
      assert entries[n].0 != entries[k].0;
    }
  }

  /** Lines 9-10 for the sites: the first failing record's error, or the label-keyed table. */
  function SiteTable(float: Reader, records: seq<map<string, string>>): (r: Result<map<string, Site>, InputError>)
    ensures r.Ok? <==> forall k :: 0 <= k < |records| ==> ReadSite(float, records[k]).Ok?
    ensures r.Ok? ==> forall k :: 0 <= k < |records| ==> "element" in records[k]
    ensures r.Ok? ==> r.value.Keys == set k | 0 <= k < |records| :: records[k]["element"]
  {
    var entries :- MapResult(rec => ReadSite(float, rec), records);
    assert forall k :: 0 <= k < |records| ==> entries[k].0 == records[k]["element"] by {
      forall k | 0 <= k < |records| ensures entries[k].0 == records[k]["element"] {
        assert ReadSite(float, records[k]) == Ok(entries[k]);
      }
    }
    Ok(Table(entries))
  }

  /** The error reported is that of the first record that cannot be read. */
  lemma SiteTableFirstError(float: Reader, records: seq<map<string, string>>, k: nat)
    requires k < |records| && ReadSite(float, records[k]).Err?
    requires forall j :: 0 <= j < k ==> ReadSite(float, records[j]).Ok?
    ensures SiteTable(float, records) == Err(ReadSite(float, records[k]).error)
  {
    MapResultFirstError(rec => ReadSite(float, rec), records, k);
  }

  /** The table has one key per distinct label, and each holds the last site read for it. */
  lemma SiteTableLastWins(float: Reader, records: seq<map<string, string>>, k: nat)
    requires SiteTable(float, records).Ok? && k < |records|
    requires forall j :: k < j < |records| ==> records[j]["element"] != records[k]["element"]
    ensures "element" in records[k]
    ensures var t := SiteTable(float, records).value;
            records[k]["element"] in t && ReadSite(float, records[k]) == Ok((records[k]["element"], t[records[k]["element"]]))
  {
    var entries := MapResult(rec => ReadSite(float, rec), records).value;
    assert forall j :: 0 <= j < |records| ==> ReadSite(float, records[j]) == Ok(entries[j]);
    TableLastWins(entries, k);
  }
}
