/** Lines 57-69 of `build_sample`: every symmetry operation, in order, is applied to every site
    of the table, and the image `M p + t`, with the site's occupancy, is appended to the list of
    the site's label. */
module Orbits {
  import opened Results
  import opened Vectors
  import opened SymOpParser
  import opened Sites

  /** The image of a site under an operation; the occupancy is carried over. */
  function Image(op: SymOp, s: Site): Site {
    Site(op.Apply(s.pos), s.occ)
  }

  /** One pass of the outer loop: each label's list gets the image of its site under `op`. */
  function Step(lists: map<string, seq<Site>>, table: map<string, Site>, op: SymOp): (r: map<string, seq<Site>>)
    requires lists.Keys == table.Keys
    ensures r.Keys == table.Keys
    ensures forall l :: l in r ==> r[l] == lists[l] + [Image(op, table[l])]
  {
    map l | l in lists :: lists[l] + [Image(op, table[l])]
  }

  /** Lines 59-69: the lists after the loop over `ops`, starting from one empty list per label. */
  function Orbits(ops: seq<SymOp>, table: map<string, Site>): (r: map<string, seq<Site>>)
    ensures r.Keys == table.Keys
    ensures forall l :: l in r ==> |r[l]| == |ops|
    ensures forall l, k :: l in r && 0 <= k < |ops| ==> r[l][k] == Image(ops[k], table[l])
  {
    if |ops| == 0 then map l | l in table :: []
    else Step(Orbits(ops[..|ops| - 1], table), table, ops[|ops| - 1])
  }

  /** Each label's list depends on its own site only: another label's site, or whether it is
      there at all, does not change it. */
  lemma {:induction false} OrbitOfOwnSite(ops: seq<SymOp>, t1: map<string, Site>, t2: map<string, Site>, l: string)
    requires l in t1 && l in t2 && t1[l] == t2[l]
    ensures Orbits(ops, t1)[l] == Orbits(ops, t2)[l]
  {
    var r1, r2 := Orbits(ops, t1)[l], Orbits(ops, t2)[l];
    forall k | 0 <= k < |ops|
      ensures r1[k] == r2[k]
    {
      assert r1[k] == Image(ops[k], t1[l]);
      assert r2[k] == Image(ops[k], t2[l]);
    }
  }

  /** Lines 62-63 with the loop: every operation string is parsed in order, and the first that
      raises stops the build. */
  function ParseAll(ops: seq<string>): (r: Result<seq<SymOp>, ParseError>)
    ensures r.Ok? <==> forall k :: 0 <= k < |ops| ==> ParseOperation(ops[k]).Ok?
    ensures r.Ok? ==> |r.value| == |ops| && forall k :: 0 <= k < |ops| ==> ParseOperation(ops[k]) == Ok(r.value[k])
  {
    MapResult(ParseOperation, ops)
  }

  /** The error is that of the first operation that cannot be parsed. */
  lemma ParseAllFirstError(ops: seq<string>, k: nat)
    requires k < |ops| && ParseOperation(ops[k]).Err?
    requires forall j :: 0 <= j < k ==> ParseOperation(ops[j]).Ok?
    ensures ParseAll(ops) == Err(ParseOperation(ops[k]).error)
  {
    MapResultFirstError(ParseOperation, ops, k);
  }
}
