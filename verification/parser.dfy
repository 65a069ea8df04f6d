/** `parse_symmetry_operation`: a symmetry-operation string such as `-y,x-y,+z` read into the
    affine map `p -> M p + t`. The string is split on commas; part `i`, with its spaces removed,
    is tokenized and every non-empty token adds its coefficient to `M[i, var]` when it names a
    variable and to `t[i]` otherwise. Nothing is rejected up front: the only failures are the
    exceptions Python raises on the way. */
module SymOpParser {
  import opened Results
  import opened Vectors
  import opened Text
  import opened Lexer

  /** The exceptions `parse_symmetry_operation` can raise. */
  datatype ParseError =
    | InvalidLiteral(literal: string)  // SyntaxError from `eval`: an integer with a leading zero
    | DivisionByZero                   // ZeroDivisionError from `eval` of `p/0`
    | RowOutOfRange(row: nat)          // IndexError: a term in a fourth or later part

  /** The affine map `p -> m p + t` of a symmetry operation. */
  datatype SymOp = SymOp(m: Mat3, t: Vec3) {

    function Apply(p: Vec3): Vec3 {
      m.Mul(p).Plus(t)
    }

    /** Row `i` of the map: the coefficients of x, y, z and the constant term of output `i`. */
    function RowAt(i: nat): Row
      requires i < 3
    {
      Row(m.Row(i), t.At(i))
    }
  }

  /** One output coordinate of an affine map: `coeffs . p + shift`. */
  datatype Row = Row(coeffs: Vec3, shift: real) {

    function Plus(r: Row): Row {
      Row(coeffs.Plus(r.coeffs), shift + r.shift)
    }
  }

  const ZeroRow := Row(Zero, 0.0)
  const ZeroOp := SymOp(ZeroMat, Zero)

  // ---------------------------------------------------------------------------
  // Literals and coefficients

  function Pow10(n: nat): (r: nat)
    ensures r >= 1
  {
    if n == 0 then 1 else 10 * Pow10(n - 1)
  }

  /** `float(eval(number))` for a number the tokenizer matched, in exact arithmetic. Python parses
      the whole literal before evaluating it, so an integer with a leading zero is reported
      before a division by zero. */
  function EvalNumber(lit: string): (r: Result<real, ParseError>)
    requires IsNumberText(lit)
    ensures r.Ok? ==> r.value >= 0.0
    ensures IsDigitsText(lit) ==> (r.Err? <==> !IsIntLiteral(lit)) && (r.Err? ==> r.error == InvalidLiteral(lit))
    ensures IsDecimalText(lit) ==> r.Ok?
    ensures IsFractionText(lit) ==>
              var p, q := lit[..Find(lit, '/')], lit[Find(lit, '/') + 1..];
              && (r == Err(InvalidLiteral(lit)) <==> !IsIntLiteral(p) || !IsIntLiteral(q))
              && (r == Err(DivisionByZero) <==> IsIntLiteral(p) && IsIntLiteral(q) && DigitsValue(q) == 0)
  {
    NoSlashOutsideFraction(lit);
    var slash := Find(lit, '/');
    var dot := Find(lit, '.');
    if slash < |lit| then
      var p, q := lit[..slash], lit[slash + 1..];
      if !IsIntLiteral(p) || !IsIntLiteral(q) then Err(InvalidLiteral(lit))
      else if DigitsValue(q) == 0 then Err(DivisionByZero)
      else Ok(DigitsValue(p) as real / DigitsValue(q) as real)
    else if dot < |lit| then
      var whole, frac := lit[..dot], lit[dot + 1..];
      Ok(DigitsValue(whole) as real + DigitsValue(frac) as real / Pow10(|frac|) as real)
    else if !IsIntLiteral(lit) then Err(InvalidLiteral(lit))
    else Ok(DigitsValue(lit) as real)
  }

  /** A number with no fraction bar is an integer or a decimal, and a decimal has one point. */
  lemma NoSlashOutsideFraction(lit: string)
    ensures IsDigitsText(lit) ==> Find(lit, '/') == |lit| && Find(lit, '.') == |lit|
    ensures IsDecimalText(lit) ==> Find(lit, '/') == |lit|
  {
    if IsDigitsText(lit) {
      assert !IsDigit('/') && !IsDigit('.');
    }
    if IsDecimalText(lit) {
      var k := Find(lit, '.');
      var f := lit[k + 1..];
      forall i | 0 <= i < |lit|
        ensures lit[i] != '/'
      {
        if i < k {
          assert lit[i] == lit[..k][i];
        } else if i > k {
          assert lit[i] == f[i - k - 1];
        }
      }
    }
  }

  /** The signed coefficient of a non-empty token: its number, or 1 when it has none, negated
      when its sign is `-`. */
  function Coefficient(g: Group): (r: Result<real, ParseError>)
    requires g.Valid()
    ensures g.number == "" ==> r == Ok(if g.sign == "-" then -1.0 else 1.0)
    ensures g.number != "" ==> var e := EvalNumber(g.number);
              && (r.Err? <==> e.Err?)
              && (r.Err? ==> r.error == e.error)
              && (r.Ok? ==> r.value == if g.sign == "-" then -e.value else e.value)
    ensures r.Ok? && g.sign == "-" ==> r.value <= 0.0
    ensures r.Ok? && g.sign != "-" ==> r.value >= 0.0
  {
    var magnitude :- if g.number == "" then Ok(1.0) else EvalNumber(g.number);
    Ok(if g.sign == "-" then -magnitude else magnitude)
  }

  /** `variables.index(var)`: 0 for `x`, 1 for `y`, 2 for `z`. */
  function VariableIndex(v: string): (j: nat)
    requires |v| == 1 && IsVariable(v[0])
    ensures j < 3 && ["x", "y", "z"][j] == v
  {
    if v[0] == 'x' then 0 else if v[0] == 'y' then 1 else 2
  }

  // ---------------------------------------------------------------------------
  // Accumulation, as the source does it

  /** One pass of the token loop for part `i`: an empty token is skipped; otherwise the
      coefficient is added to `M[i, var]` or, when there is no variable, to `t[i]`. Only that one
      entry changes. */
  function ApplyGroup(op: SymOp, i: nat, g: Group): (r: Result<SymOp, ParseError>)
    requires g.Valid()
    ensures r.Ok? <==> g.IsEmpty() || (Coefficient(g).Ok? && i < 3)
    ensures !g.IsEmpty() && Coefficient(g).Err? ==> r == Err(Coefficient(g).error)
    ensures !g.IsEmpty() && Coefficient(g).Ok? && i >= 3 ==> r == Err(RowOutOfRange(i))
    ensures r.Ok? && g.variable != "" ==>
              r.value.t == op.t
              && r.value.m.At(i, VariableIndex(g.variable)) == op.m.At(i, VariableIndex(g.variable)) + Coefficient(g).value
              && forall i', j' :: 0 <= i' < 3 && 0 <= j' < 3 && (i', j') != (i, VariableIndex(g.variable)) ==>
                   r.value.m.At(i', j') == op.m.At(i', j')
    ensures r.Ok? && !g.IsEmpty() && g.variable == "" ==>
              r.value.m == op.m
              && r.value.t.At(i) == op.t.At(i) + Coefficient(g).value
              && forall k :: 0 <= k < 3 && k != i ==> r.value.t.At(k) == op.t.At(k)
  {
    if g.IsEmpty() then Ok(op)
    else
      var c :- Coefficient(g);
      if i >= 3 then Err(RowOutOfRange(i))
      else if g.variable != "" then Ok(SymOp(op.m.AddAt(i, VariableIndex(g.variable), c), op.t))
      else Ok(SymOp(op.m, op.t.AddAt(i, c)))
  }

  /** The token loop over part `i`, in order; the first exception ends the parse. */
  function ApplyGroups(op: SymOp, i: nat, gs: seq<Group>): Result<SymOp, ParseError>
    requires forall k :: 0 <= k < |gs| ==> gs[k].Valid()
    decreases |gs|
  {
    if |gs| == 0 then Ok(op)
    else
      var op' :- ApplyGroup(op, i, gs[0]);
      ApplyGroups(op', i, gs[1..])
  }

  /** A list of `findall` tuples, each a tuple of the sub-patterns. */
  type TokenList = gs: seq<Group> | forall k :: 0 <= k < |gs| ==> gs[k].Valid()

  /** The tokens of one part: `findall` over the part with its spaces removed. */
  function Tokens(part: string): TokenList {
    FindAll(RemoveSpaces(part))
  }

  /** The tokens of every part, in order. Tokenizing never raises, so tokenizing all parts
      before the loop, rather than each at its turn, changes nothing. */
  function PartTokens(parts: seq<string>): (tss: seq<TokenList>)
    ensures |tss| == |parts|
  {
    if |parts| == 0 then [] else [Tokens(parts[0])] + PartTokens(parts[1..])
  }

  /** The `k`-th token list is that of the `k`-th part. */
  lemma {:induction false} PartTokensAt(parts: seq<string>, k: nat)
    requires k < |parts|
    ensures PartTokens(parts)[k] == Tokens(parts[k])
  {
    if k > 0 {
      PartTokensAt(parts[1..], k - 1);
    }
  }

  /** The loop over the parts, `i` being the index of the part whose tokens are `tss[0]`. */
  function ApplyParts(op: SymOp, i: nat, tss: seq<TokenList>): Result<SymOp, ParseError>
    decreases |tss|
  {
    if |tss| == 0 then Ok(op)
    else
      var op' :- ApplyGroups(op, i, tss[0]);
      ApplyParts(op', i + 1, tss[1..])
  }

  /** `parse_symmetry_operation(sym_op)`, starting from the zero matrix and vector. */
  function ParseOperation(s: string): Result<SymOp, ParseError> {
    ApplyParts(ZeroOp, 0, PartTokens(Split(s, ',')))
  }

  // ---------------------------------------------------------------------------
  // The reference reading: each row is the sum of its own part's terms

  /** The row a list of tokens denotes: the coefficients of its terms summed per variable, the
      terms without a variable summed into the constant; the first failing literal is the error. */
  function RowOf(gs: seq<Group>): Result<Row, ParseError>
    requires forall k :: 0 <= k < |gs| ==> gs[k].Valid()
  {
    if |gs| == 0 then Ok(ZeroRow)
    else if gs[0].IsEmpty() then RowOf(gs[1..])
    else
      var c :- Coefficient(gs[0]);
      var rest :- RowOf(gs[1..]);
      Ok(TermRow(gs[0], c).Plus(rest))
  }

  /** The row of a single term with coefficient `c`. */
  function TermRow(g: Group, c: real): Row
    requires g.Valid()
  {
    if g.variable != "" then Row(Zero.AddAt(VariableIndex(g.variable), c), 0.0) else Row(Zero, c)
  }

  /** Whether a list of tokens holds no term at all. */
  predicate NoTerms(gs: seq<Group>) {
    forall k :: 0 <= k < |gs| ==> gs[k].IsEmpty()
  }

  /** `op` with `row` added to its row `i`. */
  function AddRow(op: SymOp, i: nat, row: Row): (r: SymOp)
    requires i < 3
    ensures r.RowAt(i) == op.RowAt(i).Plus(row)
    ensures forall k :: 0 <= k < 3 && k != i ==> r.RowAt(k) == op.RowAt(k)
  {
    SymOp(op.m.WithRow(i, op.m.Row(i).Plus(row.coeffs)), op.t.AddAt(i, row.shift))
  }

  // ---------------------------------------------------------------------------
  // The accumulation agrees with the reference reading

  lemma AddRowTwice(op: SymOp, i: nat, a: Row, b: Row)
    requires i < 3
    ensures AddRow(AddRow(op, i, a), i, b) == AddRow(op, i, a.Plus(b))
  {
    var l, r := AddRow(AddRow(op, i, a), i, b), AddRow(op, i, a.Plus(b));
    forall k | 0 <= k < 3
      ensures l.RowAt(k) == r.RowAt(k)
    {
    }
    assert l.m.r0 == r.m.r0 by { assert l.RowAt(0) == r.RowAt(0); }
    assert l.m.r1 == r.m.r1 by { assert l.RowAt(1) == r.RowAt(1); }
    assert l.m.r2 == r.m.r2 by { assert l.RowAt(2) == r.RowAt(2); }
    assert l.t.x == r.t.x by { assert l.RowAt(0) == r.RowAt(0); }
    assert l.t.y == r.t.y by { assert l.RowAt(1) == r.RowAt(1); }
    assert l.t.z == r.t.z by { assert l.RowAt(2) == r.RowAt(2); }
  }

  lemma AddZeroRow(op: SymOp, i: nat)
    requires i < 3
    ensures AddRow(op, i, ZeroRow) == op
  {
    var l := AddRow(op, i, ZeroRow);
    assert l.m.r0 == op.m.r0 by { assert l.RowAt(0) == op.RowAt(0); }
    assert l.m.r1 == op.m.r1 by { assert l.RowAt(1) == op.RowAt(1); }
    assert l.m.r2 == op.m.r2 by { assert l.RowAt(2) == op.RowAt(2); }
    assert l.t.x == op.t.x by { assert l.RowAt(0) == op.RowAt(0); }
    assert l.t.y == op.t.y by { assert l.RowAt(1) == op.RowAt(1); }
    assert l.t.z == op.t.z by { assert l.RowAt(2) == op.RowAt(2); }
  }

  /** One step of the source's loop adds the token's own row. */
  lemma ApplyGroupIsAddRow(op: SymOp, i: nat, g: Group)
    requires i < 3 && g.Valid() && !g.IsEmpty() && Coefficient(g).Ok?
    ensures ApplyGroup(op, i, g) == Ok(AddRow(op, i, TermRow(g, Coefficient(g).value)))
  {
    var l, r := ApplyGroup(op, i, g).value, AddRow(op, i, TermRow(g, Coefficient(g).value));
    forall k | 0 <= k < 3
      ensures l.RowAt(k) == r.RowAt(k)
    {
    }
    assert l.m.r0 == r.m.r0 by { assert l.RowAt(0) == r.RowAt(0); }
    assert l.m.r1 == r.m.r1 by { assert l.RowAt(1) == r.RowAt(1); }
    assert l.m.r2 == r.m.r2 by { assert l.RowAt(2) == r.RowAt(2); }
    assert l.t.x == r.t.x by { assert l.RowAt(0) == r.RowAt(0); }
    assert l.t.y == r.t.y by { assert l.RowAt(1) == r.RowAt(1); }
    assert l.t.z == r.t.z by { assert l.RowAt(2) == r.RowAt(2); }
  }

  /** Accumulating the tokens of part `i < 3` into the matrix adds exactly the row they denote,
      or fails with the error of the first failing literal. */
  lemma {:induction false} ApplyGroupsIsRowSum(op: SymOp, i: nat, gs: seq<Group>)
    requires i < 3
    requires forall k :: 0 <= k < |gs| ==> gs[k].Valid()
    ensures RowOf(gs).Ok? ==> ApplyGroups(op, i, gs) == Ok(AddRow(op, i, RowOf(gs).value))
    ensures RowOf(gs).Err? ==> ApplyGroups(op, i, gs) == Err(RowOf(gs).error)
    decreases |gs|
  {
    if |gs| == 0 {
      AddZeroRow(op, i);
    } else if gs[0].IsEmpty() {
      ApplyGroupsIsRowSum(op, i, gs[1..]);
      assert ApplyGroups(op, i, gs) == ApplyGroups(op, i, gs[1..]);
      assert RowOf(gs) == RowOf(gs[1..]);
    } else if Coefficient(gs[0]).Ok? {
      var c := Coefficient(gs[0]).value;
      ApplyGroupIsAddRow(op, i, gs[0]);
      var op' := AddRow(op, i, TermRow(gs[0], c));
      assert ApplyGroups(op, i, gs) == ApplyGroups(op', i, gs[1..]);
      ApplyGroupsIsRowSum(op', i, gs[1..]);
      if RowOf(gs[1..]).Ok? {
        assert RowOf(gs) == Ok(TermRow(gs[0], c).Plus(RowOf(gs[1..]).value));
        AddRowTwice(op, i, TermRow(gs[0], c), RowOf(gs[1..]).value);
      } else {
        assert RowOf(gs) == Err(RowOf(gs[1..]).error);
      }
    } else {
      assert RowOf(gs) == Err(Coefficient(gs[0]).error);
      assert ApplyGroup(op, i, gs[0]) == Err(Coefficient(gs[0]).error);
    }
  }

  /** A token list accumulated into a fourth or later row succeeds only when it holds no term,
      and then changes nothing. */
  lemma {:induction false} ApplyGroupsBeyondRows(op: SymOp, i: nat, gs: seq<Group>)
    requires i >= 3
    requires forall k :: 0 <= k < |gs| ==> gs[k].Valid()
    ensures ApplyGroups(op, i, gs).Ok? <==> NoTerms(gs)
    ensures ApplyGroups(op, i, gs).Ok? ==> ApplyGroups(op, i, gs).value == op
    decreases |gs|
  {
    if |gs| > 0 {
      ApplyGroupsBeyondRows(op, i, gs[1..]);
      if gs[0].IsEmpty() {
        assert NoTerms(gs) <==> NoTerms(gs[1..]) by {
          assert forall k :: 0 < k < |gs| ==> gs[k] == gs[1..][k - 1];
        }
      }
    }
  }

  /** Whether the tokens of part `k` of an operation can be read as row `k`: one of the first
      three rows when their literals all evaluate, a later part only when it holds no term. */
  predicate Readable(k: nat, ts: TokenList) {
    if k < 3 then RowOf(ts).Ok? else NoTerms(ts)
  }

  /** Row `r` after the token lists from index `i` on are added to `op`. */
  function RowAfter(op: SymOp, i: nat, tss: seq<TokenList>, r: nat): Row
    requires r < 3 && forall k :: 0 <= k < |tss| ==> Readable(i + k, tss[k])
  {
    if i <= r < i + |tss| then
      assert Readable(i + (r - i), tss[r - i]);
      op.RowAt(r).Plus(RowOf(tss[r - i]).value)
    else op.RowAt(r)
  }

  /** The operation once the tokens of part `i` have been read into `op`. */
  function PartApplied(op: SymOp, i: nat, ts: TokenList): SymOp
    requires Readable(i, ts)
  {
    if i < 3 then AddRow(op, i, RowOf(ts).value) else op
  }

  /** The loop over one part's tokens succeeds exactly when they are readable as row `i`. */
  lemma PartStep(op: SymOp, i: nat, ts: TokenList)
    ensures ApplyGroups(op, i, ts).Ok? <==> Readable(i, ts)
    ensures Readable(i, ts) ==> ApplyGroups(op, i, ts) == Ok(PartApplied(op, i, ts))
  {
    if i < 3 {
      ApplyGroupsIsRowSum(op, i, ts);
    } else {
      ApplyGroupsBeyondRows(op, i, ts);
    }
  }

  /** The loop over parts fails exactly when some part cannot be read as its row. */
  lemma {:induction false} ApplyPartsOk(op: SymOp, i: nat, tss: seq<TokenList>)
    ensures ApplyParts(op, i, tss).Ok? <==> forall k :: 0 <= k < |tss| ==> Readable(i + k, tss[k])
    decreases |tss|
  {
    if |tss| > 0 {
      var rest := tss[1..];
      PartStep(op, i, tss[0]);
      if Readable(i, tss[0]) {
        ApplyPartsOk(PartApplied(op, i, tss[0]), i + 1, rest);
        assert forall k :: 0 <= k < |rest| ==> rest[k] == tss[k + 1] && i + 1 + k == i + (k + 1);
      }
    }
  }

  /** When it succeeds, the loop over parts adds part `k` to row `i + k`, for every row that
      exists, and leaves the other rows as they were. */
  lemma {:induction false} ApplyPartsRows(op: SymOp, i: nat, tss: seq<TokenList>)
    requires ApplyParts(op, i, tss).Ok?
    ensures forall k :: 0 <= k < |tss| ==> Readable(i + k, tss[k])
    ensures forall r :: 0 <= r < 3 ==> ApplyParts(op, i, tss).value.RowAt(r) == RowAfter(op, i, tss, r)
    decreases |tss|
  {
    ApplyPartsOk(op, i, tss);
    if |tss| > 0 {
      var rest := tss[1..];
      PartStep(op, i, tss[0]);
      var op' := PartApplied(op, i, tss[0]);
      assert ApplyParts(op, i, tss) == ApplyParts(op', i + 1, rest);
      ApplyPartsRows(op', i + 1, rest);
      if i < 3 {
        RowAfterStep(op, i, tss);
      } else {
        assert forall r :: 0 <= r < 3 ==> RowAfter(op, i + 1, rest, r) == op.RowAt(r);
      }
    }
  }

  /** Adding the first part to its row, then the rest, gives the rows of adding all parts. */
  lemma RowAfterStep(op: SymOp, i: nat, tss: seq<TokenList>)
    requires i < 3 && |tss| > 0
    requires forall k :: 0 <= k < |tss| ==> Readable(i + k, tss[k])
    ensures RowOf(tss[0]).Ok?
    ensures forall k :: 0 <= k < |tss| - 1 ==> Readable(i + 1 + k, tss[1..][k])
    ensures forall r :: 0 <= r < 3 ==>
              RowAfter(AddRow(op, i, RowOf(tss[0]).value), i + 1, tss[1..], r) == RowAfter(op, i, tss, r)
  {
    assert Readable(i + 0, tss[0]);
    var op' := AddRow(op, i, RowOf(tss[0]).value);
    var rest := tss[1..];
    assert forall k :: 0 <= k < |rest| ==> rest[k] == tss[k + 1] && i + 1 + k == i + (k + 1);
    forall r | 0 <= r < 3
      ensures RowAfter(op', i + 1, rest, r) == RowAfter(op, i, tss, r)
    {
      if i < r < i + |tss| {
        assert rest[r - (i + 1)] == tss[r - i];
      }
    }
  }

  lemma ZeroRowPlus(row: Row)
    ensures ZeroRow.Plus(row) == row
  {
  }

  lemma RowPlusZero(row: Row)
    ensures row.Plus(ZeroRow) == row
  {
  }

  /** A token without a variable adds its coefficient to the shift only. */
  lemma ConstantTermRow(g: Group, c: real)
    requires g.Valid() && g.variable == ""
    ensures TermRow(g, c) == Row(Zero, c)
  {
  }

  /** Row `r` as read from part `r` alone, zero when there is no such part. */
  function RowRead(tss: seq<TokenList>, r: nat): Result<Row, ParseError> {
    if r < |tss| then RowOf(tss[r]) else Ok(ZeroRow)
  }

  /** The loop over all parts, from zero, reads every row from its own part. */
  lemma ReadFromZero(tss: seq<TokenList>)
    ensures ApplyParts(ZeroOp, 0, tss).Ok? <==> forall k :: 0 <= k < |tss| ==> Readable(k, tss[k])
    ensures ApplyParts(ZeroOp, 0, tss).Ok? ==>
              forall r :: 0 <= r < 3 ==> RowRead(tss, r).Ok? && ApplyParts(ZeroOp, 0, tss).value.RowAt(r) == RowRead(tss, r).value
  {
    ApplyPartsOk(ZeroOp, 0, tss);
    if ApplyParts(ZeroOp, 0, tss).Ok? {
      ApplyPartsRows(ZeroOp, 0, tss);
      forall r | 0 <= r < 3
        ensures RowRead(tss, r).Ok? && ApplyParts(ZeroOp, 0, tss).value.RowAt(r) == RowRead(tss, r).value
      {
        if r < |tss| {
          assert Readable(0 + r, tss[r]);
          ZeroRowPlus(RowOf(tss[r]).value);
        }
      }
    }
  }

  /** What `parse_symmetry_operation` computes: it succeeds exactly when every comma-separated
      part `k` can be read as row `k` (so a fourth or later part must be free of terms), and then
      row `r` of the result is the reading of part `r` alone, or zero when there is no such part. */
  lemma ParseRows(s: string)
    ensures var tss := PartTokens(Split(s, ','));
            ParseOperation(s).Ok? <==> forall k :: 0 <= k < |tss| ==> Readable(k, tss[k])
    ensures var tss := PartTokens(Split(s, ','));
            ParseOperation(s).Ok? ==>
              forall r :: 0 <= r < 3 ==> RowRead(tss, r).Ok? && ParseOperation(s).value.RowAt(r) == RowRead(tss, r).value
  {
    OperationParts(s);
    ReadFromZero(PartTokens(Split(s, ',')));
  }

  /** `ParseOperation` is the loop over the token lists of the comma-separated parts. */
  lemma OperationParts(s: string)
    ensures ParseOperation(s) == ApplyParts(ZeroOp, 0, PartTokens(Split(s, ',')))
  {
  }

  /** An affine map is determined by its three rows. */
  lemma SymOpFromRows(op: SymOp)
    ensures op == SymOp(Mat3(op.RowAt(0).coeffs, op.RowAt(1).coeffs, op.RowAt(2).coeffs),
                        Vec3(op.RowAt(0).shift, op.RowAt(1).shift, op.RowAt(2).shift))
  {
  }

  /** Three parts that each read as a row build the operation with those rows, one part at a time. */
  lemma {:induction false} ThreePartsRead(tss: seq<TokenList>, a: Row, b: Row, c: Row)
    requires |tss| == 3
    requires RowOf(tss[0]) == Ok(a)
    requires RowOf(tss[1]) == Ok(b)
    requires RowOf(tss[2]) == Ok(c)
    ensures ApplyParts(ZeroOp, 0, tss) == Ok(SymOp(Mat3(a.coeffs, b.coeffs, c.coeffs), Vec3(a.shift, b.shift, c.shift)))
  {
    var op1 := AddRow(ZeroOp, 0, a);
    var op2 := AddRow(op1, 1, b);
    var op3 := AddRow(op2, 2, c);
    ApplyGroupsIsRowSum(ZeroOp, 0, tss[0]);
    ApplyGroupsIsRowSum(op1, 1, tss[1]);
    ApplyGroupsIsRowSum(op2, 2, tss[2]);
    var rest1, rest2, rest3 := tss[1..], tss[2..], tss[3..];
    assert rest1[0] == tss[1] && rest1[1..] == rest2;
    assert rest2[0] == tss[2] && rest2[1..] == rest3;
    assert ApplyParts(op3, 3, rest3) == Ok(op3);
    assert ApplyParts(op2, 2, rest2) == Ok(op3);
    assert ApplyParts(op1, 1, rest1) == Ok(op3);
    ZeroRowPlus(a);
    ZeroRowPlus(b);
    ZeroRowPlus(c);
    SymOpFromRows(op3);
  }

  /** An operation string with exactly three parts reads as the three rows those parts denote. */
  lemma ParseThreeParts(s: string, a: Row, b: Row, c: Row)
    requires |Split(s, ',')| == 3
    requires RowOf(Tokens(Split(s, ',')[0])) == Ok(a)
    requires RowOf(Tokens(Split(s, ',')[1])) == Ok(b)
    requires RowOf(Tokens(Split(s, ',')[2])) == Ok(c)
    ensures ParseOperation(s) == Ok(SymOp(Mat3(a.coeffs, b.coeffs, c.coeffs), Vec3(a.shift, b.shift, c.shift)))
  {
    var parts := Split(s, ',');
    PartTokensAt(parts, 0);
    PartTokensAt(parts, 1);
    PartTokensAt(parts, 2);
    OperationParts(s);
    ThreePartsRead(PartTokens(parts), a, b, c);
  }

  /** Row `r` of a parsed operation depends on the `r`-th part of the string only. */
  lemma RowDependsOnOwnPart(s1: string, s2: string, r: nat)
    requires r < 3
    requires ParseOperation(s1).Ok? && ParseOperation(s2).Ok?
    requires r < |Split(s1, ',')| && r < |Split(s2, ',')|
    requires Split(s1, ',')[r] == Split(s2, ',')[r]
    ensures ParseOperation(s1).value.RowAt(r) == ParseOperation(s2).value.RowAt(r)
  {
    ParseRows(s1);
    ParseRows(s2);
    PartTokensAt(Split(s1, ','), r);
    PartTokensAt(Split(s2, ','), r);
  }

  /** Parts with the same characters other than spaces have the same tokens. */
  lemma {:induction false} SameTokens(p1: seq<string>, p2: seq<string>)
    requires |p1| == |p2|
    requires forall k :: 0 <= k < |p1| ==> RemoveSpaces(p1[k]) == RemoveSpaces(p2[k])
    ensures PartTokens(p1) == PartTokens(p2)
  {
    if |p1| > 0 {
      assert RemoveSpaces(p1[0]) == RemoveSpaces(p2[0]);
      var r1, r2 := p1[1..], p2[1..];
      assert forall k :: 0 <= k < |r1| ==> r1[k] == p1[k + 1] && r2[k] == p2[k + 1];
      SameTokens(r1, r2);
    }
  }

  /** Spaces are ignored: an operation string reads the same once its spaces are removed, so
      inserting spaces anywhere does not change the result. */
  lemma ParseIgnoresSpaces(s: string)
    ensures ParseOperation(RemoveSpaces(s)) == ParseOperation(s)
  {
    var p1, p2 := Split(RemoveSpaces(s), ','), Split(s, ',');
    SplitRemoveSpaces(s, ',');
    forall k | 0 <= k < |p1|
      ensures RemoveSpaces(p1[k]) == RemoveSpaces(p2[k])
    {
      RemoveSpacesNoSpace(p1[k]);
      assert ' ' !in RemoveSpaces(s);
      assert p1[k] == RemoveSpaces(p2[k]);
      RemoveSpacesNoSpace(RemoveSpaces(p2[k]));
    }
    SameTokens(p1, p2);
    OperationParts(s);
    OperationParts(RemoveSpaces(s));
  }

  /** Two operation strings that differ only in spaces parse alike. */
  lemma SpacesDoNotMatter(s1: string, s2: string)
    requires RemoveSpaces(s1) == RemoveSpaces(s2)
    ensures ParseOperation(s1) == ParseOperation(s2)
  {
    ParseIgnoresSpaces(s1);
    ParseIgnoresSpaces(s2);
  }
}
