/** Operation strings written from a known affine map, and the proof that
    `parse_symmetry_operation` reads every such string back as that map. */
module SymOpRender {
  import opened Results
  import opened Vectors
  import opened Text
  import opened Lexer
  import opened SymOpParser

  /** How a term writes its magnitude: not at all (an implicit 1), as an integer, or as a
      fraction `p/q`. */
  datatype Magnitude = Implicit | Whole(n: nat) | Ratio(p: nat, q: nat)

  /** One signed term of a row, such as `-y`, `+2x` or `+1/3`. */
  datatype Term = Term(sign: string, magnitude: Magnitude, variable: string) {

    predicate Valid() {
      IsSignText(sign) && IsVariableText(variable)
      && (magnitude.Implicit? ==> variable != "")
      && (magnitude.Ratio? ==> magnitude.q > 0)
    }

    function MagnitudeText(): string {
      match magnitude
      case Implicit => ""
      case Whole(n) => NatToString(n)
      case Ratio(p, q) => NatToString(p) + "/" + NatToString(q)
    }

    function Text(): string {
      sign + MagnitudeText() + variable
    }

    /** The signed value the term stands for. */
    function Value(): real
      requires Valid()
    {
      var v := match magnitude
        case Implicit => 1.0
        case Whole(n) => n as real
        case Ratio(p, q) => p as real / q as real;
      if sign == "-" then -v else v
    }
  }

  /** A row written as terms: the first may omit its sign, every later one carries a sign so
      that neighbouring terms cannot run together. */
  predicate ValidRow(ts: seq<Term>) {
    && (forall k :: 0 <= k < |ts| ==> ts[k].Valid())
    && (forall k :: 0 < k < |ts| ==> ts[k].sign != "")
  }

  function RenderRow(ts: seq<Term>): string {
    if |ts| == 0 then "" else ts[0].Text() + RenderRow(ts[1..])
  }

  /** The coefficient a row gives variable `v`: the sum of the values of its terms in `v`. */
  function CoefficientOf(ts: seq<Term>, v: string): real
    requires forall k :: 0 <= k < |ts| ==> ts[k].Valid()
  {
    if |ts| == 0 then 0.0
    else (if ts[0].variable == v then ts[0].Value() else 0.0) + CoefficientOf(ts[1..], v)
  }

  /** The row a written row stands for: per-variable sums, and the sum of the constant terms. */
  function RowMeaning(ts: seq<Term>): Row
    requires forall k :: 0 <= k < |ts| ==> ts[k].Valid()
  {
    Row(Vec3(CoefficientOf(ts, "x"), CoefficientOf(ts, "y"), CoefficientOf(ts, "z")), CoefficientOf(ts, ""))
  }

  /** A whole operation: three written rows, joined by commas. */
  datatype OpText = OpText(r0: seq<Term>, r1: seq<Term>, r2: seq<Term>) {

    predicate Valid() {
      ValidRow(r0) && ValidRow(r1) && ValidRow(r2)
    }

    function Render(): string {
      RenderRow(r0) + "," + RenderRow(r1) + "," + RenderRow(r2)
    }

    /** The affine map the text stands for. */
    function Meaning(): SymOp
      requires Valid()
    {
      var a, b, c := RowMeaning(r0), RowMeaning(r1), RowMeaning(r2);
      SymOp(Mat3(a.coeffs, b.coeffs, c.coeffs), Vec3(a.shift, b.shift, c.shift))
    }
  }

  // ---------------------------------------------------------------------------
  // Each term is read back as its own token

  function TermGroup(t: Term): Group {
    Group(t.sign, t.MagnitudeText(), t.variable)
  }

  lemma RatioText(p: nat, q: nat)
    ensures IsFractionText(NatToString(p) + "/" + NatToString(q))
    ensures Find(NatToString(p) + "/" + NatToString(q), '/') == |NatToString(p)|
  {
    var P, Q := NatToString(p), NatToString(q);
    var n := P + "/" + Q;
    assert n[..|P|] == P && n[|P|] == '/' && n[|P| + 1..] == Q;
  }

  lemma TermIsToken(t: Term)
    requires t.Valid()
    ensures IsToken(TermGroup(t))
    ensures TermGroup(t).Text() == t.Text()
  {
    if t.magnitude.Ratio? {
      RatioText(t.magnitude.p, t.magnitude.q);
    }
  }

  /** The coefficient the parser reads from a term is the term's value. */
  lemma TermCoefficient(t: Term)
    requires t.Valid()
    ensures TermGroup(t).Valid()
    ensures Coefficient(TermGroup(t)) == Ok(t.Value())
  {
    TermIsToken(t);
    var g := TermGroup(t);
    match t.magnitude
    case Implicit =>
    case Whole(n) =>
      NatToStringRoundTrip(n);
      var s := NatToString(n);
      assert EvalNumber(s) == Ok(n as real);
    case Ratio(p, q) =>
      NatToStringRoundTrip(p);
      NatToStringRoundTrip(q);
      RatioText(p, q);
      var P, Q := NatToString(p), NatToString(q);
      var s := P + "/" + Q;
      assert s[..|P|] == P && s[|P| + 1..] == Q;
      assert EvalNumber(s) == Ok(p as real / q as real);
  }

  function Groups(ts: seq<Term>): (gs: seq<Group>)
    ensures |gs| == |ts|
    ensures forall k :: 0 <= k < |ts| ==> gs[k] == TermGroup(ts[k])
  {
    if |ts| == 0 then [] else [TermGroup(ts[0])] + Groups(ts[1..])
  }

  lemma {:induction false} RenderRowTexts(ts: seq<Term>)
    requires forall k :: 0 <= k < |ts| ==> ts[k].Valid()
    ensures Texts(Groups(ts)) == RenderRow(ts)
  {
    if |ts| > 0 {
      TermIsToken(ts[0]);
      RenderRowTexts(ts[1..]);
      assert Groups(ts)[1..] == Groups(ts[1..]);
    }
  }

  lemma {:induction false} RenderRowNoSpaceNoComma(ts: seq<Term>)
    requires forall k :: 0 <= k < |ts| ==> ts[k].Valid()
    ensures ' ' !in RenderRow(ts) && ',' !in RenderRow(ts)
  {
    if |ts| > 0 {
      RenderRowNoSpaceNoComma(ts[1..]);
      var t := ts[0];
      var m := t.MagnitudeText();
      assert ' ' !in m && ',' !in m by {
        match t.magnitude
        case Implicit =>
        case Whole(n) =>
          assert AllDigits(NatToString(n));
        case Ratio(p, q) =>
          assert AllDigits(NatToString(p)) && AllDigits(NatToString(q));
          assert forall i :: 0 <= i < |m| ==> m[i] == '/' || IsDigit(m[i]);
      }
      assert ' ' !in t.sign && ',' !in t.sign && ' ' !in t.variable && ',' !in t.variable;
      assert RenderRow(ts) == t.sign + m + t.variable + RenderRow(ts[1..]);
    }
  }

  /** The tokens of a written row are its terms, in order. */
  lemma RowTokens(ts: seq<Term>)
    requires ValidRow(ts)
    ensures Tokens(RenderRow(ts)) == Groups(ts) + [Group("", "", "")]
  {
    var gs := Groups(ts);
    RenderRowNoSpaceNoComma(ts);
    RemoveSpacesNoSpace(RenderRow(ts));
    RenderRowTexts(ts);
    forall k | 0 <= k < |gs|
      ensures IsToken(gs[k])
    {
      TermIsToken(ts[k]);
    }
    forall k | 0 <= k < |gs| - 1
      ensures EndsBefore(gs[k], gs[k + 1].Text())
    {
      TokenStart(gs[k + 1]);
    }
    FindAllTokens(gs);
  }

  lemma GroupsValid(ts: seq<Term>)
    requires forall k :: 0 <= k < |ts| ==> ts[k].Valid()
    ensures forall k :: 0 <= k < |ts| ==> Groups(ts)[k].Valid()
  {
    forall k | 0 <= k < |ts|
      ensures Groups(ts)[k].Valid()
    {
      TermCoefficient(ts[k]);
    }
  }

  /** The parser's sum over the tokens of a written row is the row's meaning. */
  lemma {:induction false} RowOfTerms(ts: seq<Term>)
    requires forall k :: 0 <= k < |ts| ==> ts[k].Valid()
    ensures forall k :: 0 <= k < |ts| ==> Groups(ts)[k].Valid()
    ensures RowOf(Groups(ts) + [Group("", "", "")]) == Ok(RowMeaning(ts))
  {
    GroupsValid(ts);
    var gs := Groups(ts);
    if |ts| == 0 {
      assert RowOf([Group("", "", "")]) == RowOf([]);
    } else {
      var t := ts[0];
      RowOfTerms(ts[1..]);
      TermCoefficient(t);
      var tail := Groups(ts[1..]) + [Group("", "", "")];
      ConsAppend(gs, Group("", "", ""));
      assert gs[1..] == Groups(ts[1..]);
      assert (gs + [Group("", "", "")])[1..] == tail;
      RowOfStep(gs + [Group("", "", "")]);
      TermRowMeaning(ts);
    }
  }

  lemma RowOfStep(gs: seq<Group>)
    requires |gs| > 0 && forall k :: 0 <= k < |gs| ==> gs[k].Valid()
    requires !gs[0].IsEmpty() && Coefficient(gs[0]).Ok? && RowOf(gs[1..]).Ok?
    ensures RowOf(gs) == Ok(TermRow(gs[0], Coefficient(gs[0]).value).Plus(RowOf(gs[1..]).value))
  {
  }

  /** Adding a term's own row to the meaning of the later terms gives the meaning of the row. */
  lemma TermRowMeaning(ts: seq<Term>)
    requires |ts| > 0 && forall k :: 0 <= k < |ts| ==> ts[k].Valid()
    ensures TermGroup(ts[0]).Valid()
    ensures TermRow(TermGroup(ts[0]), ts[0].Value()).Plus(RowMeaning(ts[1..])) == RowMeaning(ts)
  {
    TermCoefficient(ts[0]);
    var t, v := ts[0], ts[0].Value();
    var rest := RowMeaning(ts[1..]);
    assert CoefficientOf(ts, "x") == (if t.variable == "x" then v else 0.0) + rest.coeffs.x;
    assert CoefficientOf(ts, "y") == (if t.variable == "y" then v else 0.0) + rest.coeffs.y;
    assert CoefficientOf(ts, "z") == (if t.variable == "z" then v else 0.0) + rest.coeffs.z;
    assert CoefficientOf(ts, "") == (if t.variable == "" then v else 0.0) + rest.shift;
    if t.variable == "" {
      assert TermRow(TermGroup(t), v) == Row(Zero, v);
    } else if t.variable == "x" {
      assert TermRow(TermGroup(t), v) == Row(Vec3(v, 0.0, 0.0), 0.0);
    } else if t.variable == "y" {
      assert TermRow(TermGroup(t), v) == Row(Vec3(0.0, v, 0.0), 0.0);
    } else {
      assert TermRow(TermGroup(t), v) == Row(Vec3(0.0, 0.0, v), 0.0);
    }
  }

  /** A written row is read back as its meaning. */
  lemma RowRoundTrip(ts: seq<Term>)
    requires ValidRow(ts)
    ensures RowOf(Tokens(RenderRow(ts))) == Ok(RowMeaning(ts))
  {
    RowTokens(ts);
    RowOfTerms(ts);
  }

  /** The parts of a written operation are its three written rows. */
  lemma RenderSplit(op: OpText)
    requires op.Valid()
    ensures Split(op.Render(), ',') == [RenderRow(op.r0), RenderRow(op.r1), RenderRow(op.r2)]
  {
    RenderRowNoSpaceNoComma(op.r0);
    RenderRowNoSpaceNoComma(op.r1);
    RenderRowNoSpaceNoComma(op.r2);
    SplitThree(RenderRow(op.r0), RenderRow(op.r1), RenderRow(op.r2), ',');
  }

  /** Parsing round trip: an operation written from known rows is parsed as exactly the affine
      map those rows stand for. */
  lemma ParseRender(op: OpText)
    requires op.Valid()
    ensures ParseOperation(op.Render()) == Ok(op.Meaning())
  {
    RenderSplit(op);
    RowRoundTrip(op.r0);
    RowRoundTrip(op.r1);
    RowRoundTrip(op.r2);
    ParseThreeParts(op.Render(), RowMeaning(op.r0), RowMeaning(op.r1), RowMeaning(op.r2));
  }
}
