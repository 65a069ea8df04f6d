/** Worked operation strings: the two examples of the parser's documentation, and the two
    readings the token pattern gives to decimal numbers. */
module SymOpExamples {
  import opened Results
  import opened Vectors
  import opened Text
  import opened Lexer
  import opened SymOpParser
  import opened SymOpRender

  /** The text of one- and two-term written rows. */
  lemma OneTermText(t: Term)
    ensures RenderRow([t]) == t.Text()
  {
    assert [t][1..] == [];
  }

  lemma TwoTermText(t1: Term, t2: Term)
    ensures RenderRow([t1, t2]) == t1.Text() + t2.Text()
  {
    assert [t1, t2][1..] == [t2];
    OneTermText(t2);
  }

  /** The rows one- and two-term written rows stand for, term by term. */
  lemma OneTermMeaning(t: Term)
    requires t.Valid()
    ensures TermGroup(t).Valid()
    ensures RowMeaning([t]) == TermRow(TermGroup(t), t.Value())
  {
    TermRowMeaning([t]);
    assert [t][1..] == [];
    ZeroRowPlus(ZeroRow);
  }

  lemma TwoTermMeaning(t1: Term, t2: Term)
    requires t1.Valid() && t2.Valid()
    ensures TermGroup(t1).Valid() && TermGroup(t2).Valid()
    ensures RowMeaning([t1, t2]) == TermRow(TermGroup(t1), t1.Value()).Plus(TermRow(TermGroup(t2), t2.Value()))
  {
    TermRowMeaning([t1, t2]);
    assert [t1, t2][1..] == [t2];
    OneTermMeaning(t2);
  }

  /** The column each variable name stands for. */
  lemma VariableIndices()
    ensures VariableIndex("x") == 0 && VariableIndex("y") == 1 && VariableIndex("z") == 2
  {
    assert "x"[0] == 'x' && "y"[0] == 'y' && "z"[0] == 'z';
  }

  /** The two operations of the parser's documentation, written term by term. */
  function ShiftText(): OpText {
    OpText([Term("", Implicit, "x"), Term("+", Ratio(1, 3), "")],
           [Term("", Implicit, "y"), Term("+", Ratio(2, 3), "")],
           [Term("", Implicit, "z"), Term("+", Ratio(2, 3), "")])
  }

  function RotationText(): OpText {
    OpText([Term("-", Implicit, "y")],
           [Term("", Implicit, "x"), Term("-", Implicit, "y")],
           [Term("+", Implicit, "z")])
  }

  lemma ShiftTextRenders()
    ensures ShiftText().Valid()
    ensures ShiftText().Render() == "x+1/3,y+2/3,z+2/3"
  {
    var op := ShiftText();
    assert NatToString(1) == "1" && NatToString(2) == "2" && NatToString(3) == "3";
    assert op.r0[1].Text() == "+1/3" && op.r1[1].Text() == "+2/3";
    TwoTermText(op.r0[0], op.r0[1]);
    TwoTermText(op.r1[0], op.r1[1]);
    TwoTermText(op.r2[0], op.r2[1]);
    ShiftLiteral(RenderRow(op.r0), RenderRow(op.r1), RenderRow(op.r2));
  }

  lemma ShiftLiteral(a: string, b: string, c: string)
    requires a == "x+1/3" && b == "y+2/3" && c == "z+2/3"
    ensures a + "," + b + "," + c == "x+1/3,y+2/3,z+2/3"
  {
  }

  lemma ShiftTextMeaning()
    requires ShiftText().Valid()
    ensures ShiftText().Meaning() == SymOp(Identity, Vec3(1.0 / 3.0, 2.0 / 3.0, 2.0 / 3.0))
  {
    var op := ShiftText();
    VariableIndices();
    assert op.r0[0].Value() == 1.0 && op.r1[0].Value() == 1.0 && op.r2[0].Value() == 1.0;
    assert op.r0[1].Value() == 1.0 / 3.0 && op.r1[1].Value() == 2.0 / 3.0 && op.r2[1] == op.r1[1];
    TwoTermMeaning(op.r0[0], op.r0[1]);
    TwoTermMeaning(op.r1[0], op.r1[1]);
    TwoTermMeaning(op.r2[0], op.r2[1]);
  }

  lemma RotationTextRenders()
    ensures RotationText().Valid()
    ensures RotationText().Render() == "-y,x-y,+z"
  {
    var op := RotationText();
    OneTermText(op.r0[0]);
    TwoTermText(op.r1[0], op.r1[1]);
    OneTermText(op.r2[0]);
  }

  lemma RotationTextMeaning()
    requires RotationText().Valid()
    ensures RotationText().Meaning() ==
            SymOp(Mat3(Vec3(0.0, -1.0, 0.0), Vec3(1.0, -1.0, 0.0), Vec3(0.0, 0.0, 1.0)), Zero)
  {
    var op := RotationText();
    var minusY, x, plusZ := op.r0[0], op.r1[0], op.r2[0];
    assert op.r1[1] == minusY;
    VariableIndices();
    assert minusY.Value() == -1.0 && x.Value() == 1.0 && plusZ.Value() == 1.0;
    OneTermMeaning(minusY);
    TwoTermMeaning(x, minusY);
    OneTermMeaning(plusZ);
  }

  /** `x+1/3,y+2/3,z+2/3` is the identity followed by the shift (1/3, 2/3, 2/3). */
  lemma ShiftExample()
    ensures ParseOperation("x+1/3,y+2/3,z+2/3") == Ok(SymOp(Identity, Vec3(1.0 / 3.0, 2.0 / 3.0, 2.0 / 3.0)))
  {
    ShiftTextRenders();
    ShiftTextMeaning();
    ParseRender(ShiftText());
  }

  /** `-y,x-y,+z` has rows (0, -1, 0), (1, -1, 0), (0, 0, 1) and no shift. */
  lemma RotationExample()
    ensures ParseOperation("-y,x-y,+z") ==
            Ok(SymOp(Mat3(Vec3(0.0, -1.0, 0.0), Vec3(1.0, -1.0, 0.0), Vec3(0.0, 0.0, 1.0)), Zero))
  {
    RotationTextRenders();
    RotationTextMeaning();
    ParseRender(RotationText());
  }

  /** A one-term row gives its term's value to the term's own variable and nothing to others. */
  lemma SingleTermCoefficient(t: Term, w: string)
    requires t.Valid()
    ensures CoefficientOf([t], w) == if t.variable == w then t.Value() else 0.0
  {
    assert [t][1..] == [];
  }

  /** A lone variable term stands for that variable's unit row. */
  lemma UnitTermMeaning(v: string)
    requires |v| == 1 && IsVariable(v[0])
    ensures Term("", Implicit, v).Valid()
    ensures RowMeaning([Term("", Implicit, v)]) == Row(Zero.AddAt(VariableIndex(v), 1.0), 0.0)
  {
    var t := Term("", Implicit, v);
    SingleTermCoefficient(t, "x");
    SingleTermCoefficient(t, "y");
    SingleTermCoefficient(t, "z");
    SingleTermCoefficient(t, "");
    assert "x"[0] == 'x' && "y"[0] == 'y' && "z"[0] == 'z';
    if v[0] == 'x' {
      assert v == "x" && v != "y" && v != "z";
    } else if v[0] == 'y' {
      assert v == "y" && v != "x" && v != "z";
    } else {
      assert v == "z" && v != "x" && v != "y";
    }
  }

  /** The identity operation, written term by term. */
  function IdentityText(): OpText {
    OpText([Term("", Implicit, "x")], [Term("", Implicit, "y")], [Term("", Implicit, "z")])
  }

  lemma IdentityTextRenders()
    ensures IdentityText().Valid()
    ensures IdentityText().Render() == "x,y,z"
  {
    var op := IdentityText();
    OneTermText(op.r0[0]);
    OneTermText(op.r1[0]);
    OneTermText(op.r2[0]);
  }

  lemma IdentityTextMeaning()
    requires IdentityText().Valid()
    ensures IdentityText().Meaning() == SymOp(Identity, Zero)
  {
    assert "x"[0] == 'x' && "y"[0] == 'y' && "z"[0] == 'z';
    VariableIndices();
    UnitTermMeaning("x");
    UnitTermMeaning("y");
    UnitTermMeaning("z");
  }

  /** `x,y,z` is the identity operation: every site is its own image under it. */
  lemma IdentityExample()
    ensures ParseOperation("x,y,z") == Ok(SymOp(Identity, Zero))
  {
    IdentityTextRenders();
    IdentityTextMeaning();
    ParseRender(IdentityText());
  }

  /** A part made of a single variable reads as that variable's unit row. */
  lemma VariablePart(v: string)
    requires |v| == 1 && IsVariable(v[0])
    ensures RowOf(Tokens(v)) == Ok(Row(Zero.AddAt(VariableIndex(v), 1.0), 0.0))
  {
    var t := Term("", Implicit, v);
    assert RenderRow([t]) == v;
    UnitTermMeaning(v);
    RowRoundTrip([t]);
  }

  /** A space-free text that is the concatenation of tokens, each ending where the next begins,
      is scanned as exactly those tokens followed by the final empty match. */
  lemma ScannedTokens(s: string, gs: seq<Group>)
    requires Separated(gs)
    requires Texts(gs) == s && ' ' !in s
    ensures Tokens(s) == gs + [Group("", "", "")]
  {
    FindAllTokens(gs);
    RemoveSpacesNoSpace(s);
  }

  /** The value `float(eval(...))` gives the digits of a decimal's fractional part. */
  function FractionValue(f: string): real
    requires AllDigits(f)
  {
    DigitsValue(f) as real / Pow10(|f|) as real
  }

  lemma NoSpaceInDecimal(sign: string, d: string, f: string, v: string)
    requires IsSignText(sign) && AllDigits(d) && AllDigits(f) && IsVariableText(v)
    ensures ' ' !in sign + d + "." + f + v
  {
    assert ' ' !in sign && ' ' !in v && ' ' !in ".";
  }

  /** The two tokens of a signed decimal, and the text they make up. */
  lemma DecimalTexts(sign: string, d: string, f: string, v: string)
    ensures Texts([Group(sign, d, ""), Group("", "." + f, v)]) == sign + d + "." + f + v
  {
    var g0, g1 := Group(sign, d, ""), Group("", "." + f, v);
    assert Texts([g1]) == g1.Text() by { assert [g1][1..] == []; }
    assert [g0, g1][1..] == [g1];
  }

  /** The integer part of a signed decimal ends at the point, and the fractional part, with
      its variable, ends the text. */
  lemma DecimalSeparated(sign: string, d: string, f: string, v: string)
    requires IsSignText(sign) && IsDigitsText(d) && IsDigitsText(f) && IsVariableText(v)
    ensures Separated([Group(sign, d, ""), Group("", "." + f, v)])
  {
    var g0, g1 := Group(sign, d, ""), Group("", "." + f, v);
    assert ("." + f)[1..] == f;
    assert Find("." + f, '.') == 0;
    assert IsDecimalText(g1.number);
    assert IsToken(g0) && IsToken(g1);
    assert EndsBefore(g0, g1.Text());
  }

  /** How a signed decimal is scanned: the integer alternative of the number pattern is tried
      first and stops at the point, so `-0.5` is read as `-0` followed by `.5`. */
  lemma SignedDecimalTokens(sign: string, d: string, f: string, v: string)
    requires IsSignText(sign) && IsDigitsText(d) && IsDigitsText(f) && IsVariableText(v)
    ensures Tokens(sign + d + "." + f + v) == [Group(sign, d, ""), Group("", "." + f, v), Group("", "", "")]
  {
    DecimalTexts(sign, d, f, v);
    DecimalSeparated(sign, d, f, v);
    NoSpaceInDecimal(sign, d, f, v);
    ScannedTokens(sign + d + "." + f + v, [Group(sign, d, ""), Group("", "." + f, v)]);
  }

  /** The value of a number that starts at the point, such as `.5`. */
  lemma PointNumberValue(f: string)
    requires IsDigitsText(f)
    ensures IsNumberText("." + f)
    ensures EvalNumber("." + f) == Ok(FractionValue(f))
  {
    assert ("." + f)[1..] == f && ("." + f)[..0] == "";
    assert Find("." + f, '.') == 0;
    assert '/' !in "." + f;
  }

  /** The value of an integer literal Python accepts. */
  lemma IntegerValue(d: string)
    requires IsIntLiteral(d)
    ensures IsNumberText(d)
    ensures EvalNumber(d) == Ok(DigitsValue(d) as real)
  {
    assert '/' !in d && '.' !in d;
  }

  /** `x` with the sign a token carries. */
  function Signed(sign: string, x: real): real {
    if sign == "-" then -x else x
  }

  /** A token with a number has that number's value as coefficient, negated by a `-` sign. */
  lemma NumberCoefficient(g: Group, x: real)
    requires g.Valid() && g.number != "" && EvalNumber(g.number) == Ok(x)
    ensures Coefficient(g) == Ok(Signed(g.sign, x))
  {
  }

  /** The row of a constant token followed by one more term and the final empty match. */
  lemma {:induction false} ConstantThenTermTokens(gs: seq<Group>, w: real, x: real)
    requires |gs| == 3 && forall k :: 0 <= k < |gs| ==> gs[k].Valid()
    requires gs[2] == Group("", "", "")
    requires !gs[0].IsEmpty() && gs[0].variable == "" && Coefficient(gs[0]) == Ok(w)
    requires !gs[1].IsEmpty() && Coefficient(gs[1]) == Ok(x)
    ensures RowOf(gs) == Ok(Row(Zero, w).Plus(TermRow(gs[1], x)))
  {
    var t1, t2 := gs[1..], gs[2..];
    assert t1[1..] == t2;
    assert RowOf(t2) == Ok(ZeroRow) by { assert t2[1..] == []; }
    RowOfStep(t1);
    RowOfStep(gs);
    RowPlusZero(TermRow(gs[1], x));
    ConstantTermRow(gs[0], w);
  }

  /** The row of a constant token followed by one more term and the final empty match. */
  lemma ConstantThenTermRow(g0: Group, g1: Group, w: real, x: real)
    requires g0.Valid() && !g0.IsEmpty() && g0.variable == "" && Coefficient(g0) == Ok(w)
    requires g1.Valid() && !g1.IsEmpty() && Coefficient(g1) == Ok(x)
    ensures RowOf([g0, g1, Group("", "", "")]) == Ok(Row(Zero, w).Plus(TermRow(g1, x)))
  {
    var ts := [g0, g1, Group("", "", "")];
    assert ts[1] == g1;
    ConstantThenTermTokens(ts, w, x);
  }

  /** The coefficients of the two tokens a signed decimal is scanned into: the sign applies to
      the integer part only. */
  lemma SignedDecimalCoefficients(sign: string, d: string, f: string, v: string)
    requires IsSignText(sign) && IsIntLiteral(d) && IsDigitsText(f) && IsVariableText(v)
    ensures Group(sign, d, "").Valid() && Group("", "." + f, v).Valid()
    ensures !Group(sign, d, "").IsEmpty() && !Group("", "." + f, v).IsEmpty()
    ensures Coefficient(Group(sign, d, "")) == Ok(Signed(sign, DigitsValue(d) as real))
    ensures Coefficient(Group("", "." + f, v)) == Ok(FractionValue(f))
  {
    PointNumberValue(f);
    IntegerValue(d);
    NumberCoefficient(Group(sign, d, ""), DigitsValue(d) as real);
    NumberCoefficient(Group("", "." + f, v), FractionValue(f));
  }

  /** The row of the tuples a signed decimal is scanned into. */
  lemma SignedDecimalGroupsRow(sign: string, d: string, f: string, v: string)
    requires IsSignText(sign) && IsIntLiteral(d) && IsDigitsText(f) && IsVariableText(v)
    ensures RowOf([Group(sign, d, ""), Group("", "." + f, v), Group("", "", "")]) ==
              Ok(Row(Zero, Signed(sign, DigitsValue(d) as real)).Plus(TermRow(Group("", "." + f, v), FractionValue(f))))
  {
    var whole := Signed(sign, DigitsValue(d) as real);
    SignedDecimalCoefficients(sign, d, f, v);
    ConstantThenTermRow(Group(sign, d, ""), Group("", "." + f, v), whole, FractionValue(f));
  }

  /** So the sign of a decimal reaches its integer part only: `-0.5` adds `-0 + 0.5` to the shift,
      and `-1.5x` adds -1 to the shift and +0.5 (not -1.5) to the coefficient of x. */
  lemma SignedDecimalRow(sign: string, d: string, f: string, v: string)
    requires IsSignText(sign) && IsIntLiteral(d) && IsDigitsText(f) && IsVariableText(v)
    ensures Group("", "." + f, v).Valid()
    ensures RowOf(Tokens(sign + d + "." + f + v)) ==
              Ok(Row(Zero, Signed(sign, DigitsValue(d) as real)).Plus(TermRow(Group("", "." + f, v), FractionValue(f))))
  {
    SignedDecimalTokens(sign, d, f, v);
    SignedDecimalCoefficients(sign, d, f, v);
    SignedDecimalGroupsRow(sign, d, f, v);
  }

  /** `-0.5` adds +0.5, not -0.5, to the shift of its row. */
  lemma NegativeDecimalPart()
    ensures RowOf(Tokens("-0.5")) == Ok(Row(Zero, 0.5))
  {
    DigitLiterals();
    SignedDecimalRow("-", "0", "5", "");
    NegativeDecimalValue();
  }

  lemma NegativeDecimalValue()
    ensures Group("", ".5", "").Valid()
    ensures Row(Zero, Signed("-", DigitsValue("0") as real)).Plus(TermRow(Group("", ".5", ""), FractionValue("5"))) ==
              Row(Zero, 0.5)
  {
    DigitLiterals();
    PointNumberValue("5");
    ConstantTermRow(Group("", ".5", ""), 0.5);
    assert Signed("-", 0.0) == 0.0;
    ZeroRowPlus(Row(Zero, 0.5));
  }

  /** `1.5x` adds 1 to the shift and 0.5 to the coefficient of x. */
  lemma DecimalCoefficientPart()
    ensures RowOf(Tokens("1.5x")) == Ok(Row(Vec3(0.5, 0.0, 0.0), 1.0))
  {
    DigitLiterals();
    SignedDecimalRow("", "1", "5", "x");
    DecimalCoefficientValue();
  }

  lemma DecimalCoefficientValue()
    ensures Group("", ".5", "x").Valid()
    ensures Row(Zero, Signed("", DigitsValue("1") as real)).Plus(TermRow(Group("", ".5", "x"), FractionValue("5"))) ==
              Row(Vec3(0.5, 0.0, 0.0), 1.0)
  {
    DigitLiterals();
    PointNumberValue("5");
    VariableIndices();
  }

  /** The literal pieces the two parts above are made of. */
  lemma DigitLiterals()
    ensures "-0.5" == "-" + "0" + "." + "5" + "" && "1.5x" == "" + "1" + "." + "5" + "x"
    ensures "." + "5" == ".5"
    ensures IsIntLiteral("0") && IsIntLiteral("1") && IsDigitsText("5")
    ensures DigitsValue("0") == 0 && DigitsValue("1") == 1 && FractionValue("5") == 0.5
  {
    assert "0"[..0] == "" && "1"[..0] == "" && "5"[..0] == "";
  }
}
