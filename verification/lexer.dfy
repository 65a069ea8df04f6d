/** The tokenizer of `parse_symmetry_operation`: `re.findall` with the pattern
    `([+-]?)(\d+(?:/\d+)?|\d*\.\d+)?([xyz])?` over one part of an operation string. */
module Lexer {
  import opened Text

  predicate IsSign(c: char) {
    c == '+' || c == '-'
  }

  predicate IsVariable(c: char) {
    c == 'x' || c == 'y' || c == 'z'
  }

  /** The index of the first `c` in `s`, or `|s|` when there is none. */
  function Find(s: string, c: char): (k: nat)
    ensures k <= |s|
    ensures c !in s[..k]
    ensures k < |s| ==> s[k] == c
  {
    if |s| == 0 || s[0] == c then 0 else 1 + Find(s[1..], c)
  }

  /** The language of the first group, `[+-]?`. */
  predicate IsSignText(s: string) {
    s == "" || s == "+" || s == "-"
  }

  /** The language of the third group, `[xyz]?`. */
  predicate IsVariableText(s: string) {
    s == "" || (|s| == 1 && IsVariable(s[0]))
  }

  /** `\d+` */
  predicate IsDigitsText(s: string) {
    |s| > 0 && AllDigits(s)
  }

  /** `\d+/\d+`, a fraction such as `2/3`. */
  predicate IsFractionText(s: string) {
    var k := Find(s, '/');
    k < |s| && IsDigitsText(s[..k]) && IsDigitsText(s[k + 1..])
  }

  /** `\d*\.\d+`, a decimal such as `.5` or `0.25`. */
  predicate IsDecimalText(s: string) {
    var k := Find(s, '.');
    k < |s| && AllDigits(s[..k]) && IsDigitsText(s[k + 1..])
  }

  /** The language of the second group, `\d+(?:/\d+)?|\d*\.\d+`, without the empty string. */
  predicate IsNumberText(s: string) {
    IsDigitsText(s) || IsFractionText(s) || IsDecimalText(s)
  }

  /** One tuple of `findall`: the texts of the three groups, each possibly empty. */
  datatype Group = Group(sign: string, number: string, variable: string) {

    /** The whole matched text. */
    function Text(): string {
      sign + number + variable
    }

    predicate IsEmpty() {
      sign == "" && number == "" && variable == ""
    }

    /** The groups hold texts of the three sub-patterns. */
    predicate Valid() {
      IsSignText(sign) && (number == "" || IsNumberText(number)) && IsVariableText(variable)
    }
  }

  /** Whether the whole of `w` is matched by the pattern. */
  ghost predicate Matches(w: string) {
    exists i, j :: 0 <= i <= j <= |w| && IsSignText(w[..i]) && (i == j || IsNumberText(w[i..j]))
                   && IsVariableText(w[j..])
  }

  /** The length of the run of digits `s` starts with. */
  function DigitRun(s: string): (n: nat)
    ensures n <= |s|
    ensures AllDigits(s[..n])
    ensures n < |s| ==> !IsDigit(s[n])
  {
    if |s| > 0 && IsDigit(s[0]) then 1 + DigitRun(s[1..]) else 0
  }

  /** The second group at the start of `s`. The regex engine tries `\d+(?:/\d+)?` first, so any
      leading digit commits to it: a decimal alternative is taken only when `s` starts with `.`
      (which is why `1.5` is read as `1` followed by `.5`). */
  function NumberAt(s: string): (n: string)
    ensures n <= s
    ensures n == "" || IsNumberText(n)
    ensures n == "" <==> !(|s| > 0 && (IsDigit(s[0]) || (s[0] == '.' && |s| > 1 && IsDigit(s[1]))))
    ensures s[..DigitRun(s)] <= n
  {
    var d := DigitRun(s);
    if d > 0 then
      DigitRunStart(s);
      if d < |s| && s[d] == '/' && DigitRun(s[d + 1..]) > 0 then
        var e := DigitRun(s[d + 1..]);
        FractionAt(s, d, e);
        s[..d + 1 + e]
      else
        s[..d]
    else if |s| > 0 && s[0] == '.' && DigitRun(s[1..]) > 0 then
      var e := DigitRun(s[1..]);
      DecimalAt(s, e);
      s[..1 + e]
    else
      DigitRunStart(s);
      if |s| > 1 then DigitRunStart(s[1..]); ""
      else ""
  }

  /** A run of digits is non-empty exactly when `s` starts with a digit. */
  lemma DigitRunStart(s: string)
    ensures DigitRun(s) > 0 <==> |s| > 0 && IsDigit(s[0])
  {
  }

  /** Whether `c` first occurs in `s` at index `k`. */
  lemma FindFirst(s: string, c: char, k: nat)
    requires k < |s| && s[k] == c && c !in s[..k]
    ensures Find(s, c) == k
  {
  }

  lemma FractionAt(s: string, d: nat, e: nat)
    requires 0 < d < |s| && AllDigits(s[..d]) && s[d] == '/'
    requires 0 < e <= |s[d + 1..]| && AllDigits(s[d + 1..][..e])
    ensures IsFractionText(s[..d + 1 + e])
  {
    var n := s[..d + 1 + e];
    assert n[..d] == s[..d];
    assert '/' !in n[..d] by {
      forall i | 0 <= i < d ensures n[..d][i] != '/' {
        assert IsDigit(s[..d][i]);
      }
    }
    FindFirst(n, '/', d);
    assert n[d + 1..] == s[d + 1..][..e];
  }

  lemma DecimalAt(s: string, e: nat)
    requires |s| > 0 && s[0] == '.'
    requires 0 < e <= |s[1..]| && AllDigits(s[1..][..e])
    ensures IsDecimalText(s[..1 + e])
  {
    var n := s[..1 + e];
    FindFirst(n, '.', 0);
    assert n[1..] == s[1..][..e];
  }

  /** The first group at the start of `s`, `[+-]?`. */
  function SignAt(s: string): (t: string)
    ensures t <= s && IsSignText(t)
    ensures t == "" <==> !(|s| > 0 && IsSign(s[0]))
  {
    if |s| > 0 && IsSign(s[0]) then [s[0]] else ""
  }

  /** The third group at the start of `s`, `[xyz]?`. */
  function VariableAt(s: string): (t: string)
    ensures t <= s && IsVariableText(t)
  {
    if |s| > 0 && IsVariable(s[0]) then [s[0]] else ""
  }

  lemma PrefixThree(s: string, a: string, b: string, c: string)
    requires a <= s && b <= s[|a|..] && c <= s[|a|..][|b|..]
    ensures a + b + c <= s
  {
    assert (a + b + c)[..|a|] == a;
  }

  /** The match the regex engine finds at the start of `s`: each optional group takes its text
      when it can, in order. */
  function MatchAt(s: string): (g: Group)
    ensures g.Valid()
    ensures g.Text() <= s
    ensures g.sign == "" <==> !(|s| > 0 && IsSign(s[0]))
  {
    var sign := SignAt(s);
    var rest := s[|sign|..];
    var number := NumberAt(rest);
    var variable := VariableAt(rest[|number|..]);
    PrefixThree(s, sign, number, variable);
    Group(sign, number, variable)
  }

  /** The match found is a match of the pattern. */
  lemma MatchAtMatches(s: string)
    ensures Matches(MatchAt(s).Text())
  {
    var g := MatchAt(s);
    var w := g.Text();
    var i, j := |g.sign|, |g.sign| + |g.number|;
    assert w[..i] == g.sign && w[i..j] == g.number && w[j..] == g.variable;
  }

  /** When the match at the start of `s` is empty, no non-empty match starts there either, so
      the scan, which may not return a second empty match at the same place, moves one
      character on. */
  lemma EmptyMatchIsOnlyMatch(s: string, w: string)
    requires MatchAt(s).IsEmpty()
    requires 0 < |w| && w <= s
    ensures !Matches(w)
  {
    assert s[|SignAt(s)|..] == s;
    assert SignAt(s) == "" && NumberAt(s) == "" && VariableAt(s) == "";
    assert w[0] == s[0];
    forall i, j | 0 <= i <= j <= |w|
      ensures !(IsSignText(w[..i]) && (i == j || IsNumberText(w[i..j])) && IsVariableText(w[j..]))
    {
      if i > 0 {
        assert w[..i][0] == s[0];
      } else if i < j {
        assert w[i..j][0] == s[0];
        if |w[i..j]| > 1 {
          assert w[i..j][1] == s[1];
        }
        if IsNumberText(w[i..j]) {
          NumberStart(w[i..j]);
        }
      } else {
        assert w[j..][0] == s[0];
      }
    }
  }

  /** A number text starts with a digit, or with a point and a digit. */
  lemma NumberStart(n: string)
    requires IsNumberText(n)
    ensures IsDigit(n[0]) || (n[0] == '.' && |n| > 1 && IsDigit(n[1]))
  {
    if IsFractionText(n) {
      assert n[..Find(n, '/')][0] == n[0];
    } else if IsDecimalText(n) && !IsDigitsText(n) {
      var k := Find(n, '.');
      if k > 0 {
        assert n[..k][0] == n[0];
      } else {
        assert n[k + 1..][0] == n[1];
      }
    }
  }

  /** `re.findall(pattern, s)`, every tuple included: after a non-empty match the scan resumes
      where the match ended; after an empty match it resumes one character later; the scan ends
      with the empty match at the end of the string. Characters that start no match are thus
      passed over silently. */
  function FindAll(s: string): (gs: seq<Group>)
    ensures |gs| >= 1
    ensures forall k :: 0 <= k < |gs| ==> gs[k].Valid()
    decreases |s|
  {
    var g := MatchAt(s);
    var n := |g.Text()|;
    if n > 0 then ValidCons(g, FindAll(s[n..]))
    else if |s| == 0 then [g]
    else ValidCons(g, FindAll(s[1..]))
  }

  /** `[g] + gs`, a list of tuples of the sub-patterns when `g` and every one of `gs` is. */
  function ValidCons(g: Group, gs: seq<Group>): (r: seq<Group>)
    requires g.Valid() && forall k :: 0 <= k < |gs| ==> gs[k].Valid()
    ensures r == [g] + gs
    ensures forall k :: 0 <= k < |r| ==> r[k].Valid()
  {
    [g] + gs
  }

  // ---------------------------------------------------------------------------
  // Reading back a string assembled from tokens

  /** A number text the scan can match whole: `\d*\.\d+` with digits before the point is never
      matched whole, since the first alternative takes those digits first. */
  predicate IsMatchableNumber(n: string) {
    IsDigitsText(n) || IsFractionText(n) || (IsDecimalText(n) && n[0] == '.')
  }

  /** A non-empty tuple the scan can produce. */
  predicate IsToken(g: Group) {
    IsSignText(g.sign) && IsVariableText(g.variable) && (g.number == "" || IsMatchableNumber(g.number))
    && (g.number != "" || g.variable != "")
  }

  /** The scan cannot extend the token `g` into the text `rest` that follows it. */
  predicate EndsBefore(g: Group, rest: string) {
    g.variable != "" || |rest| == 0
    || (!IsDigit(rest[0]) && !IsVariable(rest[0]) && (IsDigitsText(g.number) ==> rest[0] != '/'))
  }

  /** The concatenated texts of a list of tuples. */
  function Texts(gs: seq<Group>): string {
    if |gs| == 0 then "" else gs[0].Text() + Texts(gs[1..])
  }

  lemma {:induction false} DigitRunAppend(ds: string, after: string)
    requires AllDigits(ds)
    requires |after| == 0 || !IsDigit(after[0])
    ensures DigitRun(ds + after) == |ds|
  {
    if |ds| > 0 {
      assert (ds + after)[1..] == ds[1..] + after;
      DigitRunAppend(ds[1..], after);
    } else {
      assert ds + after == after;
    }
  }

  /** The number alternative takes a matchable number whole when the scan cannot go on past it. */
  lemma NumberAtNumber(n: string, after: string)
    requires n == "" || IsMatchableNumber(n)
    requires |after| == 0 || !IsDigit(after[0])
    requires n == "" ==> |after| == 0 || after[0] != '.'
    requires IsDigitsText(n) ==> |after| == 0 || after[0] != '/'
    ensures NumberAt(n + after) == n
  {
    if n == "" {
      assert n + after == after;
    } else if IsDigitsText(n) {
      NumberAtDigits(n, after);
    } else if IsFractionText(n) {
      NumberAtFraction(n, after);
    } else {
      NumberAtDecimal(n, after);
    }
  }

  lemma NumberAtDigits(n: string, after: string)
    requires IsDigitsText(n)
    requires |after| == 0 || (!IsDigit(after[0]) && after[0] != '/')
    ensures NumberAt(n + after) == n
  {
    var s := n + after;
    DigitRunAppend(n, after);
    if |after| > 0 {
      assert s[|n|] == after[0];
    }
    assert s[..|n|] == n;
  }

  lemma NumberAtFraction(n: string, after: string)
    requires IsFractionText(n)
    requires |after| == 0 || !IsDigit(after[0])
    ensures NumberAt(n + after) == n
  {
    var k := Find(n, '/');
    var p, q := n[..k], n[k + 1..];
    assert n == p + "/" + q;
    NumberAtParts(p, q, after);
  }

  lemma NumberAtParts(p: string, q: string, after: string)
    requires IsDigitsText(p) && IsDigitsText(q)
    requires |after| == 0 || !IsDigit(after[0])
    ensures NumberAt(p + "/" + q + after) == p + "/" + q
  {
    var s := p + "/" + q + after;
    FractionRuns(p, q, after);
    assert s[..|p| + 1 + |q|] == p + "/" + q;
  }

  /** The digit runs the scan finds in a fraction followed by a non-digit. */
  lemma FractionRuns(p: string, q: string, after: string)
    requires IsDigitsText(p) && IsDigitsText(q)
    requires |after| == 0 || !IsDigit(after[0])
    ensures var s := p + "/" + q + after;
            DigitRun(s) == |p| && s[|p|] == '/' && DigitRun(s[|p| + 1..]) == |q|
  {
    var s := p + "/" + q + after;
    assert s == p + ("/" + q + after);
    DigitRunAppend(p, "/" + q + after);
    assert s[|p| + 1..] == q + after;
    DigitRunAppend(q, after);
  }

  lemma NumberAtDecimal(n: string, after: string)
    requires IsDecimalText(n) && n[0] == '.'
    requires |after| == 0 || !IsDigit(after[0])
    ensures NumberAt(n + after) == n
  {
    var s := n + after;
    var f := n[1..];
    assert Find(n, '.') == 0;
    assert s[0] == '.' && !IsDigit(s[0]);
    DigitRunAppend(f, after);
    assert s[1..] == f + after;
    assert s[..1 + |f|] == n;
  }

  /** A token starts with a sign character exactly when it has a sign. */
  lemma TokenStart(g: Group)
    requires IsToken(g)
    ensures |g.Text()| > 0
    ensures IsSign(g.Text()[0]) <==> g.sign != ""
  {
    var t := g.Text();
    if g.sign == "" {
      if g.number != "" {
        assert t[0] == g.number[0];
        if IsFractionText(g.number) {
          assert g.number[..Find(g.number, '/')][0] == g.number[0];
        } else if IsDigitsText(g.number) {
          assert IsDigit(g.number[0]);
        }
      } else {
        assert t[0] == g.variable[0];
      }
    } else {
      assert t[0] == g.sign[0];
    }
  }

  lemma SignAtToken(g: Group, rest: string)
    requires IsToken(g)
    ensures SignAt(g.Text() + rest) == g.sign
  {
    TokenStart(g);
    var s := g.Text() + rest;
    assert s[0] == g.Text()[0];
    if g.sign != "" {
      assert g.Text()[0] == g.sign[0];
      assert [s[0]] == g.sign;
    }
  }

  lemma VariableAtToken(g: Group, rest: string)
    requires IsToken(g) && EndsBefore(g, rest)
    ensures VariableAt((g.Text() + rest)[|g.sign|..][|g.number|..]) == g.variable
  {
    var after := g.variable + rest;
    assert (g.Text() + rest)[|g.sign|..][|g.number|..] == after;
    if g.variable == "" {
      assert after == rest;
    } else {
      assert [after[0]] == g.variable;
    }
  }

  /** A token followed by text it cannot extend into is matched exactly. */
  lemma MatchAtToken(g: Group, rest: string)
    requires IsToken(g) && EndsBefore(g, rest)
    ensures MatchAt(g.Text() + rest) == g
  {
    SignAtToken(g, rest);
    NumberAtToken(g, rest);
    VariableAtToken(g, rest);
    MatchAtParts(g.Text() + rest, g);
  }

  lemma NumberAtToken(g: Group, rest: string)
    requires IsToken(g) && EndsBefore(g, rest)
    ensures NumberAt((g.Text() + rest)[|g.sign|..]) == g.number
  {
    var after := g.variable + rest;
    assert (g.Text() + rest)[|g.sign|..] == g.number + after;
    if g.variable == "" {
      assert after == rest;
    }
    NumberAtNumber(g.number, after);
  }

  /** The match at the start of `s` is `g` when each group's scan finds `g`'s text. */
  lemma MatchAtParts(s: string, g: Group)
    requires SignAt(s) == g.sign
    requires NumberAt(s[|g.sign|..]) == g.number
    requires VariableAt(s[|g.sign|..][|g.number|..]) == g.variable
    ensures MatchAt(s) == g
  {
  }

  lemma FindAllEmpty()
    ensures FindAll("") == [Group("", "", "")]
  {
    assert MatchAt("") == Group("", "", "");
  }

  /** A token the text after it cannot extend is the first tuple `findall` returns. */
  lemma FindAllToken(g: Group, rest: string)
    requires IsToken(g) && EndsBefore(g, rest)
    ensures FindAll(g.Text() + rest) == [g] + FindAll(rest)
  {
    MatchAtToken(g, rest);
    TokenStart(g);
    assert (g.Text() + rest)[|g.Text()|..] == rest;
  }

  lemma ConsAppend<T>(s: seq<T>, x: T)
    requires |s| > 0
    ensures s + [x] == [s[0]] + (s[1..] + [x])
  {
  }

  /** Tokens each of which the text after it cannot extend. */
  predicate Separated(gs: seq<Group>) {
    (forall k :: 0 <= k < |gs| ==> IsToken(gs[k]))
    && (forall k :: 0 <= k < |gs| - 1 ==> EndsBefore(gs[k], gs[k + 1].Text()))
    && (|gs| > 0 ==> EndsBefore(gs[|gs| - 1], ""))
  }

  /** The first of a list of separated tokens ends before the texts of the others, which are
      separated in turn. */
  lemma FirstTokenEnds(gs: seq<Group>)
    requires |gs| > 0 && Separated(gs)
    ensures IsToken(gs[0]) && EndsBefore(gs[0], Texts(gs[1..]))
    ensures Separated(gs[1..])
    ensures Texts(gs) == gs[0].Text() + Texts(gs[1..])
  {
    if |gs| > 1 {
      assert Texts(gs[1..]) == gs[1].Text() + Texts(gs[2..]) by {
        assert gs[1..][1..] == gs[2..];
      }
      TokenStart(gs[1]);
      assert EndsBefore(gs[0], gs[1].Text());
    }
  }

  /** `findall` over a string assembled from tokens, each of which the next cannot extend,
      returns exactly those tokens, then the final empty match. */
  lemma {:induction false} FindAllTokens(gs: seq<Group>)
    requires Separated(gs)
    ensures FindAll(Texts(gs)) == gs + [Group("", "", "")]
  {
    if |gs| == 0 {
      FindAllEmpty();
    } else {
      var rest := Texts(gs[1..]);
      FirstTokenEnds(gs);
      FindAllToken(gs[0], rest);
      FindAllTokens(gs[1..]);
      ConsAppend(gs, Group("", "", ""));
    }
  }

}
