/** The string operations the pipeline relies on: Python's `str.split`, `str.replace(" ", "")`,
    the `split("(")[0]` idiom that strips an uncertainty annotation, and decimal digit strings. */
module Text {

  predicate IsDigit(c: char) {
    '0' <= c <= '9'
  }

  predicate AllDigits(s: string) {
    forall i :: 0 <= i < |s| ==> IsDigit(s[i])
  }

  function DigitValue(c: char): nat
    requires IsDigit(c)
  {
    (c as int - '0' as int) as nat
  }

  // ---------------------------------------------------------------------------
  // str.split(sep) and its inverse, str.join

  /** Python's `s.split(sep)` for a one-character separator: the pieces between separators,
      empty pieces included, so `n` separators always give `n + 1` pieces. */
  function Split(s: string, sep: char): (parts: seq<string>)
    ensures |parts| >= 1
    ensures forall i :: 0 <= i < |parts| ==> sep !in parts[i]
  {
    if |s| == 0 then [""]
    else
      var rest := Split(s[1..], sep);
      if s[0] == sep then [""] + rest
      else [[s[0]] + rest[0]] + rest[1..]
  }

  /** Python's `sep.join(parts)`. */
  function Join(parts: seq<string>, sep: char): string
    requires |parts| >= 1
  {
    if |parts| == 1 then parts[0] else parts[0] + [sep] + Join(parts[1..], sep)
  }

  /** Joining the pieces of a split gives back the original string. */
  lemma {:induction false} JoinSplit(s: string, sep: char)
    ensures Join(Split(s, sep), sep) == s
  {
    if |s| > 0 {
      JoinSplit(s[1..], sep);
      var rest := Split(s[1..], sep);
      if s[0] != sep {
        if |rest| == 1 {
          assert [s[0]] + rest[0] == s;
        } else {
          assert Join(Split(s, sep), sep) == [s[0]] + (rest[0] + [sep] + Join(rest[1..], sep));
          assert s == [s[0]] + s[1..];
        }
      } else {
        assert s == [sep] + s[1..];
      }
    }
  }

  /** A piece free of the separator followed by the separator splits off as one piece. */
  lemma {:induction false} SplitCons(a: string, b: string, sep: char)
    requires sep !in a
    ensures Split(a + [sep] + b, sep) == [a] + Split(b, sep)
  {
    if |a| == 0 {
      assert a + [sep] + b == [sep] + b;
      assert ([sep] + b)[1..] == b;
    } else {
      SplitCons(a[1..], b, sep);
      assert (a + [sep] + b)[1..] == a[1..] + [sep] + b;
      assert [a[0]] + a[1..] == a;
    }
  }

  lemma {:induction false} SplitNoSep(a: string, sep: char)
    requires sep !in a
    ensures Split(a, sep) == [a]
  {
    if |a| > 0 {
      SplitNoSep(a[1..], sep);
      assert [a[0]] + a[1..] == a;
    }
  }

  /** Splitting a join of separator-free pieces gives back the pieces. */
  lemma {:induction false} SplitJoin(parts: seq<string>, sep: char)
    requires |parts| >= 1
    requires forall i :: 0 <= i < |parts| ==> sep !in parts[i]
    ensures Split(Join(parts, sep), sep) == parts
  {
    if |parts| == 1 {
      SplitNoSep(parts[0], sep);
    } else {
      SplitJoin(parts[1..], sep);
      SplitCons(parts[0], Join(parts[1..], sep), sep);
      assert [parts[0]] + parts[1..] == parts;
    }
  }

  /** Three separator-free pieces joined by the separator split back into those pieces. */
  lemma SplitThree(a: string, b: string, c: string, sep: char)
    requires sep !in a && sep !in b && sep !in c
    ensures Split(a + [sep] + b + [sep] + c, sep) == [a, b, c]
  {
    SplitNoSep(c, sep);
    SplitCons(b, c, sep);
    assert a + [sep] + b + [sep] + c == a + [sep] + (b + [sep] + c);
    SplitCons(a, b + [sep] + c, sep);
  }

  // ---------------------------------------------------------------------------
  // str.replace(" ", "")

  /** `s.replace(" ", "")`: every space removed, every other character kept in order. */
  function RemoveSpaces(s: string): (r: string)
    ensures ' ' !in r
    ensures |r| <= |s|
  {
    if |s| == 0 then ""
    else if s[0] == ' ' then RemoveSpaces(s[1..])
    else [s[0]] + RemoveSpaces(s[1..])
  }

  lemma {:induction false} RemoveSpacesAppend(a: string, b: string)
    ensures RemoveSpaces(a + b) == RemoveSpaces(a) + RemoveSpaces(b)
  {
    if |a| > 0 {
      RemoveSpacesAppend(a[1..], b);
      assert (a + b)[1..] == a[1..] + b;
    } else {
      assert a + b == b;
    }
  }

  /** A string without spaces is left unchanged, so removing spaces is idempotent. */
  lemma {:induction false} RemoveSpacesNoSpace(s: string)
    requires ' ' !in s
    ensures RemoveSpaces(s) == s
  {
    if |s| > 0 {
      RemoveSpacesNoSpace(s[1..]);
      assert [s[0]] + s[1..] == s;
    }
  }

  /** Removing spaces before or after splitting on a non-space separator gives the same pieces. */
  lemma {:induction false} SplitRemoveSpaces(s: string, sep: char)
    requires sep != ' '
    ensures |Split(RemoveSpaces(s), sep)| == |Split(s, sep)|
    ensures forall i :: 0 <= i < |Split(s, sep)| ==>
              Split(RemoveSpaces(s), sep)[i] == RemoveSpaces(Split(s, sep)[i])
  {
    if |s| > 0 {
      SplitRemoveSpaces(s[1..], sep);
      var rest := Split(s[1..], sep);
      if s[0] != sep && s[0] != ' ' {
        assert RemoveSpaces(s) == [s[0]] + RemoveSpaces(s[1..]);
        assert RemoveSpaces([s[0]] + rest[0]) == [s[0]] + RemoveSpaces(rest[0]) by {
          assert ([s[0]] + rest[0])[1..] == rest[0];
        }
      } else if s[0] == ' ' {
        assert RemoveSpaces([s[0]] + rest[0]) == RemoveSpaces(rest[0]) by {
          assert ([s[0]] + rest[0])[1..] == rest[0];
        }
      } else {
        assert RemoveSpaces(s) == [sep] + RemoveSpaces(s[1..]);
        assert ([sep] + RemoveSpaces(s[1..]))[1..] == RemoveSpaces(s[1..]);
      }
    }
  }

  // ---------------------------------------------------------------------------
  // value.split("(")[0]

  /** `s.split("(")[0]`: the text before the first `(`, which drops an uncertainty annotation
      such as the `(29)` of `6.027318(29)`. */
  function StripAnnotation(s: string): (r: string)
    ensures r <= s
    ensures '(' !in r
    ensures '(' !in s ==> r == s
    ensures '(' in s ==> s[|r|] == '('
  {
    if |s| == 0 || s[0] == '(' then ""
    else [s[0]] + StripAnnotation(s[1..])
  }

  /** Stripping is exactly the first piece of a split on `(`. */
  lemma {:induction false} StripAnnotationIsFirstPiece(s: string)
    ensures StripAnnotation(s) == Split(s, '(')[0]
  {
    if |s| > 0 && s[0] != '(' {
      StripAnnotationIsFirstPiece(s[1..]);
    }
  }

  /** Appending an annotation to a bare value does not change what is read. */
  lemma AnnotationIgnored(v: string, note: string)
    requires '(' !in v
    ensures StripAnnotation(v + "(" + note) == v
  {
    var s := v + "(" + note;
    var r := StripAnnotation(s);
    assert s[..|v|] == v;
    assert s[|v|] == '(';
  }

  // ---------------------------------------------------------------------------
  // Decimal digit strings

  /** The value of a string of decimal digits, most significant first (`""` is 0). */
  function DigitsValue(ds: string): nat
    requires AllDigits(ds)
  {
    if |ds| == 0 then 0 else 10 * DigitsValue(ds[..|ds| - 1]) + DigitValue(ds[|ds| - 1])
  }

  /** A Python decimal integer literal: a non-empty digit string whose first digit is not `0`,
      or a run of zeros. Any other digit string (`01`, `007`) is a SyntaxError for `eval`. */
  predicate IsIntLiteral(ds: string) {
    |ds| > 0 && AllDigits(ds) && (ds[0] != '0' || forall i :: 0 <= i < |ds| ==> ds[i] == '0')
  }

  function DigitChar(d: nat): (c: char)
    requires d < 10
    ensures IsDigit(c) && DigitValue(c) == d
  {
    (d + '0' as int) as char
  }

  /** The canonical decimal rendering of a natural number. */
  function NatToString(n: nat): (s: string)
    ensures |s| > 0 && AllDigits(s)
    decreases n
  {
    if n < 10 then [DigitChar(n)] else NatToString(n / 10) + [DigitChar(n % 10)]
  }

  /** Rendering then reading back a natural number gives the number, and the rendering is an
      integer literal Python accepts. */
  lemma {:induction false} NatToStringRoundTrip(n: nat)
    ensures DigitsValue(NatToString(n)) == n
    ensures IsIntLiteral(NatToString(n))
    ensures n > 0 ==> NatToString(n)[0] != '0'
    decreases n
  {
    var s := NatToString(n);
    if n >= 10 {
      NatToStringRoundTrip(n / 10);
      assert s[..|s| - 1] == NatToString(n / 10);
      assert s[0] == NatToString(n / 10)[0];
    }
  }
}
