/** The texts that are read as a number, and the number each is read as. */
module NumericLiteral {
  import opened Options
  import opened Powers
  import opened DecimalText

  /** The parts of the text, left to right: sign, digits, perhaps a point and more digits, perhaps an exponent mark with
      its sign and digits, and whatever follows. */
  datatype Literal = Literal(sign: string, whole: seq<Digit>, point: bool, fraction: seq<Digit>, mark: string,
                             exponent: seq<Digit>, tail: string)

  function PointText(l: Literal): string {
    if l.point then "." + Chars(l.fraction) else ""
  }

  function Text(l: Literal): string {
    l.sign + Chars(l.whole) + PointText(l) + l.mark + Chars(l.exponent) + l.tail
  }

  /** There is a digit before the exponent; a mark is followed by digits; and the tail could not have been part of it. */
  predicate IsLiteral(l: Literal) {
    && (l.sign == "" || l.sign == "+" || l.sign == "-")
    && (l.mark == "" || l.mark == "e" || l.mark == "E" || l.mark == "e+" || l.mark == "E+" || l.mark == "e-" || l.mark == "E-")
    && (l.whole != [] || l.fraction != []) && (!l.point ==> l.fraction == [])
    && (l.mark == "" <==> l.exponent == []) && !IsDigit(At(l.tail, 0))
    && (l.mark == "" ==> At(l.tail, 0) != 'e' && At(l.tail, 0) != 'E' && (!l.point ==> At(l.tail, 0) != '.'))
  }

  function Meaning(l: Literal): Numeral {
    Numeral(l.sign == "-", l.whole, l.fraction,
            if l.mark == "e-" || l.mark == "E-" then -(Dec(l.exponent) as int) else Dec(l.exponent))
  }

  // ----- from the parts to the number -----

  /** A literal is read as what it means. */
  lemma LiteralReads(l: Literal)
    requires IsLiteral(l)
    ensures ReadNumeral(Text(l)) == Some(Meaning(l)) && !IsInfinity(Text(l), SignLength(Text(l), 0))
  {
    hide Dec, DigitsFrom, Chars, PointText;
    var s, start := Text(l), |l.sign|;
    var x := l.mark + Chars(l.exponent) + l.tail;
    var rest := PointText(l) + x;
    AfterMantissa(l);
    Regroup(l.sign + Chars(l.whole), PointText(l), l.mark, Chars(l.exponent), l.tail);
    AfterWhole(l, x);
    WholeReads(l.sign, l.whole, rest);
    assert s == l.sign + Chars(l.whole) + rest;
    FractionReads(l, x);
    var before := l.sign + Chars(l.whole) + PointText(l);
    assert s == before + x;
    ExponentReads(l, before);
    MantissaOf(l, x);
  }

  lemma Regroup(a: string, p: string, m: string, d: string, t: string)
    ensures a + p + m + d + t == a + (p + (m + d + t)) == a + p + (m + d + t)
  {}

  /** What stands behind the digits of the mantissa. */
  lemma AfterMantissa(l: Literal)
    requires IsLiteral(l)
    ensures var x := l.mark + Chars(l.exponent) + l.tail;
      !IsDigit(At(x, 0)) && (!l.point ==> At(x, 0) != '.')
  {
    if l.mark == "" {
      assert l.mark + Chars(l.exponent) + l.tail == l.tail;
    } else {
      assert (l.mark + Chars(l.exponent) + l.tail)[0] == l.mark[0];
    }
  }

  lemma AfterWhole(l: Literal, x: string)
    requires IsLiteral(l) && !IsDigit(At(x, 0)) && (!l.point ==> At(x, 0) != '.')
    ensures !IsDigit(At(PointText(l) + x, 0)) && (l.point <==> At(PointText(l) + x, 0) == '.')
    ensures l.whole == [] ==> l.point && l.fraction != []
  {
    if l.point {
      assert (PointText(l) + x)[0] == '.';
    } else {
      assert PointText(l) + x == x;
    }
  }

  lemma WholeReads(sign: string, whole: seq<Digit>, rest: string)
    requires (sign == "" || sign == "-" || sign == "+") && !IsDigit(At(rest, 0)) && (whole == [] ==> At(rest, 0) == '.')
    ensures var s := sign + Chars(whole) + rest;
      && SignLength(s, 0) == |sign| && (At(s, 0) == '-' <==> sign == "-") && !IsInfinity(s, |sign|)
      && DigitsFrom(s, |sign|) == whole
  {
    hide DigitsFrom, IsInfinity, SignLength, Chars;
    FirstAfterSign(sign, whole, rest);
    SignReads(sign, sign + Chars(whole) + rest);
    DigitsOfChars(sign, whole, rest);
  }

  lemma FirstAfterSign(sign: string, whole: seq<Digit>, rest: string)
    requires whole == [] ==> At(rest, 0) == '.'
    ensures var s := sign + Chars(whole) + rest;
      |sign| < |s| && s[..|sign|] == sign && (IsDigit(s[|sign|]) || s[|sign|] == '.')
  {
    var s := sign + Chars(whole) + rest;
    assert s[..|sign|] == sign;
    if whole == [] {
      assert |s| > |sign| && s[|sign|] == rest[0];
    } else {
      assert s[|sign|] == DigitChar(whole[0]);
    }
  }

  lemma SignReads(sign: string, s: string)
    requires (sign == "" || sign == "-" || sign == "+") && |sign| < |s| && s[..|sign|] == sign
    requires IsDigit(s[|sign|]) || s[|sign|] == '.'
    ensures SignLength(s, 0) == |sign| && (At(s, 0) == '-' <==> sign == "-") && !IsInfinity(s, |sign|)
  {
    if sign != "" {
      assert s[0] == s[..1][0];
    }
    if IsInfinity(s, |sign|) {
      assert s[|sign|] == s[|sign|..|sign| + 8][0];
    }
  }

  lemma FractionReads(l: Literal, x: string)
    requires IsLiteral(l) && !IsDigit(At(x, 0)) && (!l.point ==> At(x, 0) != '.')
    ensures var before := l.sign + Chars(l.whole); var s := before + (PointText(l) + x);
      && (PointAt(s, |l.sign|, |before|) <==> l.point)
      && (l.point ==> DigitsFrom(s, |before| + 1) == l.fraction)
  {
    hide DigitsFrom, Chars;
    var before := l.sign + Chars(l.whole);
    var s := before + (PointText(l) + x);
    if l.point {
      var more := before + ".";
      assert s == more + Chars(l.fraction) + x;
      DigitsOfChars(more, l.fraction, x);
      DigitsFromAt(s, |more|, 0);
      assert s[|before|] == '.';
    } else {
      assert At(s, |before|) == At(x, 0);
    }
  }

  lemma ExponentReads(l: Literal, before: string)
    requires IsLiteral(l)
    ensures ReadExponent(before + (l.mark + Chars(l.exponent) + l.tail), |before|) == Some(Meaning(l).exponent)
  {
    hide DigitsFrom, Dec, Chars;
    var s := before + (l.mark + Chars(l.exponent) + l.tail);
    if l.mark == "" {
      EmptyDigits();
      assert s == before + l.tail;
      assert At(s, |before|) == At(l.tail, 0);
    } else {
      var more := before + l.mark;
      assert s == more + Chars(l.exponent) + l.tail;
      DigitsOfChars(more, l.exponent, l.tail);
      DigitsFromAt(s, |more|, 0);
      assert At(s, |before|) == l.mark[0];
      assert |l.mark| == 2 ==> At(s, |before| + 1) == l.mark[1];
    }
  }

  lemma EmptyDigits()
    ensures Chars([]) == "" && Dec([]) == 0
  {}

  lemma MantissaOf(l: Literal, x: string)
    requires IsLiteral(l) && DigitsFrom(Text(l), |l.sign|) == l.whole
    requires PointAt(Text(l), |l.sign|, |l.sign| + |l.whole|) <==> l.point
    requires l.point ==> DigitsFrom(Text(l), |l.sign| + |l.whole| + 1) == l.fraction
    ensures Whole(Text(l), |l.sign|) == l.whole && Fraction(Text(l), |l.sign|) == l.fraction
    ensures MantissaEnd(Text(l), |l.sign|) == |l.sign| + |l.whole| + |PointText(l)|
  {
    hide DigitsFrom, Text;
  }

  // ----- from the text to the parts -----

  lemma {:induction false} CharsOfDigits(s: string, i: nat)
    requires i <= |s|
    ensures var ds := DigitsFrom(s, i); i + |ds| <= |s| && s[i..i + |ds|] == Chars(ds)
    decreases |s| - i
  {
    var ds := DigitsFrom(s, i);
    if ds != [] {
      CharsOfDigits(s, i + 1);
      assert DigitChar(ds[0]) == s[i];
      assert s[i..i + |ds|] == [s[i]] + s[i + 1..i + |ds|];
      assert Chars(ds) == [DigitChar(ds[0])] + Chars(ds[1..]);
    }
  }

  /** A text is read as a number only if it is a literal with that meaning. */
  lemma ReadIsLiteral(s: string) returns (l: Literal)
    requires ReadNumeral(s).Some?
    ensures IsLiteral(l) && Text(l) == s && Meaning(l) == ReadNumeral(s).value
  {
    hide Dec, DigitsFrom, Chars, ReadExponent, IsLiteral, Text, Meaning;
    var start := SignLength(s, 0);
    var whole, end := Whole(s, start), MantissaEnd(s, start);
    SignParts(s);
    var point, fraction := MantissaParts(s, start);
    var mark, exponent, tail := ExponentParts(s, end);
    l := Literal(s[..start], whole, point, fraction, mark, exponent, tail);
    assert PointText(l) == s[start + |whole|..end];
    TextIs(s, l, start, start + |whole|, end);
    Assembled(s, l, start, end);
  }

  lemma SignParts(s: string)
    ensures var k := SignLength(s, 0); k <= |s| && (s[..k] == "" || s[..k] == "+" || s[..k] == "-")
    ensures At(s, 0) == '-' <==> s[..SignLength(s, 0)] == "-"
  {}

  lemma MantissaParts(s: string, start: nat) returns (point: bool, fraction: seq<Digit>)
    requires start <= |s|
    ensures var w := Whole(s, start); var i, end := start + |w|, MantissaEnd(s, start);
      && fraction == Fraction(s, start) && (!point ==> fraction == []) && (end != start ==> w != [] || fraction != [])
      && start <= i <= end <= |s| && s[start..i] == Chars(w) && s[i..end] == (if point then "." + Chars(fraction) else "")
      && !IsDigit(At(s, end)) && (!point ==> At(s, end) != '.' || w == [])
  {
    hide DigitsFrom, Chars;
    var w := Whole(s, start);
    var i := start + |w|;
    CharsOfDigits(s, start);
    DigitsFromAt(s, start, |w|);
    point, fraction := PointAt(s, start, i), Fraction(s, start);
    if point {
      CharsOfDigits(s, i + 1);
      DigitsFromAt(s, i + 1, |fraction|);
      DigitsFromAt(s, i + 1, 0);
      assert s[i..i + 1 + |fraction|] == [s[i]] + s[i + 1..i + 1 + |fraction|];
    }
  }

  lemma ExponentParts(s: string, end: nat) returns (mark: string, exponent: seq<Digit>, tail: string)
    requires end <= |s| && ReadExponent(s, end).Some? && !IsDigit(At(s, end))
    ensures s[end..] == mark + Chars(exponent) + tail && !IsDigit(At(tail, 0)) && (mark == "" <==> exponent == [])
    ensures mark == "" || mark == "e" || mark == "E" || mark == "e+" || mark == "E+" || mark == "e-" || mark == "E-"
    ensures mark == "" ==> At(tail, 0) == At(s, end) && At(tail, 0) != 'e' && At(tail, 0) != 'E'
    ensures ReadExponent(s, end) == Some(if mark == "e-" || mark == "E-" then -(Dec(exponent) as int) else Dec(exponent))
  {
    hide DigitsFrom, Chars, Dec;
    EmptyDigits();
    if At(s, end) == 'e' || At(s, end) == 'E' {
      var k := 1 + SignLength(s, end + 1);
      mark, exponent := s[end..end + k], DigitsFrom(s, end + k);
      CharsOfDigits(s, end + k);
      DigitsFromAt(s, end + k, |exponent|);
      tail := s[end + k + |exponent|..];
      assert mark == if k == 1 then [s[end]] else [s[end], s[end + 1]];
      assert s[end..] == s[end..end + k] + s[end + k..end + k + |exponent|] + tail;
    } else {
      mark, exponent, tail := "", [], s[end..];
      assert s[end..] == "" + "" + tail;
    }
  }

  lemma TextIs(s: string, l: Literal, start: nat, i: nat, end: nat)
    requires start <= i <= end <= |s| && l.sign == s[..start] && s[start..i] == Chars(l.whole) && s[i..end] == PointText(l)
    requires s[end..] == l.mark + Chars(l.exponent) + l.tail
    ensures Text(l) == s
  {
    hide Chars, PointText;
    FourParts(s, start, i, end);
    Regroup(l.sign + Chars(l.whole), PointText(l), l.mark, Chars(l.exponent), l.tail);
  }

  lemma FourParts(s: string, a: nat, b: nat, c: nat)
    requires a <= b <= c <= |s|
    ensures s == s[..a] + s[a..b] + (s[b..c] + s[c..])
  {}

  lemma Assembled(s: string, l: Literal, start: nat, end: nat)
    requires ReadNumeral(s).Some? && start == SignLength(s, 0) && end == MantissaEnd(s, start)
    requires (l.sign == "" || l.sign == "+" || l.sign == "-") && (At(s, 0) == '-' <==> l.sign == "-")
    requires l.whole == Whole(s, start) && l.fraction == Fraction(s, start) && (!l.point ==> l.fraction == [])
    requires (end != start ==> l.whole != [] || l.fraction != []) && (!l.point ==> At(s, end) != '.' || l.whole == [])
    requires !IsDigit(At(l.tail, 0)) && (l.mark == "" <==> l.exponent == [])
    requires l.mark == "" || l.mark == "e" || l.mark == "E" || l.mark == "e+" || l.mark == "E+" || l.mark == "e-" || l.mark == "E-"
    requires l.mark == "" ==> At(l.tail, 0) == At(s, end) && At(l.tail, 0) != 'e' && At(l.tail, 0) != 'E'
    requires ReadExponent(s, end) == Some(if l.mark == "e-" || l.mark == "E-" then -(Dec(l.exponent) as int) else Dec(l.exponent))
    ensures IsLiteral(l) && Meaning(l) == ReadNumeral(s).value
  {
    hide Dec, MantissaEnd, Whole, Fraction, SignLength, ReadExponent;
  }
}
