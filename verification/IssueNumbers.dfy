/** Exact issue-number text: one canonical decimal string for each numeric value. */
module IssueNumbers {
  import opened DigitText
  import opened Options

  /** A parsed legacy value: sign, coefficient and power of ten, or one of the rejected kinds. */
  datatype Decimal =
    | Finite(negative: bool, coefficient: nat, exponent: int)
    | NotFinite
    | Unparsable

  datatype Formatted = Text(text: string) | Rejected

  const MAX_TEXT_LENGTH := 320

  // ----- Formatter -----

  function StripRight(s: string, c: char): string {
    if s != "" && s[|s| - 1] == c then StripRight(s[..|s| - 1], c) else s
  }

  function IntegerPart(digits: string, point: int): string {
    if point <= 0 then "0"
    else if point > |digits| then digits + Zeros(point - |digits|)
    else digits[..point]
  }

  function FractionPart(digits: string, point: int): string {
    if point < 0 then Zeros(-point) + digits
    else if point > |digits| then ""
    else digits[point..]
  }

  function Join(negative: bool, whole: string, fraction: string): string {
    (if negative then "-" else "") + whole + (if fraction == "" then "" else "." + fraction)
  }

  /** Fixed-point rendering of a finite value, trailing zeros included. */
  function Render(value: Decimal): string
    requires value.Finite?
  {
    var digits := Digits(value.coefficient);
    var point := value.exponent + |digits|;
    Join(value.negative, IntegerPart(digits, point), FractionPart(digits, point))
  }

  function Trim(rendered: string): string {
    if Contains(rendered, '.') then StripRight(StripRight(rendered, '0'), '.') else rendered
  }

  function FormatIssueNumber(value: Decimal): Formatted {
    match value
    case Unparsable => Rejected
    case NotFinite => Rejected
    case Finite(_, coefficient, _) =>
      if coefficient == 0 then Text("0")
      else
        var rendered := Trim(Render(value));
        if |rendered| > MAX_TEXT_LENGTH then Rejected else Text(rendered)
  }

  // ----- Numeric value -----

  /** coefficient * 10^exponent. */
  function Magnitude(coefficient: nat, exponent: int): (m: real)
    ensures m >= 0.0 && (m == 0.0 <==> coefficient == 0)
    decreases if exponent >= 0 then exponent else -exponent
  {
    if exponent == 0 then coefficient as real
    else if exponent > 0 then 10.0 * Magnitude(coefficient, exponent - 1)
    else Magnitude(coefficient, exponent + 1) / 10.0
  }

  function Value(value: Decimal): real
    requires value.Finite?
  {
    if value.negative then -Magnitude(value.coefficient, value.exponent)
    else Magnitude(value.coefficient, value.exponent)
  }

  /** Writing one more zero behind the coefficient changes neither the value... */
  lemma {:induction false} ScaleKeepsMagnitude(coefficient: nat, exponent: int)
    ensures Magnitude(coefficient * 10, exponent - 1) == Magnitude(coefficient, exponent)
    decreases if exponent >= 0 then exponent else -exponent
  {
    if exponent > 0 {
      ScaleKeepsMagnitude(coefficient, exponent - 1);
    } else if exponent < 0 {
      ScaleKeepsMagnitude(coefficient, exponent + 1);
    }
  }

  lemma {:induction false} MagnitudeDetermines(c: nat, d: nat, exponent: int)
    requires Magnitude(c, exponent) == Magnitude(d, exponent)
    ensures c == d
    decreases if exponent >= 0 then exponent else -exponent
  {
    if exponent > 0 {
      MagnitudeDetermines(c, d, exponent - 1);
    } else if exponent < 0 {
      MagnitudeDetermines(c, d, exponent + 1);
    }
  }

  // ----- Trimming works on the fraction alone -----

  lemma {:induction false} StripRightAfter(prefix: string, s: string, c: char)
    requires prefix != "" && prefix[|prefix| - 1] != c
    ensures StripRight(prefix + s, c) == prefix + StripRight(s, c)
  {
    if s == "" {
      assert prefix + s == prefix;
    } else if s[|s| - 1] == c {
      StripRightAfter(prefix, s[..|s| - 1], c);
      assert (prefix + s)[..|prefix + s| - 1] == prefix + s[..|s| - 1];
    }
  }

  lemma {:induction false} StripRightDigits(s: string, c: char)
    requires AllDigits(s)
    ensures AllDigits(StripRight(s, c))
  {
    if s == "" || s[|s| - 1] != c {
    } else {
      StripRightDigits(s[..|s| - 1], c);
    }
  }

  lemma TrimFraction(head: string, fraction: string)
    requires head != "" && '0' <= head[|head| - 1] <= '9'
    requires fraction != "" && AllDigits(fraction)
    ensures var kept := StripRight(fraction, '0');
            Trim(head + "." + fraction) == head + if kept == "" then "" else "." + kept
  {
    var pointed := head + ".";
    var kept := StripRight(fraction, '0');
    assert (pointed + fraction)[|head|] == '.';
    StripRightAfter(pointed, fraction, '0');
    StripRightDigits(fraction, '0');
    if kept == "" {
      assert pointed + kept == pointed;
      StripRightAfter(head, ".", '.');
      assert StripRight(".", '.') == "" by {
        assert "."[..0] == "";
      }
      assert head + "" == head;
    } else {
      assert pointed + kept == head + ("." + kept);
    }
  }

  lemma TrimWhole(head: string)
    requires forall i | 0 <= i < |head| :: head[i] != '.'
    ensures Trim(head) == head
  {
  }

  /** Trimming a rendered number strips the zeros of its fraction and nothing else. */
  lemma TrimJoin(negative: bool, whole: string, fraction: string)
    requires whole != "" && AllDigits(whole) && AllDigits(fraction)
    ensures Trim(Join(negative, whole, fraction)) == Join(negative, whole, StripRight(fraction, '0'))
  {
    var head := (if negative then "-" else "") + whole;
    assert head[|head| - 1] == whole[|whole| - 1];
    if fraction == "" {
      assert head + "" == head;
      TrimWhole(head);
    } else {
      TrimFraction(head, fraction);
      assert head + "." + fraction == head + ("." + fraction);
    }
  }

  lemma PartsAreDigits(value: Decimal)
    requires value.Finite?
    ensures var digits := Digits(value.coefficient);
            var point := value.exponent + |digits|;
            && IntegerPart(digits, point) != "" && AllDigits(IntegerPart(digits, point))
            && AllDigits(FractionPart(digits, point))
  {
  }

  // ----- ... nor the text -----

  lemma {:induction false} StripRightAppend(s: string, c: char)
    ensures StripRight(s + [c], c) == StripRight(s, c)
  {
    assert (s + [c])[..|s|] == s;
  }

  lemma PartsOfTenfold(digits: string, point: int)
    requires digits != ""
    ensures IntegerPart(digits + "0", point) == IntegerPart(digits, point)
    ensures FractionPart(digits + "0", point) == FractionPart(digits, point)
         || FractionPart(digits + "0", point) == FractionPart(digits, point) + "0"
  {
    if point > |digits| {
      assert digits + "0" + Zeros(point - |digits| - 1) == digits + Zeros(point - |digits|);
    }
  }

  lemma ScaleKeepsText(value: Decimal)
    requires value.Finite? && value.coefficient > 0
    ensures Trim(Render(Finite(value.negative, value.coefficient * 10, value.exponent - 1))) == Trim(Render(value))
  {
    var digits := Digits(value.coefficient);
    var scaled := Finite(value.negative, value.coefficient * 10, value.exponent - 1);
    var point := value.exponent + |digits|;
    assert Digits(scaled.coefficient) == digits + "0";
    PartsOfTenfold(digits, point);
    StripRightAppend(FractionPart(digits, point), '0');
    PartsAreDigits(value);
    PartsAreDigits(scaled);
    TrimJoin(value.negative, IntegerPart(digits, point), FractionPart(digits, point));
    TrimJoin(value.negative, IntegerPart(digits, point), FractionPart(digits + "0", point));
  }

  // ----- Equal values print alike -----

  lemma {:induction false} SameMagnitudePrintsAlike(negative: bool, c: nat, e: int, d: nat, f: int)
    requires c > 0 && f <= e && Magnitude(c, e) == Magnitude(d, f)
    ensures Trim(Render(Finite(negative, c, e))) == Trim(Render(Finite(negative, d, f)))
    decreases e - f
  {
    if e == f {
      MagnitudeDetermines(c, d, e);
    } else {
      ScaleKeepsMagnitude(c, e);
      ScaleKeepsText(Finite(negative, c, e));
      SameMagnitudePrintsAlike(negative, c * 10, e - 1, d, f);
    }
  }

  lemma EqualValuesFormatAlike(a: Decimal, b: Decimal)
    requires a.Finite? && b.Finite? && Value(a) == Value(b)
    ensures FormatIssueNumber(a) == FormatIssueNumber(b)
  {
    if a.coefficient > 0 {
      assert b.coefficient > 0 && a.negative == b.negative;
      if a.exponent >= b.exponent {
        SameMagnitudePrintsAlike(a.negative, a.coefficient, a.exponent, b.coefficient, b.exponent);
      } else {
        SameMagnitudePrintsAlike(a.negative, b.coefficient, b.exponent, a.coefficient, a.exponent);
      }
    }
  }

  // ----- Reading the text back -----

  function IndexOf(s: string, c: char): (i: nat)
    ensures i <= |s| && (i < |s| ==> s[i] == c)
    ensures forall j | 0 <= j < i :: s[j] != c
  {
    if s == "" || s[0] == c then 0 else 1 + IndexOf(s[1..], c)
  }

  /** The number written with these digits around the point. */
  function Read(negative: bool, whole: string, fraction: string): (value: Decimal)
    requires AllDigits(whole + fraction)
    ensures value.Finite?
  {
    Finite(negative, Number(whole + fraction), -|fraction|)
  }

  function ParseBody(negative: bool, body: string): Option<Decimal> {
    var point := IndexOf(body, '.');
    var whole, fraction := body[..point], if point < |body| then body[point + 1..] else "";
    if whole == "" || !AllDigits(whole + fraction) then None else Some(Read(negative, whole, fraction))
  }

  /** A plain decimal string as a coefficient and a power of ten. */
  function ParseText(s: string): Option<Decimal> {
    if s != "" && s[0] == '-' then ParseBody(true, s[1..]) else ParseBody(false, s)
  }

  lemma IndexOfPoint(whole: string, rest: string)
    requires AllDigits(whole) && (rest == "" || rest[0] == '.')
    ensures IndexOf(whole + rest, '.') == |whole|
  {
    var s := whole + rest;
    assert forall j | 0 <= j < |whole| :: s[j] == whole[j];
    assert rest != "" ==> s[|whole|] == '.';
  }

  lemma ParseWhole(negative: bool, whole: string)
    requires whole != "" && AllDigits(whole)
    ensures AllDigits(whole + "") && ParseBody(negative, whole) == Some(Read(negative, whole, ""))
  {
    IndexOfPoint(whole, "");
    assert whole + "" == whole;
    assert whole[..|whole|] == whole;
  }

  lemma ParseFraction(negative: bool, whole: string, fraction: string)
    requires whole != "" && AllDigits(whole) && AllDigits(fraction)
    ensures AllDigits(whole + fraction)
    ensures ParseBody(negative, whole + ("." + fraction)) == Some(Read(negative, whole, fraction))
  {
    var body := whole + ("." + fraction);
    IndexOfPoint(whole, "." + fraction);
    assert body[..|whole|] == whole;
    assert body[|whole| + 1..] == fraction;
  }

  lemma JoinBody(negative: bool, whole: string, rest: string)
    requires whole != "" && AllDigits(whole)
    ensures ParseText((if negative then "-" else "") + whole + rest) == ParseBody(negative, whole + rest)
  {
    var s := (if negative then "-" else "") + whole + rest;
    assert s[0] == if negative then '-' else whole[0];
    assert (if negative then s[1..] else s) == whole + rest;
  }

  lemma ParseJoin(negative: bool, whole: string, fraction: string)
    requires whole != "" && AllDigits(whole) && AllDigits(fraction)
    ensures AllDigits(whole + fraction)
    ensures ParseText(Join(negative, whole, fraction)) == Some(Read(negative, whole, fraction))
  {
    if fraction == "" {
      JoinBody(negative, whole, "");
      ParseWhole(negative, whole);
      assert whole + "" == whole;
    } else {
      JoinBody(negative, whole, "." + fraction);
      ParseFraction(negative, whole, fraction);
    }
  }

  lemma ReadLastZero(negative: bool, whole: string, fraction: string)
    requires AllDigits(whole + fraction)
    ensures AllDigits(whole + (fraction + ['0']))
    ensures Value(Read(negative, whole, fraction + ['0'])) == Value(Read(negative, whole, fraction))
  {
    NumberAppend(whole + fraction, '0');
    assert whole + (fraction + ['0']) == whole + fraction + ['0'];
    ScaleKeepsMagnitude(Number(whole + fraction), -|fraction|);
  }

  lemma {:induction false} StripKeepsValue(negative: bool, whole: string, fraction: string)
    requires AllDigits(whole) && AllDigits(fraction)
    ensures AllDigits(whole + StripRight(fraction, '0')) && AllDigits(whole + fraction)
    ensures Value(Read(negative, whole, StripRight(fraction, '0'))) == Value(Read(negative, whole, fraction))
  {
    if fraction == "" || fraction[|fraction| - 1] != '0' {
    } else {
      var rest := fraction[..|fraction| - 1];
      StripKeepsValue(negative, whole, rest);
      ReadLastZero(negative, whole, rest);
      assert fraction == rest + ['0'];
    }
  }

  lemma {:induction false} TrailingZerosKeepMagnitude(digits: string, k: nat)
    requires AllDigits(digits)
    ensures AllDigits(digits + Zeros(k)) && Magnitude(Number(digits + Zeros(k)), 0) == Magnitude(Number(digits), k)
    decreases k
  {
    if k == 0 {
      assert digits + Zeros(0) == digits;
    } else {
      NumberAppend(digits, '0');
      TrailingZerosKeepMagnitude(digits + ['0'], k - 1);
      assert digits + ['0'] + Zeros(k - 1) == digits + Zeros(k);
      ScaleKeepsMagnitude(Number(digits), k);
    }
  }

  /** Placing the point keeps the value of the digits. */
  ghost predicate PointKeepsValue(negative: bool, digits: string, exponent: int) {
    var point := exponent + |digits|;
    var whole, fraction := IntegerPart(digits, point), FractionPart(digits, point);
    && AllDigits(digits) && AllDigits(whole + fraction)
    && Value(Read(negative, whole, fraction)) == Value(Finite(negative, Number(digits), exponent))
  }

  lemma PointInside(negative: bool, digits: string, exponent: int)
    requires AllDigits(digits) && 0 < exponent + |digits| <= |digits|
    ensures PointKeepsValue(negative, digits, exponent)
  {
    var point := exponent + |digits|;
    assert digits[..point] + digits[point..] == digits;
  }

  lemma MoreZeros(k: nat, digits: string)
    ensures "0" + (Zeros(k) + digits) == Zeros(k + 1) + digits
  {
    var left, right := "0" + (Zeros(k) + digits), Zeros(k + 1) + digits;
    assert forall i | 0 <= i <= k :: left[i] == '0' && right[i] == '0';
    assert left[k + 1..] == digits && right[k + 1..] == digits;
  }

  lemma PointBefore(negative: bool, digits: string, exponent: int)
    requires AllDigits(digits) && exponent + |digits| <= 0
    ensures PointKeepsValue(negative, digits, exponent)
  {
    var k := -(exponent + |digits|);
    NumberLeadingZeros(k + 1, digits);
    MoreZeros(k, digits);
    var point := exponent + |digits|;
    var fraction := Zeros(k) + digits;
    assert IntegerPart(digits, point) == "0";
    assert FractionPart(digits, point) == fraction by {
      if k == 0 {
        assert digits[0..] == digits && fraction == digits;
      }
    }
    assert Read(negative, "0", fraction) == Finite(negative, Number(digits), exponent);
  }

  lemma PointAfter(negative: bool, digits: string, exponent: int)
    requires AllDigits(digits) && digits != "" && exponent > 0
    ensures PointKeepsValue(negative, digits, exponent)
  {
    TrailingZerosKeepMagnitude(digits, exponent);
    assert digits + Zeros(exponent) + "" == digits + Zeros(exponent);
  }

  lemma PlacingThePoint(negative: bool, digits: string, exponent: int)
    requires digits != "" && AllDigits(digits)
    ensures PointKeepsValue(negative, digits, exponent)
  {
    if exponent > 0 {
      PointAfter(negative, digits, exponent);
    } else if exponent + |digits| > 0 {
      PointInside(negative, digits, exponent);
    } else {
      PointBefore(negative, digits, exponent);
    }
  }

  lemma ZeroReadsBack()
    ensures ParseText("0").Some? && Value(ParseText("0").value) == 0.0
  {
    ParseJoin(false, "0", "");
    assert Join(false, "0", "") == "0";
    NumberOfZeros(1);
    assert "0" + "" == Zeros(1);
  }

  lemma TrimmedReadsBack(negative: bool, whole: string, fraction: string)
    requires whole != "" && AllDigits(whole) && AllDigits(fraction) && AllDigits(whole + fraction)
    ensures var text := Trim(Join(negative, whole, fraction));
            ParseText(text).Some? && Value(ParseText(text).value) == Value(Read(negative, whole, fraction))
  {
    StripKeepsValue(negative, whole, fraction);
    StripRightDigits(fraction, '0');
    TrimJoin(negative, whole, fraction);
    ParseJoin(negative, whole, StripRight(fraction, '0'));
  }

  lemma RenderedReadsBack(value: Decimal)
    requires value.Finite?
    ensures ParseText(Trim(Render(value))).Some?
    ensures Value(ParseText(Trim(Render(value))).value) == Value(value)
  {
    var digits := Digits(value.coefficient);
    var point := value.exponent + |digits|;
    PartsAreDigits(value);
    NumberOfDigits(value.coefficient);
    PlacingThePoint(value.negative, digits, value.exponent);
    TrimmedReadsBack(value.negative, IntegerPart(digits, point), FractionPart(digits, point));
  }

  /** The text of a number reads back to the same value. */
  lemma TextReadsBack(value: Decimal)
    requires FormatIssueNumber(value).Text?
    ensures value.Finite?
    ensures ParseText(FormatIssueNumber(value).text).Some?
    ensures Value(ParseText(FormatIssueNumber(value).text).value) == Value(value)
  {
    if value.coefficient == 0 {
      ZeroReadsBack();
    } else {
      RenderedReadsBack(value);
    }
  }

  /** Canonical: two formatted values print alike exactly when they are numerically equal. */
  lemma FormatIsCanonical(a: Decimal, b: Decimal)
    requires FormatIssueNumber(a).Text? && FormatIssueNumber(b).Text?
    ensures a.Finite? && b.Finite?
    ensures FormatIssueNumber(a) == FormatIssueNumber(b) <==> Value(a) == Value(b)
  {
    TextReadsBack(a);
    TextReadsBack(b);
    if Value(a) == Value(b) {
      EqualValuesFormatAlike(a, b);
    }
  }

  // ----- The text is the shortest -----

  /** `s` is a plain decimal text of this value. */
  ghost predicate Writes(s: string, value: Decimal) {
    value.Finite? && ParseText(s).Some? && Value(ParseText(s).value) == Value(value)
  }

  lemma EqualValuesRenderAlike(a: Decimal, b: Decimal)
    requires a.Finite? && b.Finite? && Value(a) == Value(b) && a.coefficient > 0
    ensures Trim(Render(a)) == Trim(Render(b))
  {
    assert b.coefficient > 0 && a.negative == b.negative;
    if a.exponent >= b.exponent {
      SameMagnitudePrintsAlike(a.negative, a.coefficient, a.exponent, b.coefficient, b.exponent);
    } else {
      SameMagnitudePrintsAlike(a.negative, b.coefficient, b.exponent, a.coefficient, a.exponent);
    }
  }

  lemma SplitDigits(a: string, b: string)
    requires AllDigits(a + b)
    ensures AllDigits(a) && AllDigits(b)
  {
    assert forall i | 0 <= i < |a| :: a[i] == (a + b)[i];
    assert forall i | 0 <= i < |b| :: b[i] == (a + b)[|a| + i];
  }

  /** A parsed body is its whole part, and its fraction if there is a point. */
  lemma BodyShape(negative: bool, body: string) returns (whole: string, fraction: string)
    requires ParseBody(negative, body).Some?
    ensures whole != "" && AllDigits(whole) && AllDigits(fraction) && AllDigits(whole + fraction)
    ensures ParseBody(negative, body).value == Read(negative, whole, fraction)
    ensures body == whole + ("." + fraction) || (body == whole && fraction == "")
  {
    var point := IndexOf(body, '.');
    whole, fraction := body[..point], if point < |body| then body[point + 1..] else "";
    SplitDigits(whole, fraction);
    if point < |body| {
      assert body == whole + ("." + fraction);
    }
  }

  lemma JoinRegroups(negative: bool, whole: string, fraction: string, body: string)
    requires body == whole + ("." + fraction) || (body == whole && fraction == "")
    ensures var s := (if negative then "-" else "") + body;
            |Join(negative, whole, fraction)| <= |s|
            && (|Join(negative, whole, fraction)| == |s| ==> Join(negative, whole, fraction) == s)
  {
  }

  /** What parses has at least the length of its sign, digits and point, and no other form if no more. */
  lemma ParsedShape(s: string) returns (negative: bool, whole: string, fraction: string)
    requires ParseText(s).Some?
    ensures whole != "" && AllDigits(whole) && AllDigits(fraction) && AllDigits(whole + fraction)
    ensures ParseText(s).value == Read(negative, whole, fraction)
    ensures |Join(negative, whole, fraction)| <= |s|
    ensures |Join(negative, whole, fraction)| == |s| ==> Join(negative, whole, fraction) == s
  {
    negative := s != "" && s[0] == '-';
    var body := if negative then s[1..] else s;
    whole, fraction := BodyShape(negative, body);
    assert s == (if negative then "-" else "") + body;
    JoinRegroups(negative, whole, fraction, body);
  }

  lemma SplitInDigits(zeros: string, digits: string, whole: string, fraction: string)
    requires zeros + digits == whole + fraction && |fraction| < |digits|
    ensures digits[|digits| - |fraction|..] == fraction
    ensures whole == zeros + digits[..|digits| - |fraction|]
  {
    var t, point := whole + fraction, |digits| - |fraction|;
    assert t[|whole|..] == fraction && t[..|whole|] == whole;
    assert (zeros + digits)[|zeros| + point..] == digits[point..];
    assert (zeros + digits)[..|zeros| + point] == zeros + digits[..point];
  }

  lemma SplitInZeros(zeros: nat, digits: string, whole: string, fraction: string)
    requires Zeros(zeros) + digits == whole + fraction && |fraction| >= |digits|
    ensures fraction == Zeros(|fraction| - |digits|) + digits && whole == Zeros(|whole|)
  {
    var t := whole + fraction;
    assert forall i | 0 <= i < zeros :: t[i] == '0';
    assert forall i | 0 <= i < |whole| :: whole[i] == t[i];
    assert forall i | 0 <= i < |fraction| :: fraction[i] == t[|whole| + i];
    assert t[zeros..] == digits;
  }

  lemma NoPointInside(digits: string, fraction: string)
    requires |fraction| >= |digits| && fraction == Zeros(|fraction| - |digits|) + digits
    ensures FractionPart(digits, |digits| - |fraction|) == fraction
    ensures IntegerPart(digits, |digits| - |fraction|) == "0"
  {
    if |fraction| == |digits| {
      assert Zeros(0) + digits == digits[0..];
    }
  }

  /** Placing the point in what digits spell gives back their fraction, and a whole part without
      superfluous zeros. */
  lemma RenderedParts(whole: string, fraction: string)
    requires whole != "" && AllDigits(whole + fraction)
    ensures var digits := Digits(Number(whole + fraction));
            var point := |digits| - |fraction|;
            && FractionPart(digits, point) == fraction
            && |IntegerPart(digits, point)| <= |whole|
            && (|IntegerPart(digits, point)| == |whole| ==> IntegerPart(digits, point) == whole)
  {
    var digits := Digits(Number(whole + fraction));
    var zeros := |whole + fraction| - |digits|;
    LeadingZeros(whole + fraction);
    if |fraction| < |digits| {
      SplitInDigits(Zeros(zeros), digits, whole, fraction);
    } else {
      SplitInZeros(zeros, digits, whole, fraction);
      NoPointInside(digits, fraction);
    }
  }

  lemma {:induction false} StripRightShortens(s: string, c: char)
    ensures |StripRight(s, c)| <= |s|
    ensures |StripRight(s, c)| == |s| ==> StripRight(s, c) == s
  {
    if s == "" || s[|s| - 1] != c {
    } else {
      StripRightShortens(s[..|s| - 1], c);
    }
  }

  lemma JoinShortens(negative: bool, whole: string, fraction: string, longWhole: string, longFraction: string)
    requires |whole| <= |longWhole| && (|whole| == |longWhole| ==> whole == longWhole)
    requires |fraction| <= |longFraction| && (|fraction| == |longFraction| ==> fraction == longFraction)
    ensures |Join(negative, whole, fraction)| <= |Join(negative, longWhole, longFraction)|
    ensures |Join(negative, whole, fraction)| == |Join(negative, longWhole, longFraction)| ==>
              Join(negative, whole, fraction) == Join(negative, longWhole, longFraction)
  {
  }

  lemma PrintedParts(negative: bool, whole: string, fraction: string) returns (printed: string)
    requires whole != "" && AllDigits(whole + fraction) && AllDigits(fraction)
    ensures Trim(Render(Read(negative, whole, fraction))) == Join(negative, printed, StripRight(fraction, '0'))
    ensures |printed| <= |whole| && (|printed| == |whole| ==> printed == whole)
  {
    var value := Read(negative, whole, fraction);
    var digits := Digits(value.coefficient);
    printed := IntegerPart(digits, value.exponent + |digits|);
    RenderedParts(whole, fraction);
    PartsAreDigits(value);
    TrimJoin(negative, printed, fraction);
  }

  /** Printing what was read from a text is never longer than the text. */
  lemma PrintedIsShorter(negative: bool, whole: string, fraction: string)
    requires whole != "" && AllDigits(whole) && AllDigits(fraction) && AllDigits(whole + fraction)
    ensures var text := Trim(Render(Read(negative, whole, fraction)));
            && |text| <= |Join(negative, whole, fraction)|
            && (|text| == |Join(negative, whole, fraction)| ==> text == Join(negative, whole, fraction))
  {
    var printed := PrintedParts(negative, whole, fraction);
    StripRightShortens(fraction, '0');
    JoinShortens(negative, printed, StripRight(fraction, '0'), whole, fraction);
  }

  /** The text a value gets when its length does not matter. */
  function PlainText(value: Decimal): string
    requires value.Finite?
  {
    if value.coefficient == 0 then "0" else Trim(Render(value))
  }

  lemma PlainTextWrites(value: Decimal)
    requires value.Finite?
    ensures Writes(PlainText(value), value)
  {
    if value.coefficient == 0 {
      ZeroReadsBack();
    } else {
      RenderedReadsBack(value);
    }
  }

  /** Every text of the same value is longer or the same. */
  lemma PlainTextIsShortest(value: Decimal, s: string)
    requires Writes(s, value)
    ensures |PlainText(value)| <= |s|
    ensures |PlainText(value)| == |s| ==> PlainText(value) == s
  {
    var negative, whole, fraction := ParsedShape(s);
    if value.coefficient == 0 {
      assert Number(whole + fraction) == 0;
      if |s| == 1 {
        assert whole + fraction == s == whole;
        LeadingZeros(s);
      }
    } else {
      EqualValuesRenderAlike(value, Read(negative, whole, fraction));
      PrintedIsShorter(negative, whole, fraction);
    }
  }

  /** Some plain decimal text of the value has at most 320 characters. */
  ghost predicate IsWritable(value: Decimal) {
    exists s :: |s| <= 320 && Writes(s, value)
  }

  /** `s` writes the value, and every other text that does is longer. */
  ghost predicate IsShortestText(s: string, value: Decimal) {
    Writes(s, value) && forall t | Writes(t, value) && t != s :: |t| > |s|
  }

  /** The formatter accepts exactly the values that some text of at most 320 characters writes, and
      returns the shortest text that does. */
  lemma FormatsWhenWritable(value: Decimal)
    ensures FormatIssueNumber(value).Text? <==> IsWritable(value)
    ensures FormatIssueNumber(value).Text? ==> IsShortestText(FormatIssueNumber(value).text, value)
  {
    if value.Finite? {
      PlainTextWrites(value);
      forall s | Writes(s, value)
        ensures |PlainText(value)| <= |s| && (|PlainText(value)| == |s| ==> PlainText(value) == s)
      {
        PlainTextIsShortest(value, s);
      }
    }
  }
}
