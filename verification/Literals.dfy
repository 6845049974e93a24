/**
 Amounts as decimal literals.

 A literal is a sign, whole digits and digits after a point; it denotes its digits read as
 one number, over a power of ten. Parsing is exact: it answers the amount the literal
 denotes or refuses, and never rounds.
 */
module Literals {
  import opened Wrappers
  import opened Money
  import opened Powers

  /** The finest scale a machine amount carries. */
  const MAX_SCALE: nat := 18

  predicate IsDigit(c: char)
  {
    '0' <= c <= '9'
  }

  predicate AllDigits(s: string)
  {
    forall i :: 0 <= i < |s| ==> IsDigit(s[i])
  }

  function DigitOf(n: nat): char
    requires n < 10
  {
    '0' + n as char
  }

  function DigitValue(c: char): nat
  {
    if IsDigit(c) then (c - '0') as nat else 0
  }

  /** Digits read as one number. */
  function ValueOf(s: string): nat
  {
    if s == [] then 0 else ValueOf(s[..|s| - 1]) * 10 + DigitValue(s[|s| - 1])
  }

  /** A number in decimal, without leading zeros. */
  function Numeral(n: nat): string
  {
    if n < 10 then [DigitOf(n)] else Numeral(n / 10) + [DigitOf(n % 10)]
  }

  /** The last digits of a number, padded with zeros to a width. */
  function Padded(n: nat, width: nat): string
  {
    if width == 0 then [] else Padded(n / 10, width - 1) + [DigitOf(n % 10)]
  }

  /** Major units, and the minor units beside them. */
  function Majors(magnitude: nat, scale: nat): nat
  {
    Floor(magnitude, 1, Pow(10, scale))
  }

  function Minors(magnitude: nat, scale: nat): (n: nat)
    ensures n < Pow(10, scale)
  {
    Remainder(magnitude, 1, Pow(10, scale))
  }

  lemma MajorsAndMinors(magnitude: nat, scale: nat)
    ensures magnitude == Majors(magnitude, scale) * Pow(10, scale) + Minors(magnitude, scale)
  {
    hide Pow, Floor, Remainder;
    Divide(magnitude, 1, Pow(10, scale));
  }

  function Display(minor: i64, scale: nat): string
  {
    var magnitude := Magnitude(minor);
    (if minor < 0 then "-" else "")
      + (Numeral(Majors(magnitude, scale)) + if scale == 0 then "" else "." + Padded(Minors(magnitude, scale), scale))
  }

  lemma DigitRoundTrip(n: nat)
    requires n < 10
    ensures IsDigit(DigitOf(n)) && DigitValue(DigitOf(n)) == n
  {
  }

  lemma {:induction false} NumeralRoundTrip(n: nat)
    ensures AllDigits(Numeral(n)) && Numeral(n) != [] && ValueOf(Numeral(n)) == n
    ensures Numeral(n)[0] == '0' ==> n == 0 && |Numeral(n)| == 1
  {
    if n < 10 {
      DigitRoundTrip(n);
      assert [DigitOf(n)][..0] == [];
    } else {
      DigitRoundTrip(n % 10);
      NumeralRoundTrip(n / 10);
      assert Numeral(n)[..|Numeral(n)| - 1] == Numeral(n / 10);
    }
  }

  lemma {:induction false} PaddedRoundTrip(n: nat, width: nat)
    requires n < Pow(10, width)
    ensures AllDigits(Padded(n, width)) && |Padded(n, width)| == width && ValueOf(Padded(n, width)) == n
  {
    if width > 0 {
      DigitRoundTrip(n % 10);
      PaddedRoundTrip(n / 10, width - 1);
      assert Padded(n, width)[..width - 1] == Padded(n / 10, width - 1);
    }
  }

  lemma {:induction false} ValueConcat(a: string, b: string)
    ensures ValueOf(a + b) == ValueOf(a) * Pow(10, |b|) + ValueOf(b)
  {
    if b == [] {
      assert a + b == a;
    } else {
      var front := b[..|b| - 1];
      ValueConcat(a, front);
      assert (a + b)[..|a + b| - 1] == a + front;
      Scaled(ValueOf(a), Pow(10, |front|), ValueOf(front));
    }
  }

  lemma Scaled(a: nat, p: nat, v: nat)
    ensures (a * p + v) * 10 == a * (10 * p) + v * 10
  {
  }

  lemma {:induction false} ValueBound(s: string)
    ensures ValueOf(s) < Pow(10, |s|)
  {
    if s != [] {
      ValueBound(s[..|s| - 1]);
    }
  }

  predicate Zeros(s: string)
  {
    forall i :: 0 <= i < |s| ==> s[i] == '0'
  }

  lemma {:induction false} ZeroValue(s: string)
    requires AllDigits(s)
    ensures ValueOf(s) == 0 <==> Zeros(s)
  {
    if s != [] {
      ZeroValue(s[..|s| - 1]);
    }
  }

  // ---------------------------------------------------------------- white space

  /** The characters with the Unicode property White_Space. */
  predicate IsSpace(c: char)
  {
    || '\U{0009}' <= c <= '\U{000D}' || c == ' ' || c == '\U{0085}' || c == '\U{00A0}' || c == '\U{1680}'
    || '\U{2000}' <= c <= '\U{200A}' || c == '\U{2028}' || c == '\U{2029}' || c == '\U{202F}'
    || c == '\U{205F}' || c == '\U{3000}'
  }

  lemma SpacesAre(c: char)
    ensures IsSpace(c) <==> c in {
      '\U{0009}', '\U{000A}', '\U{000B}', '\U{000C}', '\U{000D}', '\U{0020}', '\U{0085}', '\U{00A0}', '\U{1680}',
      '\U{2000}', '\U{2001}', '\U{2002}', '\U{2003}', '\U{2004}', '\U{2005}', '\U{2006}', '\U{2007}', '\U{2008}',
      '\U{2009}', '\U{200A}', '\U{2028}', '\U{2029}', '\U{202F}', '\U{205F}', '\U{3000}' }
  {
  }

  predicate Blank(s: string)
  {
    forall i :: 0 <= i < |s| ==> IsSpace(s[i])
  }

  function TrimmedStart(s: string): string
  {
    if s != [] && IsSpace(s[0]) then TrimmedStart(s[1..]) else s
  }

  function TrimmedEnd(s: string): string
  {
    if s != [] && IsSpace(s[|s| - 1]) then TrimmedEnd(s[..|s| - 1]) else s
  }

  /** A text without the white space around it. */
  function Trimmed(s: string): string
  {
    TrimmedEnd(TrimmedStart(s))
  }

  /** A text with no white space at either end. */
  predicate Tight(s: string)
  {
    s != [] && !IsSpace(s[0]) && !IsSpace(s[|s| - 1])
  }

  lemma {:induction false} StartTrimmed(before: string, s: string)
    requires Blank(before) && (s == [] || !IsSpace(s[0]))
    ensures TrimmedStart(before + s) == s
  {
    hide IsSpace;
    if before == [] {
      assert before + s == s;
    } else {
      assert (before + s)[1..] == before[1..] + s && (before + s)[0] == before[0];
      StartTrimmed(before[1..], s);
    }
  }

  lemma {:induction false} EndTrimmed(s: string, after: string)
    requires Blank(after) && (s == [] || !IsSpace(s[|s| - 1]))
    ensures TrimmedEnd(s + after) == s
  {
    hide IsSpace;
    if after == [] {
      assert s + after == s;
    } else {
      var front := after[..|after| - 1];
      assert (s + after)[..|s + after| - 1] == s + front && (s + after)[|s + after| - 1] == after[|after| - 1];
      EndTrimmed(s, front);
    }
  }

  /** White space around a text is all that trimming takes off. */
  lemma TrimmedExact(before: string, s: string, after: string)
    requires Blank(before) && Blank(after) && Tight(s)
    ensures Trimmed(before + s + after) == s
  {
    hide IsSpace;
    assert before + s + after == before + (s + after);
    assert (s + after)[0] == s[0];
    StartTrimmed(before, s + after);
    EndTrimmed(s, after);
  }

  // ------------------------------------------------------------------ literals

  /** A literal taken apart. */
  datatype Literal = Literal(negative: bool, whole: string, fraction: string)

  function Unsigned(s: string): string
  {
    if s != [] && (s[0] == '-' || s[0] == '+') then s[1..] else s
  }

  /** Where the first point is, or the end. */
  function PointIn(s: string): (n: nat)
    ensures n <= |s| && '.' !in s[..n] && (n < |s| ==> s[n] == '.')
  {
    if s == [] || s[0] == '.' then 0 else 1 + PointIn(s[1..])
  }

  function TakenApart(s: string): Literal
  {
    var digits := Unsigned(s);
    var point := PointIn(digits);
    Literal(s != [] && s[0] == '-', digits[..point], if point < |digits| then digits[point + 1..] else [])
  }

  /** At least one digit, and nothing but digits on either side of the point. */
  predicate WellFormed(s: string)
  {
    var l := TakenApart(s);
    AllDigits(l.whole) && AllDigits(l.fraction) && l.whole + l.fraction != []
  }

  /** How a literal with these parts is spelled. */
  ghost predicate Spells(s: string, sign: string, whole: string, point: string, fraction: string)
  {
    && sign in {"", "+", "-"} && point in {"", "."} && (point == "" ==> fraction == "")
    && s == sign + (whole + (point + fraction))
  }

  /** The sign a literal starts with, if any. */
  function SignOf(s: string): string
  {
    if s != [] && (s[0] == '-' || s[0] == '+') then [s[0]] else ""
  }

  /** The point a literal has, if any. */
  function PointOf(digits: string): string
  {
    if PointIn(digits) < |digits| then "." else ""
  }

  lemma SignedSpelling(s: string)
    ensures s == SignOf(s) + Unsigned(s) && SignOf(s) in {"", "+", "-"}
    ensures SignOf(s) == "-" <==> s != [] && s[0] == '-'
  {
  }

  lemma PointedSpelling(digits: string, n: nat)
    requires n < |digits| && digits[n] == '.'
    ensures digits == digits[..n] + ("." + digits[n + 1..])
  {
  }

  lemma PartsSpelling(digits: string)
    ensures var n := PointIn(digits);
      digits == digits[..n] + (PointOf(digits) + if n < |digits| then digits[n + 1..] else [])
  {
    hide PointIn;
    var n := PointIn(digits);
    if n < |digits| {
      PointedSpelling(digits, n);
    } else {
      assert digits[..n] == digits;
    }
  }

  /** Every text is spelled as a sign or none, the part before the first point, and the point and the rest or neither. */
  lemma TakenApartSpells(s: string)
    ensures var l := TakenApart(s);
      Spells(s, SignOf(s), l.whole, PointOf(Unsigned(s)), l.fraction) && (l.negative <==> SignOf(s) == "-")
  {
    hide PointIn, Unsigned, SignOf;
    SignedSpelling(s);
    PartsSpelling(Unsigned(s));
  }

  lemma SignRemoved(sign: string, digits: string)
    requires sign in {"", "+", "-"} && digits != "" && digits[0] != '+' && digits[0] != '-'
    ensures var s := sign + digits; Unsigned(s) == digits && s != [] && (s[0] == '-' <==> sign == "-")
  {
    var s := sign + digits;
    if sign == "" {
      assert s == digits;
    } else {
      assert s[0] == sign[0] && s[1..] == digits;
    }
  }

  /** Everything spelled that way with digits, and at least one, is well formed and taken apart as it was spelled. */
  lemma SpelledWellFormed(s: string, sign: string, whole: string, point: string, fraction: string)
    requires Spells(s, sign, whole, point, fraction)
    requires AllDigits(whole) && AllDigits(fraction) && whole + fraction != ""
    ensures WellFormed(s) && TakenApart(s) == Literal(sign == "-", whole, fraction)
  {
    hide PointIn, Unsigned, AllDigits;
    var tail := point + fraction;
    var digits := whole + tail;
    assert digits[0] != '+' && digits[0] != '-' by {
      if whole == "" {
        assert digits[0] == '.';
      } else {
        FirstDigit(whole);
        assert digits[0] == whole[0];
      }
    }
    SignRemoved(sign, digits);
    PointAfterDigits(whole, tail);
    assert digits[..|whole|] == whole;
    assert point == "." ==> digits[|whole| + 1..] == fraction;
  }

  /** The magnitude of a literal at a scale, as far as it has one. */
  ghost predicate Denotes(s: string, scale: nat, magnitude: nat)
  {
    var l := TakenApart(s);
    magnitude * Pow(10, |l.fraction|) == ValueOf(l.whole + l.fraction) * Pow(10, scale)
  }

  /** The digits after the point, cut or extended with zeros to the scale. */
  function Rescaled(fraction: string, scale: nat): nat
  {
    if |fraction| >= scale then ValueOf(fraction[..scale]) else ValueOf(fraction) * Pow(10, scale - |fraction|)
  }

  predicate TooFine(fraction: string, scale: nat)
  {
    |fraction| > scale && !Zeros(fraction[scale..])
  }

  /** The minor units the digits of a literal come to at a scale. */
  function UnitsOf(l: Literal, scale: nat): nat
  {
    ValueOf(l.whole) * Pow(10, scale) + Rescaled(l.fraction, scale)
  }

  lemma Regroup(w: nat, f: nat, p: nat, q: nat)
    ensures (w * (p * q) + f * p) * q == (w * q + f) * (p * q)
  {
    Distributive(w * (p * q), f * p, q);
    Distributive(w * q, f, p * q);
    Associate(f, p, q);
    Associate(w, p * q, q);
    Associate(w, q, p * q);
  }

  lemma ShortFraction(w: nat, f: nat, n: nat, scale: nat)
    requires n <= scale
    ensures (w * Pow(10, scale) + f * Pow(10, scale - n)) * Pow(10, n) == (w * Pow(10, n) + f) * Pow(10, scale)
  {
    hide Pow;
    PowSum(10, scale - n, n);
    Regroup(w, f, Pow(10, scale - n), Pow(10, n));
  }

  lemma LongFraction(w: nat, f: nat, rest: nat, n: nat, scale: nat)
    requires n >= scale
    ensures (w * Pow(10, n) + (f * Pow(10, n - scale) + rest)) * Pow(10, scale)
      == (w * Pow(10, scale) + f) * Pow(10, n) + rest * Pow(10, scale)
  {
    hide Pow;
    PowSum(10, n - scale, scale);
    Regroup(w, f, Pow(10, n - scale), Pow(10, scale));
    Distributive(w * Pow(10, n) + f * Pow(10, n - scale), rest, Pow(10, scale));
  }

  /** The computed magnitude is what the literal denotes, unless digits beyond the scale are lost. */
  lemma RescaledExact(s: string, scale: nat)
    requires WellFormed(s)
    ensures var l := TakenApart(s);
      if TooFine(l.fraction, scale) then forall m: nat :: !Denotes(s, scale, m)
      else Denotes(s, scale, UnitsOf(l, scale))
  {
    hide ValueOf, Pow, TakenApart, Zeros;
    var l := TakenApart(s);
    var n := |l.fraction|;
    ValueConcat(l.whole, l.fraction);
    if n <= scale {
      assert n == scale ==> l.fraction[..scale] == l.fraction;
      PowZero(10);
      ShortFraction(ValueOf(l.whole), ValueOf(l.fraction), n, scale);
    } else {
      var kept, lost := l.fraction[..scale], l.fraction[scale..];
      assert l.fraction == kept + lost;
      ValueConcat(kept, lost);
      ZeroValue(lost);
      LongFraction(ValueOf(l.whole), ValueOf(kept), ValueOf(lost), n, scale);
      if TooFine(l.fraction, scale) {
        LostDigits(ValueOf(l.whole) * Pow(10, scale) + ValueOf(kept), lost, n, scale);
      } else {
        assert ValueOf(lost) * Pow(10, scale) == 0;
      }
    }
  }

  /** A part smaller than one unit cannot be made up by whole units. */
  lemma LostDigits(m: nat, lost: string, n: nat, scale: nat)
    requires n == scale + |lost| && ValueOf(lost) > 0
    ensures forall k: nat :: k * Pow(10, n) != m * Pow(10, n) + ValueOf(lost) * Pow(10, scale)
  {
    hide ValueOf, Pow;
    ValueBound(lost);
    PowSum(10, |lost|, scale);
    NextMultiple(ValueOf(lost), Pow(10, |lost|), Pow(10, scale));
    forall k: nat
      ensures k * Pow(10, n) != m * Pow(10, n) + ValueOf(lost) * Pow(10, scale)
    {
      if k != m {
        NextMultiple(if k < m then k else m, if k < m then m else k, Pow(10, n));
      }
      assert ValueOf(lost) * Pow(10, scale) > 0;
    }
  }

  /** A literal denotes one magnitude at most. */
  lemma DenotesOne(s: string, scale: nat, a: nat, b: nat)
    requires Denotes(s, scale, a) && Denotes(s, scale, b)
    ensures a == b
  {
    hide Pow, ValueOf, TakenApart;
    if a != b {
      NextMultiple(if a < b then a else b, if a < b then b else a, Pow(10, |TakenApart(s).fraction|));
    }
  }

  // ------------------------------------------------------------------- parsing

  /** Ten to a power, clamped; no scale in use reaches the clamp. */
  method PowerOfTen(exp: byte) returns (p: i64)
    ensures exp <= MAX_SCALE ==> p == Pow(10, exp)
  {
    p := 1;
    for i := 0 to exp
      invariant i <= MAX_SCALE ==> p == Pow(10, i)
    {
      if i < MAX_SCALE {
        ScaleFits(i + 1);
      }
      if p * 10 > I64_MAX || p * 10 < I64_MIN {
        return I64_MAX;
      }
      p := p * 10;
    }
  }

  lemma ScaleFits(n: nat)
    requires n <= MAX_SCALE
    ensures Pow(10, n) <= 1_000_000_000_000_000_000
  {
    PowSum(10, n, MAX_SCALE - n);
    PowSum(10, 9, 9);
    PowSum(10, 3, 3);
    PowSum(10, 6, 3);
    assert Pow(10, 3) == 1000;
    AtLeastWhole(Pow(10, n), Pow(10, MAX_SCALE - n));
  }

  /** Where the trailing zeros of a fraction begin. */
  method TrimmedLength(fraction: string) returns (n: nat)
    ensures n <= |fraction| && Zeros(fraction[n..]) && (n > 0 ==> fraction[n - 1] != '0')
  {
    n := |fraction|;
    while n > 0 && fraction[n - 1] == '0'
      invariant n <= |fraction| && Zeros(fraction[n..])
    {
      n := n - 1;
    }
  }

  /** The first `scale` digits of a fraction as minor units, missing ones counting as zero. */
  method MinorUnits(fraction: string, scale: nat) returns (r: Option<i64>)
    requires scale <= MAX_SCALE && AllDigits(fraction)
    ensures r == Some(Rescaled(fraction, scale))
  {
    hide ValueOf, Pow;
    var frac := 0;
    RescaledSteps(fraction, 0);
    for i := 0 to scale
      invariant frac == Rescaled(fraction, i) < Pow(10, i)
    {
      RescaledSteps(fraction, i);
      ScaleFits(i + 1);
      PowNext(10, i);
      var digit := if i < |fraction| then DigitValue(fraction[i]) else 0;
      if frac * 10 + digit > I64_MAX {
        return None;
      }
      frac := frac * 10 + digit;
    }
    ScaleFits(scale);
    return Some(frac);
  }

  lemma RescaledSteps(fraction: string, i: nat)
    ensures Rescaled(fraction, 0) == 0 < Pow(10, 0)
    ensures Rescaled(fraction, i + 1)
      == Rescaled(fraction, i) * 10 + if i < |fraction| then DigitValue(fraction[i]) else 0
    ensures Rescaled(fraction, i) < Pow(10, i) ==> Rescaled(fraction, i + 1) < Pow(10, i + 1)
  {
    if i < |fraction| {
      assert fraction[..i + 1][..i] == fraction[..i];
    } else {
      assert i == |fraction| ==> fraction[..i] == fraction;
      Scaled(ValueOf(fraction), Pow(10, i - |fraction|), 0);
    }
  }

  /**
   Reads a literal at a scale, with any white space around it. A well-formed literal gives the
   amount it denotes; it is refused exactly when it denotes a fraction of a minor unit, or more
   than the largest amount.
   */
  method Parse(text: string, scale: byte) returns (r: Result<i64, MoneyError>)
    requires scale <= MAX_SCALE
    ensures !WellFormed(Trimmed(text)) ==> r == Err(InvalidLiteral)
    ensures WellFormed(Trimmed(text)) ==> match r
      case Ok(v) =>
        && Denotes(Trimmed(text), scale, Magnitude(v)) && Magnitude(v) <= I64_MAX
        && Trimmed(text) != [] && v == WithSign(Trimmed(text)[0] == '-', Magnitude(v))
      case Err(error) =>
        || (error == PrecisionLoss(scale) && forall m: nat :: !Denotes(Trimmed(text), scale, m))
        || (error == Overflow && exists m: nat :: Denotes(Trimmed(text), scale, m) && m > I64_MAX)
  {
    hide Trimmed;
    var s := Trimmed(text);
    hide ValueOf, Pow, Denotes, AllDigits, Rescaled, Zeros;
    var negative, digits := s != [] && s[0] == '-', Unsigned(s);
    if digits == [] {
      return Err(InvalidLiteral);
    }
    var point := PointIn(digits);
    var whole, fraction := digits[..point], if point < |digits| then digits[point + 1..] else [];
    assert TakenApart(s) == Literal(negative, whole, fraction);
    if whole == [] && fraction == [] {
      return Err(InvalidLiteral);
    }
    if !AllDigits(whole) || !AllDigits(fraction) {
      return Err(InvalidLiteral);
    }
    RescaledExact(s, scale);
    var trimmed := TrimmedLength(fraction);
    TrimIsTooFine(fraction, trimmed, scale);
    if trimmed > scale {
      return Err(PrecisionLoss(scale));
    }
    var units := ValueOf(whole);
    AtLeastWhole(units, Pow(10, scale));
    if units > I64_MAX {
      assert Denotes(s, scale, UnitsOf(TakenApart(s), scale));
      return Err(Overflow);
    }
    var frac := MinorUnits(fraction, scale);
    var factor := PowerOfTen(scale);
    match frac {
      case None => return Err(Overflow);
      case Some(minor) =>
        var value := units * factor + minor;
        assert Denotes(s, scale, value);
        if units * factor > I64_MAX || value > I64_MAX {
          return Err(Overflow);
        }
        return Ok(WithSign(negative, value));
    }
  }

  lemma AtLeastWhole(units: nat, factor: nat)
    requires factor > 0
    ensures units * factor >= units
  {
  }

  lemma TrimIsTooFine(fraction: string, trimmed: nat, scale: nat)
    requires trimmed <= |fraction| && Zeros(fraction[trimmed..]) && (trimmed > 0 ==> fraction[trimmed - 1] != '0')
    ensures trimmed > scale <==> TooFine(fraction, scale)
  {
    if trimmed > scale {
      assert fraction[scale..][trimmed - 1 - scale] == fraction[trimmed - 1];
    } else if |fraction| > scale {
      assert fraction[scale..] == fraction[trimmed..][scale - trimmed..];
    }
  }

  // ---------------------------------------------------------------- round trip

  lemma {:induction false} PointAfterDigits(a: string, b: string)
    requires AllDigits(a) && (b == [] || b[0] == '.')
    ensures PointIn(a + b) == |a|
  {
    if a != [] {
      assert (a + b)[1..] == a[1..] + b;
      PointAfterDigits(a[1..], b);
    }
  }

  lemma DisplayParts(minor: i64, scale: nat)
    ensures var m := Magnitude(minor);
      TakenApart(Display(minor, scale))
        == Literal(minor < 0, Numeral(Majors(m, scale)), Padded(Minors(m, scale), scale))
    ensures WellFormed(Display(minor, scale)) && Display(minor, scale) != []
    ensures Display(minor, scale)[0] == '-' <==> minor < 0
  {
    hide ValueOf, Pow, Numeral, Padded, Majors, Minors;
    var m := Magnitude(minor);
    NumeralRoundTrip(Majors(m, scale));
    PaddedRoundTrip(Minors(m, scale), scale);
    ShownApart(minor < 0, Numeral(Majors(m, scale)), Padded(Minors(m, scale), scale));
    assert scale == 0 ==> Padded(Minors(m, scale), scale) == [];
  }

  lemma FirstDigit(s: string)
    requires s != [] && AllDigits(s)
    ensures IsDigit(s[0])
  {
  }

  /** A sign in front of digits is taken off again. */
  lemma SignTakenOff(negative: bool, body: string)
    requires body != [] && IsDigit(body[0])
    ensures var shown := (if negative then "-" else "") + body;
      Unsigned(shown) == body && shown != [] && (shown[0] == '-' <==> negative)
  {
    if negative {
      assert ("-" + body)[1..] == body;
    } else {
      assert "" + body == body;
    }
  }

  lemma ShownApart(negative: bool, whole: string, fraction: string)
    requires whole != [] && AllDigits(whole)
    ensures var tail := if fraction == [] then "" else "." + fraction;
      var shown := (if negative then "-" else "") + (whole + tail);
      TakenApart(shown) == Literal(negative, whole, fraction) && shown != [] && (shown[0] == '-' <==> negative)
  {
    hide PointIn, AllDigits, Unsigned, IsDigit;
    var tail := if fraction == [] then "" else "." + fraction;
    PointAfterDigits(whole, tail);
    FirstDigit(whole);
    assert (whole + tail)[0] == whole[0];
    SignTakenOff(negative, whole + tail);
    assert (whole + tail)[..|whole|] == whole;
    assert fraction != [] ==> (whole + tail)[|whole| + 1..] == fraction;
  }

  /** What an amount is shown as denotes exactly that amount. */
  lemma DisplayDenotes(minor: i64, scale: nat)
    ensures WellFormed(Display(minor, scale)) && Display(minor, scale) != []
    ensures Display(minor, scale)[0] == '-' <==> minor < 0
    ensures var l := TakenApart(Display(minor, scale));
      |l.fraction| == scale && l.whole != "" && (l.whole[0] == '0' ==> |l.whole| == 1)
    ensures forall m: nat :: Denotes(Display(minor, scale), scale, m) <==> m == Magnitude(minor)
  {
    hide ValueOf, Pow, Numeral, Padded, Display, TakenApart, Majors, Minors, WellFormed;
    DisplayParts(minor, scale);
    var m := Magnitude(minor);
    NumeralRoundTrip(Majors(m, scale));
    PaddedRoundTrip(Minors(m, scale), scale);
    ValueConcat(Numeral(Majors(m, scale)), Padded(Minors(m, scale), scale));
    MajorsAndMinors(m, scale);
    assert Denotes(Display(minor, scale), scale, m);
    forall k: nat | Denotes(Display(minor, scale), scale, k)
      ensures k == m
    {
      DenotesOne(Display(minor, scale), scale, k, m);
    }
  }

  lemma DigitsTight(s: string)
    requires s != [] && AllDigits(s)
    ensures Tight(s)
  {
    assert IsDigit(s[0]) && IsDigit(s[|s| - 1]);
  }

  /** What an amount is shown as has no white space around it. */
  lemma DisplayTight(minor: i64, scale: nat)
    ensures Tight(Display(minor, scale))
  {
    hide ValueOf, Numeral, Padded, Majors, Minors;
    var m := Magnitude(minor);
    var whole, fraction := Numeral(Majors(m, scale)), Padded(Minors(m, scale), scale);
    NumeralRoundTrip(Majors(m, scale));
    PaddedRoundTrip(Minors(m, scale), scale);
    DigitsTight(whole);
    if scale > 0 {
      DigitsTight(fraction);
    }
  }

  /**
   Parsing what was displayed gives the amount back whatever white space was put around it,
   except for the least amount, which overflows.
   */
  method RoundTrip(minor: i64, scale: byte, before: string, after: string) returns (r: Result<i64, MoneyError>)
    requires scale <= MAX_SCALE && Blank(before) && Blank(after)
    ensures r == if minor == I64_MIN then Err(Overflow) else Ok(minor)
  {
    hide Denotes, Display, TakenApart, WellFormed, Trimmed, Tight;
    DisplayDenotes(minor, scale);
    DisplayTight(minor, scale);
    TrimmedExact(before, Display(minor, scale), after);
    assert Denotes(Display(minor, scale), scale, Magnitude(minor));
    r := Parse(before + Display(minor, scale) + after, scale);
  }
}
