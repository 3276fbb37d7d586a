/** The amount normaliser `parseMiktarToInt` (index.js:610-616): an amount
    typed the Turkish way ("5.000", "1.234,56") becomes a whole number of
    lira.

    Numbers are exact: `parseFloat` is modelled on the reals, with the one
    IEEE 754 effect that changes the outcome here, overflow to Infinity (which
    the normaliser maps to 0); the rounding of a decimal to 53 bits is not
    modelled. */
module Amount {
  import opened Text

  /** The argument of `parseMiktarToInt`: a string, or any other JavaScript
      value. */
  datatype Input = Str(s: string) | NotString

  /** A JavaScript number as `parseFloat` can return it. */
  datatype Number = Finite(x: real) | Infinite | NaN

  predicate IsDigit(c: char) {
    '0' <= c <= '9'
  }

  predicate AllDigits(s: string) {
    forall i :: 0 <= i < |s| ==> IsDigit(s[i])
  }

  function DigitValue(c: char): nat
    requires IsDigit(c)
  {
    c as int - '0' as int
  }

  function Pow10(k: nat): (p: nat)
    ensures p >= 1
  {
    if k == 0 then 1 else 10 * Pow10(k - 1)
  }

  /** 2^1024 - 2^970, the smallest magnitude a decimal literal rounds to
      Infinity at: halfway between the largest finite double,
      (2^53 - 1) * 2^971, and 2^1024, a tie that rounds to the even 2^1024. */
  const Overflow: nat :=
    179769313_486231580793728971405303415079934132710037826936173778980444_968292764750946649017977587207096330286416692887910946555547_851940402630657488671505820681908902000708383676273854845817_711531764475730270069855571366959622842914819860834936475292_719074168444365510704342711559699508093042880177904174497792

  /** The value of a string of decimal digits, most significant first. */
  function Val(d: string): nat
    requires AllDigits(d)
  {
    if d == [] then 0 else Val(d[..|d| - 1]) * 10 + DigitValue(d[|d| - 1])
  }

  /** The number of decimal digits at the start of `s`. */
  function LeadingDigits(s: string): (n: nat)
    ensures n <= |s| && AllDigits(s[..n])
    ensures n < |s| ==> !IsDigit(s[n])
  {
    if s == [] || !IsDigit(s[0]) then 0
    else
      var n := 1 + LeadingDigits(s[1..]);
      assert s[..n] == [s[0]] + s[1..][..n - 1];
      n
  }

  // ---------------------------------------------------------------------
  // The cleaning steps
  // ---------------------------------------------------------------------

  /** `s.replace(/\./g, '')`. */
  function RemoveDots(s: string): (r: string)
    ensures |r| <= |s| && '.' !in r
  {
    if s == [] then [] else (if s[0] == '.' then [] else [s[0]]) + RemoveDots(s[1..])
  }

  /** `s.replace(/,/g, '.')`. */
  function CommasToPoints(s: string): (r: string)
    ensures |r| == |s| && ',' !in r
  {
    if s == [] then [] else [if s[0] == ',' then '.' else s[0]] + CommasToPoints(s[1..])
  }

  /** The string `parseMiktarToInt` hands to `parseFloat`: white space and
      dots removed, commas turned into decimal points. */
  function Clean(s: string): (r: string)
    ensures |r| <= |s| && ',' !in r
  {
    CommasToPoints(RemoveDots(RemoveWs(s)))
  }

  // ---------------------------------------------------------------------
  // parseFloat
  // ---------------------------------------------------------------------

  /** `m * 10^e`. */
  function Scale(m: real, e: int): (r: real)
    ensures m >= 0.0 ==> r >= 0.0
  {
    if e >= 0 then m * Pow10(e) as real else m / Pow10(-e) as real
  }

  /** The exponent part at the start of `t`: `e` or `E`, an optional sign and
      at least one digit; 0 when `t` does not start with one. */
  function Exponent(t: string): int {
    if t == [] || (t[0] != 'e' && t[0] != 'E') then 0
    else
      var u := t[1..];
      var neg := u != [] && u[0] == '-';
      var digits := if u != [] && (u[0] == '+' || u[0] == '-') then u[1..] else u;
      var n := LeadingDigits(digits);
      var v: int := Val(digits[..n]);
      if n == 0 then 0 else if neg then -v else v
  }

  /** The value of the digits `a`, a decimal point and the digits `b`. */
  function Mantissa(a: string, b: string): (r: real)
    requires AllDigits(a) && AllDigits(b)
    ensures r >= 0.0
  {
    (Val(a) * Pow10(|b|) + Val(b)) as real / Pow10(|b|) as real
  }

  /** The magnitude of the unsigned decimal literal at the start of `body`:
      digits, an optional point and fraction digits, with at least one digit
      in all, then an optional exponent; None when there is no digit. */
  function Decimal(body: string): (r: Option<real>)
    ensures r.Some? ==> r.value >= 0.0
  {
    var i := LeadingDigits(body);
    var point := i < |body| && body[i] == '.';
    var f := if point then LeadingDigits(body[i + 1..]) else 0;
    if i + f == 0 then None
    else
      var fraction := if point then body[i + 1..][..f] else "";
      var end := if point then i + 1 + f else i;
      Some(Scale(Mantissa(body[..i], fraction), Exponent(body[end..])))
  }

  /** Whether `s` starts with a minus sign. */
  predicate Negative(s: string) {
    s != [] && s[0] == '-'
  }

  /** `s` without its sign, if it has one. */
  function Unsigned(s: string): string {
    if s != [] && (s[0] == '+' || s[0] == '-') then s[1..] else s
  }

  predicate StartsInfinity(body: string) {
    |body| >= 8 && body[..8] == "Infinity"
  }

  function Signed(neg: bool, x: real): real {
    if neg then -x else x
  }

  /** A magnitude of `Overflow` or more is Infinity. */
  function Limit(neg: bool, magnitude: real): Number {
    if magnitude >= Overflow as real then Infinite else Finite(Signed(neg, magnitude))
  }

  /** `parseFloat(s)` for a string without leading white space: the longest
      prefix that is a signed "Infinity" or a signed decimal literal; NaN
      when there is none. */
  function ParseFloat(s: string): (r: Number)
    ensures r.Finite? ==> -(Overflow as real) < r.x < Overflow as real
    ensures r.Finite? && r.x < 0.0 ==> Negative(s)
  {
    var body := Unsigned(s);
    if StartsInfinity(body) then Infinite
    else match Decimal(body)
      case None => NaN
      case Some(m) => Limit(Negative(s), m)
  }

  /** `Math.round`: the nearest integer, halves rounded up. */
  function Round(x: real): (r: int)
    ensures x - 0.5 < r as real <= x + 0.5
  {
    (x + 0.5).Floor
  }

  /** `parseMiktarToInt`: 0 for anything but a string, and for a string whose
      cleaned form does not parse to a finite number. */
  function MiktarToInt(input: Input): (r: int)
    ensures input.NotString? ==> r == 0
    ensures -(Overflow as int) <= r <= Overflow
    ensures r < 0 ==> input.Str? && Negative(Clean(input.s))
  {
    match input
    case NotString => 0
    case Str(s) =>
      match ParseFloat(Clean(s))
      case Finite(x) => Round(x)
      case _ => 0
  }

  // ---------------------------------------------------------------------
  // Digits
  // ---------------------------------------------------------------------

  function DigitChar(d: nat): char
    requires d <= 9
  {
    ('0' as int + d) as char
  }

  lemma {:induction false} ValAppend(a: string, b: string)
    requires AllDigits(a) && AllDigits(b)
    ensures AllDigits(a + b) && Val(a + b) == Val(a) * Pow10(|b|) + Val(b)
    decreases |b|
  {
    if b == [] {
      assert a + b == a;
    } else {
      var b' := b[..|b| - 1];
      var d := DigitValue(b[|b| - 1]);
      assert (a + b)[..|a + b| - 1] == a + b';
      assert (a + b)[|a + b| - 1] == b[|b| - 1];
      ValAppend(a, b');
      ShiftDigit(Val(a), Pow10(|b'|), Val(b'), d);
    }
  }

  lemma ShiftDigit(x: nat, p: nat, y: nat, d: nat)
    ensures (x * p + y) * 10 + d == x * (10 * p) + (y * 10 + d)
  {
  }

  /** Digits with nothing after them: the whole string is read. */
  lemma LeadingAllDigits(d: string)
    requires AllDigits(d)
    ensures LeadingDigits(d) == |d|
  {
    if d != [] {
      LeadingAllDigits(d[1..]);
    }
  }

  /** Digits followed by a non-digit: exactly the digits are read. */
  lemma LeadingDigitsStop(d: string, t: string)
    requires AllDigits(d) && t != [] && !IsDigit(t[0])
    ensures LeadingDigits(d + t) == |d|
  {
    if d != [] {
      assert (d + t)[1..] == d[1..] + t;
      LeadingDigitsStop(d[1..], t);
    } else {
      assert d + t == t;
    }
  }

  /** The digits of `s`, in order. */
  function DigitsOf(s: string): (d: string)
    ensures AllDigits(d)
  {
    if s == [] then [] else (if IsDigit(s[0]) then [s[0]] else []) + DigitsOf(s[1..])
  }

  /** Digits grouped the Turkish way: nothing but digits, dots and white space. */
  predicate Grouping(s: string) {
    forall i :: 0 <= i < |s| ==> IsDigit(s[i]) || s[i] == '.' || IsWs(s[i])
  }

  predicate NoDigit(s: string) {
    forall i :: 0 <= i < |s| ==> !IsDigit(s[i])
  }

  // ---------------------------------------------------------------------
  // Cleaning
  // ---------------------------------------------------------------------

  /** Removing white space and dots from grouped digits leaves the digits. */
  lemma {:induction false} CleanGrouping(s: string)
    requires Grouping(s)
    ensures Clean(s) == DigitsOf(s)
  {
    RemoveGrouping(s);
    PointsIdle(DigitsOf(s));
  }

  lemma {:induction false} RemoveGrouping(s: string)
    requires Grouping(s)
    ensures RemoveDots(RemoveWs(s)) == DigitsOf(s)
  {
    if s != [] {
      assert Grouping(s[1..]);
      assert IsDigit(s[0]) || s[0] == '.' || IsWs(s[0]);
      RemoveGrouping(s[1..]);
      RemoveGroupingStep(s);
    }
  }

  lemma RemoveGroupingStep(s: string)
    requires s != [] && (IsDigit(s[0]) || s[0] == '.' || IsWs(s[0]))
    requires RemoveDots(RemoveWs(s[1..])) == DigitsOf(s[1..])
    ensures RemoveDots(RemoveWs(s)) == DigitsOf(s)
  {
    var t := RemoveWs(s[1..]);
    var c := s[0];
    if IsWs(c) {
      WsDropped(s);
      WsNotDigit(c);
    } else {
      WsKept(s);
      DotStep(c, t);
    }
  }

  lemma WsDropped(s: string)
    requires s != [] && IsWs(s[0])
    ensures RemoveWs(s) == RemoveWs(s[1..])
  {
  }

  lemma WsKept(s: string)
    requires s != [] && !IsWs(s[0])
    ensures RemoveWs(s) == [s[0]] + RemoveWs(s[1..])
  {
  }

  lemma WsNotDigit(c: char)
    requires IsWs(c)
    ensures !IsDigit(c)
  {
  }

  lemma DotStep(c: char, t: string)
    ensures RemoveDots([c] + t) == (if c == '.' then [] else [c]) + RemoveDots(t)
  {
    assert ([c] + t)[1..] == t;
  }

  /** `replace(/,/g, '.')` leaves a string without commas alone. */
  lemma {:induction false} PointsIdle(s: string)
    requires forall i :: 0 <= i < |s| ==> s[i] != ','
    ensures CommasToPoints(s) == s
  {
    if s != [] {
      PointsIdle(s[1..]);
      assert s == [s[0]] + s[1..];
    }
  }

  lemma {:induction false} RemoveDotsAppend(a: string, b: string)
    ensures RemoveDots(a + b) == RemoveDots(a) + RemoveDots(b)
  {
    if a == [] {
      assert a + b == b;
    } else {
      var head := if a[0] == '.' then [] else [a[0]];
      assert RemoveDots(a + b) == head + RemoveDots(a[1..] + b) by {
        assert (a + b)[0] == a[0];
        assert (a + b)[1..] == a[1..] + b;
      }
      RemoveDotsAppend(a[1..], b);
      Regroup(head, RemoveDots(a[1..]), RemoveDots(b));
    }
  }


  lemma {:induction false} PointsAppend(a: string, b: string)
    ensures CommasToPoints(a + b) == CommasToPoints(a) + CommasToPoints(b)
  {
    if a == [] {
      assert a + b == b;
    } else {
      var head := [if a[0] == ',' then '.' else a[0]];
      assert CommasToPoints(a + b) == head + CommasToPoints(a[1..] + b) by {
        assert (a + b)[0] == a[0];
        assert (a + b)[1..] == a[1..] + b;
      }
      PointsAppend(a[1..], b);
      Regroup(head, CommasToPoints(a[1..]), CommasToPoints(b));
    }
  }

  /** Cleaning works character by character. */
  lemma CleanAppend(a: string, b: string)
    ensures Clean(a + b) == Clean(a) + Clean(b)
  {
    RemoveWsAppend(a, b);
    RemoveDotsAppend(RemoveWs(a), RemoveWs(b));
    PointsAppend(RemoveDots(RemoveWs(a)), RemoveDots(RemoveWs(b)));
  }

  /** Cleaning never brings in a digit. */
  lemma {:induction false} CleanNoDigit(s: string)
    requires NoDigit(s)
    ensures NoDigit(Clean(s))
  {
    RemoveWsNoDigit(s);
    RemoveDotsNoDigit(RemoveWs(s));
    PointsNoDigit(RemoveDots(RemoveWs(s)));
  }

  lemma {:induction false} RemoveWsNoDigit(s: string)
    requires NoDigit(s)
    ensures NoDigit(RemoveWs(s))
  {
    if s != [] {
      RemoveWsNoDigit(s[1..]);
    }
  }

  lemma {:induction false} RemoveDotsNoDigit(s: string)
    requires NoDigit(s)
    ensures NoDigit(RemoveDots(s))
  {
    if s != [] {
      RemoveDotsNoDigit(s[1..]);
    }
  }

  lemma {:induction false} PointsNoDigit(s: string)
    requires NoDigit(s)
    ensures NoDigit(CommasToPoints(s))
  {
    if s != [] {
      PointsNoDigit(s[1..]);
    }
  }

  // ---------------------------------------------------------------------
  // parseFloat on the strings that matter here
  // ---------------------------------------------------------------------

  function Sign(neg: bool): string {
    if neg then "-" else ""
  }

  /** The body after an optional sign: neither a sign nor "Infinity". */
  lemma SignedBody(neg: bool, body: string)
    requires body != [] && (IsDigit(body[0]) || body[0] == '.')
    ensures Negative(Sign(neg) + body) == neg
    ensures Unsigned(Sign(neg) + body) == body
    ensures !StartsInfinity(body)
  {
    if |body| >= 8 {
      assert body[..8][0] == body[0];
    }
    if neg {
      assert (Sign(neg) + body)[1..] == body;
    } else {
      assert Sign(neg) + body == body;
    }
  }

  /** Digits alone are a whole number. */
  lemma DecimalWhole(d: string)
    requires d != [] && AllDigits(d)
    ensures Decimal(d) == Some(Val(d) as real)
  {
    assert LeadingDigits(d) == |d| by {
      LeadingAllDigits(d);
    }
    assert d[..|d|] == d;
    assert d[|d|..] == [];
    MantissaWhole(d);
    NoExponent(Val(d) as real);
  }

  lemma MantissaWhole(d: string)
    requires AllDigits(d)
    ensures Mantissa(d, "") == Val(d) as real
  {
    assert Pow10(0) == 1 && Val("") == 0;
  }

  /** Without an exponent part the mantissa is the value. */
  lemma NoExponent(m: real)
    ensures Scale(m, Exponent([])) == m
  {
    assert Exponent([]) == 0;
    assert Pow10(0) == 1;
  }

  /** Digits, a point and digits. */
  lemma DecimalPoint(a: string, b: string)
    requires AllDigits(a) && AllDigits(b) && a + b != []
    ensures Decimal(a + "." + b) == Some(Mantissa(a, b))
  {
    var body := a + ("." + b);
    assert a + "." + b == body;
    var i := |a|;
    assert LeadingDigits(body) == i by {
      LeadingDigitsStop(a, "." + b);
    }
    assert body[..i] == a && body[i] == '.' && body[i + 1..] == b;
    assert LeadingDigits(body[i + 1..]) == |b| by {
      LeadingAllDigits(b);
    }
    assert b[..|b|] == b;
    assert body[i + 1 + |b|..] == [];
    NoExponent(Mantissa(a, b));
  }

  /** A signed whole number in digits. */
  lemma ParseWhole(neg: bool, d: string)
    requires d != [] && AllDigits(d)
    ensures ParseFloat(Sign(neg) + d) == Limit(neg, Val(d) as real)
  {
    SignedBody(neg, d);
    DecimalWhole(d);
  }

  /** A signed number with a decimal point. */
  lemma ParseDecimal(neg: bool, a: string, b: string)
    requires AllDigits(a) && AllDigits(b) && a + b != []
    ensures ParseFloat(Sign(neg) + (a + "." + b)) == Limit(neg, Mantissa(a, b))
  {
    var body := a + "." + b;
    if a != [] {
      assert body[0] == a[0];
    }
    SignedBody(neg, body);
    DecimalPoint(a, b);
  }

  // ---------------------------------------------------------------------
  // parseMiktarToInt
  // ---------------------------------------------------------------------

  /** `Math.round` gives the nearest integer, the larger one at a tie: any
      integer within one half of `x`, ties counted upward, is `Round(x)`. */
  lemma RoundNearest(x: real, n: int)
    requires x - 0.5 < n as real <= x + 0.5
    ensures n == Round(x)
  {
    var r := Round(x);
    assert -1.0 < n as real - r as real < 1.0;
  }

  lemma RoundWhole(n: int)
    ensures Round(n as real) == n
  {
  }

  /** Anything but a string, and a string without a digit, gives 0. */
  lemma MiktarNoDigits(s: string)
    requires NoDigit(s)
    ensures MiktarToInt(NotString) == 0
    ensures MiktarToInt(Str(s)) == 0
  {
    CleanNoDigit(s);
    DecimalNoDigit(Unsigned(Clean(s)));
  }

  lemma DecimalNoDigit(body: string)
    requires NoDigit(body)
    ensures Decimal(body) == None
  {
    if 0 < |body| && body[0] == '.' {
      assert LeadingDigits(body[1..]) == 0;
    }
  }

  /** Digits grouped with dots (and white space) read as the whole number
      the digits spell, "5.000" as 5000; a number too large for a double
      overflows to Infinity and gives 0. */
  lemma MiktarGrouped(s: string)
    requires Grouping(s) && DigitsOf(s) != []
    ensures MiktarToInt(Str(s)) == if Val(DigitsOf(s)) < Overflow then Val(DigitsOf(s)) else 0
  {
    var d := DigitsOf(s);
    assert Clean(s) == d by {
      CleanGrouping(s);
    }
    assert ParseFloat(d) == Limit(false, Val(d) as real) by {
      ParseWhole(false, d);
      assert Sign(false) + d == d;
    }
    if Val(d) < Overflow {
      assert Signed(false, Val(d) as real) == Val(d) as real;
      RoundWhole(Val(d));
    }
  }

  /** The comma is the decimal point: a sign, grouped digits, a comma and
      more digits read as the signed decimal number, rounded half up;
      "5,000" is five, not five thousand. */
  lemma MiktarComma(neg: bool, a: string, b: string)
    requires Grouping(a) && Grouping(b) && DigitsOf(a) + DigitsOf(b) != []
    ensures var x := Mantissa(DigitsOf(a), DigitsOf(b));
      MiktarToInt(Str(Sign(neg) + (a + "," + b))) == if x >= Overflow as real then 0 else Round(Signed(neg, x))
  {
    CleanComma(neg, a, b);
    ParseDecimal(neg, DigitsOf(a), DigitsOf(b));
  }

  lemma CleanComma(neg: bool, a: string, b: string)
    requires Grouping(a) && Grouping(b)
    ensures Clean(Sign(neg) + (a + "," + b)) == Sign(neg) + (DigitsOf(a) + "." + DigitsOf(b))
  {
    CleanGrouping(a);
    CleanGrouping(b);
    CleanCommaChar();
    CleanAppend(a, ",");
    CleanAppend(a + ",", b);
    CleanSign(neg);
    CleanAppend(Sign(neg), a + "," + b);
  }

  lemma CleanSign(neg: bool)
    ensures Clean(Sign(neg)) == Sign(neg)
  {
    if neg {
      CleanChar('-');
    }
  }

  lemma CleanCommaChar()
    ensures Clean(",") == "."
  {
    CleanChar(',');
  }

  /** A character that is neither white space nor a dot is kept, a comma
      as a point. */
  lemma CleanChar(c: char)
    requires !IsWs(c) && c != '.'
    ensures Clean([c]) == [if c == ',' then '.' else c]
  {
    assert [c][1..] == [];
    assert RemoveWs([c]) == [c] + RemoveWs([]);
    assert RemoveDots([c]) == [c] + RemoveDots([]);
    assert CommasToPoints([c]) == [if c == ',' then '.' else c] + CommasToPoints([]);
  }

  // ---------------------------------------------------------------------
  // The amount as the document prints it, read back
  // ---------------------------------------------------------------------

  lemma DigitCharValue(k: nat)
    requires k <= 9
    ensures IsDigit(DigitChar(k)) && DigitValue(DigitChar(k)) == k
  {
  }

  /** `n` in decimal digits, without leading zeros. */
  function Numeral(n: nat): (d: string)
    ensures d != [] && AllDigits(d)
  {
    DigitCharValue(n % 10);
    if n < 10 then [DigitChar(n)] else Numeral(n / 10) + [DigitChar(n % 10)]
  }

  lemma {:induction false} NumeralVal(n: nat)
    ensures Val(Numeral(n)) == n
  {
    DigitCharValue(n % 10);
    if n >= 10 {
      NumeralVal(n / 10);
      var d := Numeral(n);
      assert d[..|d| - 1] == Numeral(n / 10);
    }
  }

  /** The three digits of `r`, with leading zeros. */
  function Pad3(r: nat): (d: string)
    requires r < 1000
    ensures |d| == 3 && AllDigits(d)
  {
    DigitCharValue(r / 100);
    DigitCharValue(r / 10 % 10);
    DigitCharValue(r % 10);
    [DigitChar(r / 100), DigitChar(r / 10 % 10), DigitChar(r % 10)]
  }

  lemma Pad3Val(r: nat)
    requires r < 1000
    ensures Val(Pad3(r)) == r
  {
    var d := Pad3(r);
    DigitCharValue(r / 100);
    DigitCharValue(r / 10 % 10);
    DigitCharValue(r % 10);
    assert d[..2][..1] == [d[0]];
    assert d[..2] == [d[0], d[1]];
    assert d[..3 - 1] == d[..2];
    assert Val([d[0]]) == r / 100 by {
      assert [d[0]][..0] == [];
    }
  }

  /** The amount as `Intl.NumberFormat('tr-TR')` prints a whole number:
      decimal digits grouped by threes with dots, "1.234.567". */
  function Grouped(n: nat): string {
    if n < 1000 then Numeral(n) else Grouped(n / 1000) + "." + Pad3(n % 1000)
  }

  lemma {:induction false} DigitsOfAppend(a: string, b: string)
    ensures DigitsOf(a + b) == DigitsOf(a) + DigitsOf(b)
  {
    if a == [] {
      assert a + b == b;
    } else {
      var head := if IsDigit(a[0]) then [a[0]] else [];
      assert DigitsOf(a + b) == head + DigitsOf(a[1..] + b) by {
        assert (a + b)[0] == a[0];
        assert (a + b)[1..] == a[1..] + b;
      }
      DigitsOfAppend(a[1..], b);
      Regroup(head, DigitsOf(a[1..]), DigitsOf(b));
    }
  }

  lemma {:induction false} DigitsOfDigits(d: string)
    requires AllDigits(d)
    ensures DigitsOf(d) == d
  {
    if d != [] {
      DigitsOfDigits(d[1..]);
      assert d == [d[0]] + d[1..];
    }
  }

  /** A grouped amount is digits and dots, and its digits spell it. */
  lemma {:induction false} GroupedDigits(n: nat)
    ensures Grouping(Grouped(n)) && DigitsOf(Grouped(n)) != []
    ensures Val(DigitsOf(Grouped(n))) == n
  {
    if n < 1000 {
      DigitsOfDigits(Numeral(n));
      NumeralVal(n);
    } else {
      var high := Grouped(n / 1000);
      var low := Pad3(n % 1000);
      GroupedDigits(n / 1000);
      DigitsOfAppend(high + ".", low);
      DigitsOfAppend(high, ".");
      assert DigitsOf(".") == [];
      DigitsOfDigits(low);
      assert DigitsOf(Grouped(n)) == DigitsOf(high) + low;
      ValAppend(DigitsOf(high), low);
      Pad3Val(n % 1000);
      assert Pow10(3) == 1000;
      GroupingAppend(high, ".", low);
    }
  }

  lemma GroupingAppend(a: string, b: string, c: string)
    requires Grouping(a) && Grouping(b) && AllDigits(c)
    ensures Grouping(a + b + c)
  {
  }

  /** What the document prints as the amount in figures reads back as the
      amount: the normaliser inverts the Turkish grouping of whole numbers
      (below the overflow bound of a double). */
  lemma MiktarReadsGrouped(n: nat)
    ensures MiktarToInt(Str(Grouped(n))) == if n < Overflow then n else 0
  {
    GroupedDigits(n);
    MiktarGrouped(Grouped(n));
  }

  // ---------------------------------------------------------------------
  // Examples
  // ---------------------------------------------------------------------

  /** "5.000" is five thousand: the dot groups digits. */
  lemma FiveThousandDotted()
    ensures MiktarToInt(Str("5.000")) == 5000
  {
    assert Grouped(5) == "5";
    assert Pad3(0) == "000";
    assert Grouped(5000) == "5.000";
    MiktarReadsGrouped(5000);
  }

  /** An example of a decimal amount follows from the value of its digits. */
  lemma CommaExample(neg: bool, a: string, b: string, x: real, n: int)
    requires AllDigits(a) && AllDigits(b) && a + b != []
    requires Mantissa(a, b) == x && x < Overflow as real && Round(Signed(neg, x)) == n
    ensures MiktarToInt(Str(Sign(neg) + (a + "," + b))) == n
  {
    DigitsOfDigits(a);
    DigitsOfDigits(b);
    MiktarComma(neg, a, b);
  }

  lemma MantissaOf(a: string, b: string, va: nat, vb: nat, p: nat)
    requires AllDigits(a) && AllDigits(b)
    requires Val(a) == va && Val(b) == vb && Pow10(|b|) == p
    ensures Mantissa(a, b) == (va * p + vb) as real / p as real
  {
  }

  /** "5,000" is five: the comma is the decimal point. */
  lemma FiveWithComma()
    ensures MiktarToInt(Str("5,000")) == 5
  {
    assert Val("5") == 5;
    assert Val("000") == 0;
    assert Pow10(3) == 1000;
    MantissaOf("5", "000", 5, 0, 1000);
    assert 5000.0 / 1000.0 == 5.0;
    CommaExample(false, "5", "000", 5.0, 5);
    assert Sign(false) + ("5" + "," + "000") == "5,000";
  }

  /** Halves round up: "5,5" is six. */
  lemma HalfRoundsUp()
    ensures MiktarToInt(Str("5,5")) == 6
  {
    assert Val("5") == 5;
    assert Pow10(1) == 10;
    MantissaOf("5", "5", 5, 5, 10);
    assert 55.0 / 10.0 == 5.5;
    CommaExample(false, "5", "5", 5.5, 6);
    assert Sign(false) + ("5" + "," + "5") == "5,5";
  }

  /** Halves round up also below zero: "-2,5" is minus two, not minus three. */
  lemma NegativeHalfRoundsUp()
    ensures MiktarToInt(Str("-2,5")) == -2
  {
    assert Val("2") == 2;
    assert Val("5") == 5;
    assert Pow10(1) == 10;
    MantissaOf("2", "5", 2, 5, 10);
    assert 25.0 / 10.0 == 2.5;
    CommaExample(true, "2", "5", 2.5, -2);
    assert Sign(true) + ("2" + "," + "5") == "-2,5";
  }
}
