/** The text of a measurement, `"%c%ld,%ld"` of its sign, thousands and remainder (lunix-chrdev.c:124-136). */
module SensorText {

  function Digit(d: nat): char
    requires d < 10
  {
    '0' + d as char
  }

  predicate Digits(s: seq<char>) { forall i :: 0 <= i < |s| ==> '0' <= s[i] <= '9' }

  /** `%ld` of a number that is not negative. */
  function Decimal(n: nat): (s: seq<char>)
    ensures |s| >= 1 && Digits(s)
  {
    if n < 10 then [Digit(n)] else Decimal(n / 10) + [Digit(n % 10)]
  }

  function Value(s: seq<char>): nat
    requires Digits(s)
  {
    if s == [] then 0 else Value(s[..|s| - 1]) * 10 + (s[|s| - 1] - '0') as nat
  }

  function Magnitude(v: int): nat { if v >= 0 then v else -v }

  function Text(v: int): (s: seq<char>)
    ensures |s| >= 4
  {
    [if v >= 0 then '+' else '-'] + Decimal(Magnitude(v) / 1000) + [','] + Decimal(Magnitude(v) % 1000)
  }

  lemma {:induction false} ValueOfDecimal(n: nat)
    ensures Value(Decimal(n)) == n
  {
    if n >= 10 {
      ValueOfDecimal(n / 10);
      var s := Decimal(n / 10);
      assert (s + [Digit(n % 10)])[..|s|] == s;
    }
  }

  lemma {:induction false} NoLeadingZero(n: nat)
    ensures |Decimal(n)| > 1 ==> Decimal(n)[0] != '0'
  {
    if n >= 10 { NoLeadingZero(n / 10); }
  }

  /** What the text says: a sign, '+' unless the measurement is negative, and the thousands and the remainder of its
      magnitude, in digits without a leading zero. */
  lemma TextSays(v: int) returns (a: seq<char>, b: seq<char>)
    ensures Text(v) == [if v >= 0 then '+' else '-'] + a + [','] + b
    ensures |a| > 0 && |b| > 0 && Digits(a) && Digits(b)
    ensures (|a| > 1 ==> a[0] != '0') && (|b| > 1 ==> b[0] != '0')
    ensures Value(b) < 1000 && Value(a) * 1000 + Value(b) == if v >= 0 then v else -v
  {
    var n := Magnitude(v);
    a, b := Decimal(n / 1000), Decimal(n % 1000);
    ValueOfDecimal(n / 1000);
    ValueOfDecimal(n % 1000);
    NoLeadingZero(n / 1000);
    NoLeadingZero(n % 1000);
  }

  /** A digit for every factor of ten. */
  lemma {:induction false} DecimalLength(n: nat, d: nat)
    requires d > 0 && n < Ten(d)
    ensures |Decimal(n)| <= d
    decreases d
  {
    if n >= 10 { DecimalLength(n / 10, d - 1); }
  }

  function Ten(d: nat): nat { if d == 0 then 1 else 10 * Ten(d - 1) }

  /** Any measurement of less than 10^17 fits the buffer. */
  lemma TextIsShort(v: int)
    requires -100_000_000_000_000_000 < v < 100_000_000_000_000_000
    ensures |Text(v)| < 20
  {
    var n := Magnitude(v);
    assert Ten(3) == 1000;
    assert Ten(8) == 100_000_000;
    assert Ten(14) == 100_000_000_000_000;
    DecimalLength(n / 1000, 14);
    DecimalLength(n % 1000, 3);
  }

  lemma FirstComma(a: seq<char>, b: seq<char>, s: seq<char>)
    requires Digits(a) && s == a + [','] + b
    ensures |a| < |s| && s[|a|] == ',' && s[..|a|] == a && s[|a| + 1..] == b
    ensures forall i :: 0 <= i < |a| ==> s[i] != ','
  {
    assert forall i :: 0 <= i < |a| ==> s[i] == a[i];
  }

  /** The comma is where the digits of the thousands end. */
  lemma CommaIsUnique(a: seq<char>, b: seq<char>, a': seq<char>, b': seq<char>, s: seq<char>)
    requires Digits(a) && Digits(a') && s == a + [','] + b && s == a' + [','] + b'
    ensures a == a' && b == b'
  {
    hide Digits;
    FirstComma(a, b, s);
    FirstComma(a', b', s);
    assert |a| == |a'|;
  }

  /** The text tells the measurement. */
  lemma TextIsFaithful(v: int, w: int)
    requires Text(v) == Text(w)
    ensures v == w
  {
    hide Text, Value, Digits;
    var a, b := TextSays(v);
    var c, d := TextSays(w);
    AfterSign(if v >= 0 then '+' else '-', a, b);
    AfterSign(if w >= 0 then '+' else '-', c, d);
    CommaIsUnique(a, b, c, d, Text(v)[1..]);
  }

  lemma AfterSign(sign: char, a: seq<char>, b: seq<char>)
    ensures var s := [sign] + a + [','] + b; s[0] == sign && s[1..] == a + [','] + b
  {
  }

  /** The remainder is not padded: read as a decimal fraction the text is right if and only if the remainder has three
      digits or is zero. */
  function Fraction(s: seq<char>): nat
    requires Digits(s)
  {
    if |s| == 1 then Value(s) * 100 else if |s| == 2 then Value(s) * 10 else Value(s)
  }

  lemma RemainderIsNotPadded(r: nat)
    requires r < 1000
    ensures Fraction(Decimal(r)) == r <==> r == 0 || r >= 100
  {
    ValueOfDecimal(r);
    if r < 10 {
      assert |Decimal(r)| == 1;
    } else if r < 100 {
      assert |Decimal(r)| == 2;
    } else {
      assert |Decimal(r)| == 3;
    }
  }
}
