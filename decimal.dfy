/** Decimal digit strings: the fixed-width numeric fields of ISO dates and
    times are read with `DigitsValue`, and `Number.prototype.toString()` of a
    non-negative integer (the `Date.now().toString()` record ids) is `Format`. */
module Decimal {
  import opened Wrappers
  import opened Collation

  predicate IsDigit(c: char) {
    '0' <= c <= '9'
  }

  predicate AllDigits(s: string) {
    forall i :: 0 <= i < |s| ==> IsDigit(s[i])
  }

  function DigitChar(d: nat): (c: char)
    requires d < 10
    ensures IsDigit(c) && c as int - '0' as int == d
  {
    ('0' as int + d) as char
  }

  /** The value of a non-empty string of decimal digits, most significant first. */
  function DigitsValue(s: string): (v: Option<nat>)
    ensures v.Some? <==> |s| > 0 && AllDigits(s)
  {
    if |s| == 0 || !IsDigit(s[|s| - 1]) then None
    else
      var last := s[|s| - 1] as int - '0' as int;
      if |s| == 1 then Some(last)
      else match DigitsValue(s[..|s| - 1])
        case None => None
        case Some(high) => Some(high * 10 + last)
  }

  /** The shortest decimal spelling of `n` (no sign, no leading zeros). */
  function Format(n: nat): (s: string)
    ensures |s| > 0 && AllDigits(s)
    ensures |s| > 1 ==> s[0] != '0'
  {
    if n < 10 then [DigitChar(n)] else Format(n / 10) + [DigitChar(n % 10)]
  }

  /** Reading back what `Format` wrote gives the number. */
  lemma {:induction false} FormatRoundTrip(n: nat)
    ensures DigitsValue(Format(n)) == Some(n)
  {
    if n >= 10 {
      var s := Format(n);
      FormatRoundTrip(n / 10);
      assert s[..|s| - 1] == Format(n / 10);
    }
  }

  /** Distinct numbers have distinct spellings. */
  lemma FormatInjective(m: nat, n: nat)
    requires Format(m) == Format(n)
    ensures m == n
  {
    FormatRoundTrip(m);
    FormatRoundTrip(n);
  }

  /** For digit strings of one width, text order is numeric order and equal
      strings are equal numbers. */
  lemma {:induction false} DigitsOrder(a: string, b: string)
    requires |a| == |b| > 0 && AllDigits(a) && AllDigits(b)
    ensures TextLe(a, b) <==> DigitsValue(a).value <= DigitsValue(b).value
    ensures a == b <==> DigitsValue(a).value == DigitsValue(b).value
    decreases |a|
  {
    var n := |a|;
    var x, y := a[n - 1], b[n - 1];
    assert TextLe([x], [y]) <==> x <= y by {
      assert [x][1..] == [] && [y][1..] == [];
    }
    if n == 1 {
      assert a == [x] && b == [y];
    } else {
      var a0, b0 := a[..n - 1], b[..n - 1];
      assert AllDigits(a0) && AllDigits(b0) by {
        forall i | 0 <= i < n - 1 ensures IsDigit(a0[i]) && IsDigit(b0[i]) {
          assert a0[i] == a[i] && b0[i] == b[i];
        }
      }
      DigitsOrder(a0, b0);
      assert a == a0 + [x] && b == b0 + [y];
      TextLeAppend(a0, [x], b0, [y]);
      var dx, dy := x as int - '0' as int, y as int - '0' as int;
      assert DigitsValue(a).value == DigitsValue(a0).value * 10 + dx;
      assert DigitsValue(b).value == DigitsValue(b0).value * 10 + dy;
      PlaceValueOrder(DigitsValue(a0).value, DigitsValue(b0).value, dx, dy);
    }
  }

  /** One more low digit orders numbers by their high part first. */
  lemma PlaceValueOrder(p: int, q: int, d: int, e: int)
    requires 0 <= d < 10 && 0 <= e < 10
    ensures p * 10 + d <= q * 10 + e <==> p < q || (p == q && d <= e)
    ensures p * 10 + d == q * 10 + e <==> p == q && d == e
  {
  }
}
