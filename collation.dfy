/** SQLite's BINARY collation on TEXT: strings compared lexicographically by
    character code. The patient records query sorts visit dates with it, and
    for ISO dates it agrees with the calendar (`Timestamp.CalendarDayOrder`). */
module Collation {

  predicate TextLe(a: string, b: string)
    decreases |a|
  {
    a == [] || (b != [] && (a[0] < b[0] || (a[0] == b[0] && TextLe(a[1..], b[1..]))))
  }

  lemma {:induction false} TextLeTotal(a: string, b: string)
    ensures TextLe(a, b) || TextLe(b, a)
    decreases |a|
  {
    if a != [] && b != [] && a[0] == b[0] {
      TextLeTotal(a[1..], b[1..]);
    }
  }

  lemma {:induction false} TextLeTrans(a: string, b: string, c: string)
    requires TextLe(a, b) && TextLe(b, c)
    ensures TextLe(a, c)
    decreases |a|
  {
    if a != [] && b[0] == a[0] && c[0] == b[0] {
      TextLeTrans(a[1..], b[1..], c[1..]);
    }
  }

  lemma {:induction false} TextLeAntisymmetric(a: string, b: string)
    requires TextLe(a, b) && TextLe(b, a)
    ensures a == b
    decreases |a|
  {
    if a != [] {
      TextLeAntisymmetric(a[1..], b[1..]);
      assert a == [a[0]] + a[1..] && b == [b[0]] + b[1..];
    }
  }

  /** Two strings with equal-length heads compare by their heads, and by
      their tails when the heads are equal. */
  lemma {:induction false} TextLeAppend(a1: string, a2: string, b1: string, b2: string)
    requires |a1| == |b1|
    ensures TextLe(a1 + a2, b1 + b2) <==> (a1 != b1 && TextLe(a1, b1)) || (a1 == b1 && TextLe(a2, b2))
    decreases |a1|
  {
    if a1 != [] {
      var a, b := a1 + a2, b1 + b2;
      assert a[0] == a1[0] && b[0] == b1[0];
      assert a[1..] == a1[1..] + a2 && b[1..] == b1[1..] + b2;
      if a1[0] == b1[0] {
        TextLeAppend(a1[1..], a2, b1[1..], b2);
        assert a1 == [a1[0]] + a1[1..] && b1 == [b1[0]] + b1[1..];
        assert TextLe(a, b) == TextLe(a[1..], b[1..]);
        assert TextLe(a1, b1) == TextLe(a1[1..], b1[1..]);
      } else {
        assert a1 != b1;
        assert TextLe(a, b) == (a1[0] < b1[0]) == TextLe(a1, b1);
      }
    } else {
      assert a1 + a2 == a2 && b1 + b2 == b2;
    }
  }
}
