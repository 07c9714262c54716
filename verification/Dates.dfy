/** Dates as ISO text: ten characters whose order as text is the order of the days. */
module Dates {
  import opened Replica

  datatype Date = Date(year: nat, month: nat, day: nat)

  /** The range Python's `date` allows, as far as its text is concerned. */
  predicate IsDate(d: Date) {
    1 <= d.year <= 9999 && 1 <= d.month <= 12 && 1 <= d.day <= 31
  }

  predicate Earlier(a: Date, b: Date) {
    || a.year < b.year
    || (a.year == b.year && a.month < b.month)
    || (a.year == b.year && a.month == b.month && a.day < b.day)
  }

  /** `n` as `width` decimal digits. */
  function Pad(n: nat, width: nat): (text: string)
    ensures |text| == width
  {
    if width == 0 then "" else Pad(n / 10, width - 1) + [Digit(n % 10)]
  }

  /** `date.isoformat`. */
  function Iso(d: Date): string {
    Pad(d.year, 4) + ("-" + (Pad(d.month, 2) + ("-" + Pad(d.day, 2))))
  }

  /** `a < b` on strings. */
  predicate TextBefore(a: string, b: string) {
    if b == "" then false
    else if a == "" then true
    else a[0] < b[0] || (a[0] == b[0] && TextBefore(a[1..], b[1..]))
  }

  /** `a >= b`, then `b >= c`, gives `a >= c`. */
  lemma {:induction false} TextTransitive(a: string, b: string, c: string)
    requires !TextBefore(a, b) && !TextBefore(b, c)
    ensures !TextBefore(a, c)
  {
    if a != "" && b != "" && c != "" && a[0] == b[0] == c[0] {
      TextTransitive(a[1..], b[1..], c[1..]);
    }
  }

  lemma {:induction false} TextIrreflexive(a: string)
    ensures !TextBefore(a, a)
  {
    if a != "" {
      TextIrreflexive(a[1..]);
    }
  }

  lemma {:induction false} TextBeforeIsAsymmetric(a: string, b: string)
    requires TextBefore(a, b)
    ensures !TextBefore(b, a)
  {
    if a != "" && a[0] == b[0] {
      TextBeforeIsAsymmetric(a[1..], b[1..]);
    }
  }

  /** Text of equal length decides first, then what follows it. */
  lemma {:induction false} TextInOrder(a: string, b: string, x: string, y: string)
    requires |a| == |b|
    ensures TextBefore(a + x, b + y) <==> TextBefore(a, b) || (a == b && TextBefore(x, y))
  {
    if a == "" {
      assert a + x == x && b + y == y;
    } else {
      assert (a + x)[1..] == a[1..] + x && (b + y)[1..] == b[1..] + y;
      TextInOrder(a[1..], b[1..], x, y);
      assert a == [a[0]] + a[1..] && b == [b[0]] + b[1..];
    }
  }

  function Power10(width: nat): nat {
    if width == 0 then 1 else 10 * Power10(width - 1)
  }

  /** Zero-padded numbers of one width order as text exactly as they do as numbers. */
  lemma {:induction false} PadOrder(n: nat, m: nat, width: nat)
    requires n < Power10(width) && m < Power10(width)
    ensures TextBefore(Pad(n, width), Pad(m, width)) <==> n < m
    ensures Pad(n, width) == Pad(m, width) <==> n == m
  {
    if width > 0 {
      PadOrder(n / 10, m / 10, width - 1);
      var a, b := Pad(n / 10, width - 1), Pad(m / 10, width - 1);
      TextInOrder(a, b, [Digit(n % 10)], [Digit(m % 10)]);
      LastDigit(a, b, n % 10, m % 10);
      assert n == 10 * (n / 10) + n % 10 && m == 10 * (m / 10) + m % 10;
    }
  }

  lemma LastDigit(a: string, b: string, i: nat, j: nat)
    requires |a| == |b| && i < 10 && j < 10
    ensures TextBefore([Digit(i)], [Digit(j)]) <==> i < j
    ensures a + [Digit(i)] == b + [Digit(j)] <==> a == b && i == j
  {
    if a + [Digit(i)] == b + [Digit(j)] {
      assert (a + [Digit(i)])[..|a|] == a && (b + [Digit(j)])[..|b|] == b;
      assert (a + [Digit(i)])[|a|] == Digit(i) && (b + [Digit(j)])[|b|] == Digit(j);
    }
  }

  /** ISO text orders as the dates do. */
  lemma IsoOrder(a: Date, b: Date)
    requires IsDate(a) && IsDate(b)
    ensures TextBefore(Iso(a), Iso(b)) <==> Earlier(a, b)
  {
    assert Power10(1) == 10;
    assert Power10(2) == 100;
    assert Power10(3) == 1000;
    assert Power10(4) == 10000;
    PadOrder(a.year, b.year, 4);
    PadOrder(a.month, b.month, 2);
    PadOrder(a.day, b.day, 2);
    var afterMonthA, afterMonthB := "-" + Pad(a.day, 2), "-" + Pad(b.day, 2);
    var afterYearA, afterYearB := "-" + (Pad(a.month, 2) + afterMonthA), "-" + (Pad(b.month, 2) + afterMonthB);
    TextInOrder(Pad(a.year, 4), Pad(b.year, 4), afterYearA, afterYearB);
    TextInOrder("-", "-", Pad(a.month, 2) + afterMonthA, Pad(b.month, 2) + afterMonthB);
    TextInOrder(Pad(a.month, 2), Pad(b.month, 2), afterMonthA, afterMonthB);
    TextInOrder("-", "-", Pad(a.day, 2), Pad(b.day, 2));
    TextIrreflexive("-");
  }
}
