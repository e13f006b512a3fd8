/**
 * Clock readings and the two renderings the engine stores: the version key
 * `strftime("%Y%m%d_%H%M%S")` and the record field `isoformat()`. Both are
 * compared as Python strings, so the module also defines that comparison
 * and proves that, on these fixed-width renderings, it is chronological order.
 */
module Timestamps {

  /** A `datetime.datetime` value (naive local time). */
  datatype DateTime = DateTime(year: int, month: int, day: int,
                               hour: int, minute: int, second: int, microsecond: int)

  predicate IsLeapYear(y: int)
  {
    y % 4 == 0 && (y % 100 != 0 || y % 400 == 0)
  }

  function DaysInMonth(y: int, m: int): int
  {
    if m == 2 then (if IsLeapYear(y) then 29 else 28)
    else if m == 4 || m == 6 || m == 9 || m == 11 then 30
    else 31
  }

  /** The ranges `datetime` enforces on its fields. */
  predicate Valid(d: DateTime)
  {
    && 1 <= d.year <= 9999
    && 1 <= d.month <= 12
    && 1 <= d.day <= DaysInMonth(d.year, d.month)
    && 0 <= d.hour < 24
    && 0 <= d.minute < 60
    && 0 <= d.second < 60
    && 0 <= d.microsecond < 1000000
  }

  /** `a` lies in an earlier second than `b`. */
  predicate SecondBefore(a: DateTime, b: DateTime)
  {
    if a.year != b.year then a.year < b.year
    else if a.month != b.month then a.month < b.month
    else if a.day != b.day then a.day < b.day
    else if a.hour != b.hour then a.hour < b.hour
    else if a.minute != b.minute then a.minute < b.minute
    else a.second < b.second
  }

  predicate SameSecond(a: DateTime, b: DateTime)
  {
    a.year == b.year && a.month == b.month && a.day == b.day
    && a.hour == b.hour && a.minute == b.minute && a.second == b.second
  }

  /** `a` is strictly earlier than `b`, to the microsecond. */
  predicate Before(a: DateTime, b: DateTime)
  {
    SecondBefore(a, b) || (SameSecond(a, b) && a.microsecond < b.microsecond)
  }

  // ---------------------------------------------------------------------
  // Python string comparison
  // ---------------------------------------------------------------------

  /** `a < b` on Python strings: code point by code point, a proper prefix first. */
  predicate LexLess(a: string, b: string)
    decreases |a|
  {
    if |a| == 0 then |b| > 0
    else if |b| == 0 then false
    else if a[0] != b[0] then a[0] < b[0]
    else LexLess(a[1..], b[1..])
  }

  lemma {:induction false} LexIrreflexive(a: string)
    ensures !LexLess(a, a)
  {
    if |a| > 0 {
      LexIrreflexive(a[1..]);
    }
  }

  lemma {:induction false} LexAsymmetric(a: string, b: string)
    ensures LexLess(a, b) ==> !LexLess(b, a)
  {
    if |a| > 0 && |b| > 0 && a[0] == b[0] {
      LexAsymmetric(a[1..], b[1..]);
    }
  }

  lemma {:induction false} LexTransitive(a: string, b: string, c: string)
    requires LexLess(a, b) && LexLess(b, c)
    ensures LexLess(a, c)
  {
    if |a| > 0 && a[0] == b[0] && b[0] == c[0] {
      LexTransitive(a[1..], b[1..], c[1..]);
    }
  }

  lemma {:induction false} LexTotal(a: string, b: string)
    ensures a == b || LexLess(a, b) || LexLess(b, a)
  {
    if |a| > 0 && |b| > 0 && a[0] == b[0] {
      LexTotal(a[1..], b[1..]);
      if a[1..] == b[1..] {
        assert a == [a[0]] + a[1..];
        assert b == [b[0]] + b[1..];
      }
    }
  }

  /** Comparing behind a common-length prefix: the prefixes decide unless they are equal. */
  lemma {:induction false} LexAppend(p: string, q: string, s: string, t: string)
    requires |p| == |q|
    ensures LexLess(p + s, q + t) <==> LexLess(p, q) || (p == q && LexLess(s, t))
    ensures p + s == q + t <==> p == q && s == t
  {
    if |p| > 0 {
      assert (p + s)[1..] == p[1..] + s;
      assert (q + t)[1..] == q[1..] + t;
      LexAppend(p[1..], q[1..], s, t);
      if p[0] == q[0] && p[1..] == q[1..] {
        assert p == [p[0]] + p[1..];
        assert q == [q[0]] + q[1..];
      }
    } else {
      assert p + s == s;
      assert q + t == t;
    }
    if p + s == q + t {
      assert p == (p + s)[..|p|];
      assert q == (q + t)[..|q|];
      assert s == (p + s)[|p|..];
      assert t == (q + t)[|q|..];
    }
  }

  // ---------------------------------------------------------------------
  // Zero-padded decimal fields
  // ---------------------------------------------------------------------

  function Pow10(w: nat): nat
  {
    if w == 0 then 1 else 10 * Pow10(w - 1)
  }

  predicate IsDigit(c: char)
  {
    '0' <= c <= '9'
  }

  /** The last `w` decimal digits of `n`, zero-padded (`%02d`, `%04d`, ...). */
  function Digits(n: nat, w: nat): (r: string)
    ensures |r| == w
    ensures forall i :: 0 <= i < |r| ==> IsDigit(r[i])
  {
    if w == 0 then "" else Digits(n / 10, w - 1) + [('0' as int + n % 10) as char]
  }

  /** On numbers that fit the width, comparing the digit strings compares the numbers. */
  lemma {:induction false} DigitsOrder(n: nat, k: nat, w: nat)
    requires n < Pow10(w) && k < Pow10(w)
    ensures LexLess(Digits(n, w), Digits(k, w)) <==> n < k
    ensures Digits(n, w) == Digits(k, w) <==> n == k
  {
    if w > 0 {
      DigitsOrder(n / 10, k / 10, w - 1);
      var dn, dk := ('0' as int + n % 10) as char, ('0' as int + k % 10) as char;
      LexAppend(Digits(n / 10, w - 1), Digits(k / 10, w - 1), [dn], [dk]);
      assert LexLess([dn], [dk]) <==> n % 10 < k % 10 by {
        assert [dn][1..] == [] && [dk][1..] == [];
      }
    }
  }

  /** A field followed by the rest of a rendering compares field first. */
  lemma Field(n: nat, k: nat, w: nat, s: string, t: string)
    requires n < Pow10(w) && k < Pow10(w)
    ensures LexLess(Digits(n, w) + s, Digits(k, w) + t) <==> n < k || (n == k && LexLess(s, t))
    ensures Digits(n, w) + s == Digits(k, w) + t <==> n == k && s == t
  {
    DigitsOrder(n, k, w);
    LexAppend(Digits(n, w), Digits(k, w), s, t);
  }

  /** A fixed separator in the same place on both sides decides nothing. */
  lemma Separator(sep: string, s: string, t: string)
    ensures LexLess(sep + s, sep + t) <==> LexLess(s, t)
    ensures sep + s == sep + t <==> s == t
  {
    LexAppend(sep, sep, s, t);
    LexIrreflexive(sep);
  }

  // ---------------------------------------------------------------------
  // The two renderings
  // ---------------------------------------------------------------------

  const StampWidth: nat := 15

  /** `strftime("%Y%m%d_%H%M%S")`: `YYYYMMDD_HHMMSS`. */
  function Stamp(d: DateTime): (r: string)
    requires Valid(d)
    ensures |r| == StampWidth
    ensures forall i :: 0 <= i < |r| ==> (r[i] == '_' <==> i == 8) && (i != 8 ==> IsDigit(r[i]))
  {
    Digits(d.year, 4) + (Digits(d.month, 2) + (Digits(d.day, 2) + ("_" +
      (Digits(d.hour, 2) + (Digits(d.minute, 2) + Digits(d.second, 2))))))
  }

  /** The fraction `isoformat()` appends: nothing for a whole second, else `.ffffff`. */
  function Fraction(us: nat): string
  {
    if us == 0 then "" else "." + Digits(us, 6)
  }

  /** The clock part of `isoformat()`: `HH:MM:SS[.ffffff]`. */
  function Clock(d: DateTime): string
    requires Valid(d)
  {
    Digits(d.hour, 2) + (":" + (Digits(d.minute, 2) + (":" + (Digits(d.second, 2) + Fraction(d.microsecond)))))
  }

  /** `isoformat()`: `YYYY-MM-DDTHH:MM:SS[.ffffff]`. */
  function Iso(d: DateTime): (r: string)
    requires Valid(d)
    ensures |r| == if d.microsecond == 0 then 19 else 26
  {
    Digits(d.year, 4) + ("-" + (Digits(d.month, 2) + ("-" + (Digits(d.day, 2) + ("T" + Clock(d))))))
  }

  /**
   * Version keys sort chronologically: one key is smaller than another exactly
   * when its clock reading lies in an earlier second, and two keys coincide
   * exactly when the readings fall in the same second.
   */
  lemma StampOrder(a: DateTime, b: DateTime)
    requires Valid(a) && Valid(b)
    ensures LexLess(Stamp(a), Stamp(b)) <==> SecondBefore(a, b)
    ensures Stamp(a) == Stamp(b) <==> SameSecond(a, b)
  {
    var s5, t5 := Digits(a.second, 2), Digits(b.second, 2);
    DigitsOrder(a.second, b.second, 2);
    var s4, t4 := Digits(a.minute, 2) + s5, Digits(b.minute, 2) + t5;
    Field(a.minute, b.minute, 2, s5, t5);
    var s3, t3 := Digits(a.hour, 2) + s4, Digits(b.hour, 2) + t4;
    Field(a.hour, b.hour, 2, s4, t4);
    Separator("_", s3, t3);
    var s2, t2 := Digits(a.day, 2) + ("_" + s3), Digits(b.day, 2) + ("_" + t3);
    Field(a.day, b.day, 2, "_" + s3, "_" + t3);
    var s1, t1 := Digits(a.month, 2) + s2, Digits(b.month, 2) + t2;
    Field(a.month, b.month, 2, s2, t2);
    Field(a.year, b.year, 4, s1, t1);
  }

  lemma FractionOrder(u: nat, v: nat)
    requires u < 1000000 && v < 1000000
    ensures LexLess(Fraction(u), Fraction(v)) <==> u < v
    ensures Fraction(u) == Fraction(v) <==> u == v
  {
    if u != 0 && v != 0 {
      DigitsOrder(u, v, 6);
      Separator(".", Digits(u, 6), Digits(v, 6));
    } else if u == 0 && v == 0 {
      LexIrreflexive("");
    }
  }

  /** `a`'s time of day is earlier than `b`'s, to the microsecond. */
  predicate ClockBefore(a: DateTime, b: DateTime)
  {
    if a.hour != b.hour then a.hour < b.hour
    else if a.minute != b.minute then a.minute < b.minute
    else if a.second != b.second then a.second < b.second
    else a.microsecond < b.microsecond
  }

  /** The clock parts compare as the times of day. */
  lemma ClockOrder(a: DateTime, b: DateTime)
    requires Valid(a) && Valid(b)
    ensures LexLess(Clock(a), Clock(b)) <==> ClockBefore(a, b)
    ensures Clock(a) == Clock(b) <==> a.hour == b.hour && a.minute == b.minute
                                      && a.second == b.second && a.microsecond == b.microsecond
  {
    var s3, t3 := Fraction(a.microsecond), Fraction(b.microsecond);
    FractionOrder(a.microsecond, b.microsecond);
    var s2, t2 := Digits(a.second, 2) + s3, Digits(b.second, 2) + t3;
    Field(a.second, b.second, 2, s3, t3);
    Separator(":", s2, t2);
    var s1, t1 := Digits(a.minute, 2) + (":" + s2), Digits(b.minute, 2) + (":" + t2);
    Field(a.minute, b.minute, 2, ":" + s2, ":" + t2);
    Separator(":", s1, t1);
    Field(a.hour, b.hour, 2, ":" + s1, ":" + t1);
  }

  /**
   * The record's `timestamp` field sorts chronologically too, to the
   * microsecond, although its fraction is omitted for whole seconds.
   */
  lemma IsoOrder(a: DateTime, b: DateTime)
    requires Valid(a) && Valid(b)
    ensures LexLess(Iso(a), Iso(b)) <==> Before(a, b)
    ensures Iso(a) == Iso(b) <==> a == b
  {
    var s3, t3 := Clock(a), Clock(b);
    ClockOrder(a, b);
    Separator("T", s3, t3);
    var s2, t2 := Digits(a.day, 2) + ("T" + s3), Digits(b.day, 2) + ("T" + t3);
    Field(a.day, b.day, 2, "T" + s3, "T" + t3);
    Separator("-", s2, t2);
    var s1, t1 := Digits(a.month, 2) + ("-" + s2), Digits(b.month, 2) + ("-" + t2);
    Field(a.month, b.month, 2, "-" + s2, "-" + t2);
    Separator("-", s1, t1);
    Field(a.year, b.year, 4, "-" + s1, "-" + t1);
  }
}
