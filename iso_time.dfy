/**
 * Naive `datetime` values and `isoformat(timespec="seconds")`, the text the
 * scheduler stores in `publish_at` and compares against "now".
 */
module IsoTime {
  import opened Text

  datatype RawDateTime = DateTime(year: int, month: int, day: int,
                                  hour: int, minute: int, second: int, microsecond: int)

  predicate LeapYear(year: int) {
    year % 4 == 0 && (year % 100 != 0 || year % 400 == 0)
  }

  function DaysInMonth(year: int, month: int): (days: int)
    requires 1 <= month <= 12
    ensures 28 <= days <= 31
    ensures month == 2 ==> (days == 29 <==> LeapYear(year))
  {
    if month == 2 then (if LeapYear(year) then 29 else 28)
    else if month == 4 || month == 6 || month == 9 || month == 11 then 30
    else 31
  }

  /** The ranges a `datetime` constructor accepts. */
  predicate InRange(d: RawDateTime)
    ensures InRange(d) ==> d.year < Pow10(4) && d.month < Pow10(2) && d.day < Pow10(2)
    ensures InRange(d) ==> d.hour < Pow10(2) && d.minute < Pow10(2) && d.second < Pow10(2)
  {
    assert Pow10(2) == 100 && Pow10(4) == 10000;
    && 1 <= d.year <= 9999
    && 1 <= d.month <= 12
    && 1 <= d.day <= DaysInMonth(d.year, d.month)
    && 0 <= d.hour < 24 && 0 <= d.minute < 60 && 0 <= d.second < 60
    && 0 <= d.microsecond < 1000000
  }

  type DateTime = d: RawDateTime | InRange(d) witness DateTime(1, 1, 1, 0, 0, 0, 0)

  /** `a` is no later than `b` once both are truncated to whole seconds. */
  predicate SameSecondOrEarlier(a: DateTime, b: DateTime) {
    a.year < b.year || (a.year == b.year &&
    (a.month < b.month || (a.month == b.month &&
    (a.day < b.day || (a.day == b.day &&
    (a.hour < b.hour || (a.hour == b.hour &&
    (a.minute < b.minute || (a.minute == b.minute &&
    a.second <= b.second)))))))))
  }

  predicate SameSecond(a: DateTime, b: DateTime) {
    a.year == b.year && a.month == b.month && a.day == b.day &&
    a.hour == b.hour && a.minute == b.minute && a.second == b.second
  }

  /** Chronological order, microseconds included. */
  predicate NoLaterThan(a: DateTime, b: DateTime) {
    SameSecondOrEarlier(a, b) && (SameSecond(a, b) ==> a.microsecond <= b.microsecond)
  }

  function Pow10(w: nat): nat {
    if w == 0 then 1 else 10 * Pow10(w - 1)
  }

  function DigitChar(d: int): char
    requires 0 <= d < 10
  {
    ('0' as int + d) as char
  }

  /** `n` written in decimal with `w` digits, zero-padded on the left (`%0wd` for `n < 10^w`). */
  function Digits(n: nat, w: nat): (s: string)
    ensures |s| == w
  {
    if w == 0 then [] else Digits(n / 10, w - 1) + [DigitChar(n % 10)]
  }

  lemma {:induction false} DigitsOrder(n: nat, m: nat, w: nat)
    requires n < Pow10(w) && m < Pow10(w)
    ensures Digits(n, w) == Digits(m, w) <==> n == m
    ensures LexLe(Digits(n, w), Digits(m, w)) <==> n <= m
  {
    if w == 0 {
      LexLeReflexive([]);
    } else {
      var a, b := Digits(n / 10, w - 1), Digits(m / 10, w - 1);
      var c, d := DigitChar(n % 10), DigitChar(m % 10);
      DigitsOrder(n / 10, m / 10, w - 1);
      LexLeAppend(a, [c], b, [d]);
      assert LexLe([c], [d]) <==> c <= d;
      assert a + [c] == b + [d] <==> a == b && c == d by {
        if a + [c] == b + [d] {
          assert (a + [c])[..|a|] == a && (b + [d])[..|b|] == b;
          assert (a + [c])[|a|] == c && (b + [d])[|b|] == d;
        }
      }
      assert n == 10 * (n / 10) + n % 10;
      assert m == 10 * (m / 10) + m % 10;
    }
  }

  /** `d.isoformat(timespec="seconds")` for a naive datetime: `YYYY-MM-DDTHH:MM:SS`. */
  function IsoSeconds(d: DateTime): (s: string)
    ensures |s| == 19
  {
    Digits(d.year, 4) + ("-" + (Digits(d.month, 2) + ("-" + (Digits(d.day, 2) +
    ("T" + (Digits(d.hour, 2) + (":" + (Digits(d.minute, 2) + (":" + Digits(d.second, 2))))))))))
  }

  /** A zero-padded field followed by more text: the field decides, and only a tie defers to the rest. */
  lemma FieldThen(n: nat, m: nat, w: nat, r1: string, r2: string)
    requires n < Pow10(w) && m < Pow10(w)
    ensures LexLe(Digits(n, w) + r1, Digits(m, w) + r2) <==> n < m || (n == m && LexLe(r1, r2))
  {
    DigitsOrder(n, m, w);
    LexLeAppend(Digits(n, w), r1, Digits(m, w), r2);
  }

  /**
   * Comparing the stored text is comparing the instants to the second:
   * the `<=` of the SQL on `publish_at` means "no later, after truncating
   * both sides to whole seconds".
   */
  lemma IsoOrderIsChronological(a: DateTime, b: DateTime)
    ensures LexLe(IsoSeconds(a), IsoSeconds(b)) <==> SameSecondOrEarlier(a, b)
  {
    assert Pow10(2) == 100 && Pow10(4) == 10000;
    var s1, s2 := Digits(a.second, 2), Digits(b.second, 2);
    DigitsOrder(a.second, b.second, 2);
    var mi1, mi2 := Digits(a.minute, 2) + (":" + s1), Digits(b.minute, 2) + (":" + s2);
    LexLeSamePrefixChar(':', s1, s2);
    FieldThen(a.minute, b.minute, 2, ":" + s1, ":" + s2);
    var h1, h2 := Digits(a.hour, 2) + (":" + mi1), Digits(b.hour, 2) + (":" + mi2);
    LexLeSamePrefixChar(':', mi1, mi2);
    FieldThen(a.hour, b.hour, 2, ":" + mi1, ":" + mi2);
    var d1, d2 := Digits(a.day, 2) + ("T" + h1), Digits(b.day, 2) + ("T" + h2);
    LexLeSamePrefixChar('T', h1, h2);
    FieldThen(a.day, b.day, 2, "T" + h1, "T" + h2);
    var mo1, mo2 := Digits(a.month, 2) + ("-" + d1), Digits(b.month, 2) + ("-" + d2);
    LexLeSamePrefixChar('-', d1, d2);
    FieldThen(a.month, b.month, 2, "-" + d1, "-" + d2);
    LexLeSamePrefixChar('-', mo1, mo2);
    FieldThen(a.year, b.year, 4, "-" + mo1, "-" + mo2);
  }

  /** Two instants format to the same text exactly when they fall in the same second. */
  lemma IsoSecondsEqual(a: DateTime, b: DateTime)
    ensures IsoSeconds(a) == IsoSeconds(b) <==> SameSecond(a, b)
  {
    IsoOrderIsChronological(a, b);
    IsoOrderIsChronological(b, a);
    if IsoSeconds(a) == IsoSeconds(b) {
      LexLeReflexive(IsoSeconds(a));
    } else if SameSecondOrEarlier(a, b) && SameSecondOrEarlier(b, a) {
      LexLeAntisymmetric(IsoSeconds(a), IsoSeconds(b));
    }
  }

  /** Chronological order implies text order; the converse holds only to the second. */
  lemma ChronologicalImpliesIsoOrder(a: DateTime, b: DateTime)
    requires NoLaterThan(a, b)
    ensures LexLe(IsoSeconds(a), IsoSeconds(b))
  {
    IsoOrderIsChronological(a, b);
  }
}
