/** UTC instants and the texts `datetime.isoformat()` gives for them. The fraction is left out when it is zero, so texts of
    two lengths are compared; code-point order still agrees with time. */
module IsoTime {
  import opened TextOrder

  datatype DateTime = DateTime(year: nat, month: nat, day: nat, hour: nat, minute: nat, second: nat, micro: nat)

  predicate IsLeap(y: nat) {
    y % 4 == 0 && (y % 100 != 0 || y % 400 == 0)
  }

  function DaysInMonth(y: nat, m: nat): nat {
    if m == 2 then (if IsLeap(y) then 29 else 28)
    else if m == 4 || m == 6 || m == 9 || m == 11 then 30 else 31
  }

  predicate Valid(d: DateTime) {
    && 1 <= d.year <= 9999 && 1 <= d.month <= 12 && 1 <= d.day <= DaysInMonth(d.year, d.month)
    && d.hour < 24 && d.minute < 60 && d.second < 60 && d.micro < 1_000_000
  }

  // ----- Position on the time line -----

  /** Days before the first of January of year y, in the proleptic Gregorian calendar. */
  function DaysBeforeYear(y: nat): int
    requires y >= 1
  {
    (y - 1) * 365 + (y - 1) / 4 - (y - 1) / 100 + (y - 1) / 400
  }

  function DaysBeforeMonth(y: nat, m: nat): nat
    requires m >= 1
  {
    if m == 1 then 0 else DaysBeforeMonth(y, m - 1) + DaysInMonth(y, m - 1)
  }

  function DayNumber(y: nat, m: nat, d: nat): int
    requires y >= 1 && m >= 1
  {
    DaysBeforeYear(y) + DaysBeforeMonth(y, m) + d
  }

  /** Microseconds since a fixed origin. */
  function Instant(d: DateTime): int
    requires Valid(d)
  {
    (((DayNumber(d.year, d.month, d.day) * 24 + d.hour) * 60 + d.minute) * 60 + d.second) * 1_000_000 + d.micro
  }

  /** Stepping from y - 1 to y passes a multiple of k exactly when k divides y. */
  lemma Carry(y: nat, k: nat)
    requires y >= 1 && k >= 1
    ensures y / k - (y - 1) / k == if y % k == 0 then 1 else 0
  {
    var q, r := y / k, y % k;
    assert y == q * k + r;
    if r == 0 {
      assert y - 1 == (q - 1) * k + (k - 1);
      DivUnique(y - 1, k, q - 1, k - 1);
    } else {
      DivUnique(y - 1, k, q, r - 1);
    }
  }

  lemma DivUnique(x: nat, k: nat, q: int, r: nat)
    requires k >= 1 && x == q * k + r && r < k
    ensures x / k == q && x % k == r
  {
    var d := x / k - q;
    assert d * k == r - x % k;
    if d >= 1 {
      AtLeastOnce(d, k);
    } else if d <= -1 {
      AtLeastOnce(-d, k);
    }
  }

  lemma AtLeastOnce(d: int, k: int)
    requires d >= 1 && k >= 0
    ensures d * k >= k && (-d) * k <= -k
  {
  }

  lemma Multiples(y: nat)
    ensures y % 100 == 0 ==> y % 4 == 0
    ensures y % 400 == 0 ==> y % 100 == 0
  {
    var h, f := y / 100, y / 400;
    if y % 100 == 0 {
      assert y == (25 * h) * 4 + 0;
      DivUnique(y, 4, 25 * h, 0);
    }
    if y % 400 == 0 {
      assert y == (4 * f) * 100 + 0;
      DivUnique(y, 100, 4 * f, 0);
    }
  }

  lemma YearLength(y: nat)
    requires y >= 1
    ensures DaysBeforeYear(y + 1) == DaysBeforeYear(y) + 365 + (if IsLeap(y) then 1 else 0)
    ensures DaysBeforeMonth(y, 12) + 31 == 365 + (if IsLeap(y) then 1 else 0)
  {
    hide DaysBeforeMonth;
    Carry(y, 4);
    Carry(y, 100);
    Carry(y, 400);
    Multiples(y);
    DaysBeforeDecember(y);
  }

  lemma DaysBeforeDecember(y: nat)
    ensures DaysBeforeMonth(y, 12) == 306 + DaysInMonth(y, 2)
  {
    assert DaysBeforeMonth(y, 2) == 31;
    assert DaysBeforeMonth(y, 3) == 31 + DaysInMonth(y, 2);
    assert DaysBeforeMonth(y, 4) == 62 + DaysInMonth(y, 2);
    assert DaysBeforeMonth(y, 5) == 92 + DaysInMonth(y, 2);
    assert DaysBeforeMonth(y, 6) == 123 + DaysInMonth(y, 2);
    assert DaysBeforeMonth(y, 7) == 153 + DaysInMonth(y, 2);
    assert DaysBeforeMonth(y, 8) == 184 + DaysInMonth(y, 2);
    assert DaysBeforeMonth(y, 9) == 215 + DaysInMonth(y, 2);
    assert DaysBeforeMonth(y, 10) == 245 + DaysInMonth(y, 2);
    assert DaysBeforeMonth(y, 11) == 276 + DaysInMonth(y, 2);
  }

  lemma {:induction false} LaterYear(y: nat, y': nat)
    requires 1 <= y < y'
    ensures DaysBeforeYear(y') >= DaysBeforeYear(y) + DaysBeforeMonth(y, 12) + 31
    decreases y'
  {
    hide DaysBeforeYear, DaysBeforeMonth;
    YearLength(y' - 1);
    if y < y' - 1 {
      LaterYear(y, y' - 1);
    } else {
      YearLength(y);
    }
  }

  lemma {:induction false} LaterMonth(y: nat, m: nat, m': nat)
    requires 1 <= m < m'
    ensures DaysBeforeMonth(y, m') >= DaysBeforeMonth(y, m) + DaysInMonth(y, m)
    decreases m'
  {
    if m < m' - 1 {
      LaterMonth(y, m, m' - 1);
    }
  }

  predicate DateLess(a: DateTime, b: DateTime) {
    a.year < b.year || (a.year == b.year && (a.month < b.month || (a.month == b.month && a.day < b.day)))
  }

  lemma EarlierDate(a: DateTime, b: DateTime)
    requires Valid(a) && Valid(b) && DateLess(a, b)
    ensures DayNumber(a.year, a.month, a.day) < DayNumber(b.year, b.month, b.day)
  {
    hide DaysBeforeYear, DaysBeforeMonth, DaysInMonth;
    DayFits(a);
    if a.year < b.year {
      LaterYear(a.year, b.year);
    } else if a.month < b.month {
      LaterMonth(a.year, a.month, b.month);
    }
  }

  /** A day lies within its year. */
  lemma DayFits(d: DateTime)
    requires Valid(d)
    ensures DaysBeforeMonth(d.year, d.month) + d.day <= DaysBeforeMonth(d.year, 12) + 31
  {
    if d.month < 12 {
      LaterMonth(d.year, d.month, 12);
    }
  }

  predicate ClockLess(a: DateTime, b: DateTime) {
    a.hour < b.hour || (a.hour == b.hour
    && (a.minute < b.minute || (a.minute == b.minute
    && (a.second < b.second || (a.second == b.second && a.micro < b.micro)))))
  }

  predicate SameDate(a: DateTime, b: DateTime) {
    a.year == b.year && a.month == b.month && a.day == b.day
  }

  /** Earlier in the field-by-field order. */
  predicate FieldsLess(a: DateTime, b: DateTime) {
    DateLess(a, b) || (SameDate(a, b) && ClockLess(a, b))
  }

  lemma EarlierFields(a: DateTime, b: DateTime)
    requires Valid(a) && Valid(b) && FieldsLess(a, b)
    ensures Instant(a) < Instant(b)
  {
    hide DayNumber;
    if DateLess(a, b) {
      EarlierDate(a, b);
    }
  }

  /** The order of the fields is the order of time. */
  lemma FieldsAreTime(a: DateTime, b: DateTime)
    requires Valid(a) && Valid(b)
    ensures FieldsLess(a, b) <==> Instant(a) < Instant(b)
  {
    hide Instant;
    if FieldsLess(a, b) {
      EarlierFields(a, b);
    } else if FieldsLess(b, a) {
      EarlierFields(b, a);
    } else {
      assert a == b;
    }
  }

  // ----- Text -----

  function Digit(d: nat): char
    requires d < 10
  {
    '0' + (d as char)
  }

  /** n in decimal on exactly `width` digits. */
  function Pad(n: nat, width: nat): (s: string)
    ensures |s| == width
  {
    if width == 0 then "" else Pad(n / 10, width - 1) + [Digit(n % 10)]
  }

  function Pow10(width: nat): nat {
    if width == 0 then 1 else 10 * Pow10(width - 1)
  }

  lemma DigitOrder(a: nat, b: nat)
    requires a < 10 && b < 10
    ensures Less([Digit(a)], [Digit(b)]) <==> a < b
    ensures Digit(a) == Digit(b) <==> a == b
  {
    assert Digit(a) < Digit(b) <==> a < b;
  }

  lemma {:induction false} PadOrder(a: nat, b: nat, width: nat)
    requires a < Pow10(width) && b < Pow10(width)
    ensures Less(Pad(a, width), Pad(b, width)) <==> a < b
    ensures Pad(a, width) == Pad(b, width) <==> a == b
  {
    if width > 0 {
      var x, y := Pad(a / 10, width - 1), Pad(b / 10, width - 1);
      PadOrder(a / 10, b / 10, width - 1);
      DigitOrder(a % 10, b % 10);
      assert Pad(a, width)[..width - 1] == x && Pad(b, width)[..width - 1] == y;
      assert Pad(a, width)[width - 1] == Digit(a % 10) && Pad(b, width)[width - 1] == Digit(b % 10);
      hide Pad, Less, Digit;
      if x == y {
        PrefixCancels(x, [Digit(a % 10)], [Digit(b % 10)]);
      } else {
        HeadDecides(x, y, [Digit(a % 10)], [Digit(b % 10)]);
      }
    }
  }

  /** A number of fixed width and the separator after it. */
  datatype Field = Field(value: nat, width: nat, sep: string)

  function FieldsText(fs: seq<Field>): string {
    if fs == [] then "" else Pad(fs[0].value, fs[0].width) + fs[0].sep + FieldsText(fs[1..])
  }

  ghost predicate SameShape(fa: seq<Field>, fb: seq<Field>) {
    |fa| == |fb| && forall i | 0 <= i < |fa| ::
      fa[i].width == fb[i].width && fa[i].sep == fb[i].sep && fa[i].value < Pow10(fa[i].width) && fb[i].value < Pow10(fb[i].width)
  }

  predicate ValuesLess(fa: seq<Field>, fb: seq<Field>)
    requires |fa| == |fb|
  {
    fa != [] && (fa[0].value < fb[0].value || (fa[0].value == fb[0].value && ValuesLess(fa[1..], fb[1..])))
  }

  lemma TailsSameShape(fa: seq<Field>, fb: seq<Field>)
    requires fa != [] && SameShape(fa, fb)
    ensures SameShape(fa[1..], fb[1..])
    ensures fa[0].width == fb[0].width && fa[0].sep == fb[0].sep && fa[0].value < Pow10(fa[0].width) && fb[0].value < Pow10(fb[0].width)
  {
    hide Pow10;
  }

  lemma HeadAndTail(fa: seq<Field>, fb: seq<Field>)
    requires fa != [] && fb != []
    ensures fa == fb <==> fa[0] == fb[0] && fa[1..] == fb[1..]
  {
    assert fa == [fa[0]] + fa[1..] && fb == [fb[0]] + fb[1..];
  }

  lemma ValuesLessStep(fa: seq<Field>, fb: seq<Field>)
    requires fa != [] && |fa| == |fb|
    ensures ValuesLess(fa, fb) <==> fa[0].value < fb[0].value || (fa[0].value == fb[0].value && ValuesLess(fa[1..], fb[1..]))
  {
  }

  /** Lists of fields compare by their heads, then by their tails. */
  lemma HeadsThenTails(fa: seq<Field>, fb: seq<Field>)
    requires fa != [] && SameShape(fa, fb)
    ensures |fa| == |fb|
    ensures ValuesLess(fa, fb) <==> fa[0].value < fb[0].value || (fa[0].value == fb[0].value && ValuesLess(fa[1..], fb[1..]))
    ensures fa == fb <==> fa[0].value == fb[0].value && fa[1..] == fb[1..]
  {
    hide ValuesLess, Pow10;
    TailsSameShape(fa, fb);
    ValuesLessStep(fa, fb);
    HeadAndTail(fa, fb);
  }

  /** Texts made of fields of the same widths compare like the numbers; what follows decides between equal ones. */
  lemma {:induction false} TextOrderOfFields(fa: seq<Field>, fb: seq<Field>, x: string, y: string)
    requires SameShape(fa, fb)
    ensures Less(FieldsText(fa) + x, FieldsText(fb) + y) <==> ValuesLess(fa, fb) || (fa == fb && Less(x, y))
  {
    if fa == [] {
      assert FieldsText(fa) + x == x && FieldsText(fb) + y == y;
    } else {
      TailsSameShape(fa, fb);
      TextOrderStep(fa, fb, x, y);
      TextOrderOfFields(fa[1..], fb[1..], x, y);
      HeadsThenTails(fa, fb);
      hide *;
    }
  }

  lemma TextOrderStep(fa: seq<Field>, fb: seq<Field>, x: string, y: string)
    requires fa != [] && SameShape(fa, fb)
    ensures |fa| == |fb|
    ensures Less(FieldsText(fa) + x, FieldsText(fb) + y)
            <==> fa[0].value < fb[0].value
                 || (fa[0].value == fb[0].value && Less(FieldsText(fa[1..]) + x, FieldsText(fb[1..]) + y))
  {
    TailsSameShape(fa, fb);
    hide Less, Pad, Pow10, FieldsText;
    FirstField(fa, x);
    FirstField(fb, y);
    OneField(fa[0], fb[0], FieldsText(fa[1..]) + x, FieldsText(fb[1..]) + y);
  }

  lemma FirstField(fs: seq<Field>, x: string)
    requires fs != []
    ensures FieldsText(fs) + x == Pad(fs[0].value, fs[0].width) + (fs[0].sep + (FieldsText(fs[1..]) + x))
  {
    hide Pad;
  }

  lemma OneField(a: Field, b: Field, x: string, y: string)
    requires a.width == b.width && a.sep == b.sep && a.value < Pow10(a.width) && b.value < Pow10(b.width)
    ensures Less(Pad(a.value, a.width) + (a.sep + x), Pad(b.value, b.width) + (b.sep + y))
            <==> a.value < b.value || (a.value == b.value && Less(x, y))
  {
    hide Pad, Less;
    PadOrder(a.value, b.value, a.width);
    if a.value == b.value {
      PrefixCancels(Pad(a.value, a.width), a.sep + x, b.sep + y);
      PrefixCancels(a.sep, x, y);
    } else {
      HeadDecides(Pad(a.value, a.width), Pad(b.value, b.width), a.sep + x, b.sep + y);
    }
  }

  function DateFields(d: DateTime): seq<Field> {
    [Field(d.year, 4, "-"), Field(d.month, 2, "-"), Field(d.day, 2, "")]
  }

  function ClockFields(d: DateTime): seq<Field> {
    [Field(d.hour, 2, ":"), Field(d.minute, 2, ":"), Field(d.second, 2, "")]
  }

  /** `strftime("%Y-%m-%d")`. */
  function DateText(d: DateTime): string {
    FieldsText(DateFields(d))
  }

  function Fraction(micro: nat): string {
    if micro == 0 then "" else "." + Pad(micro, 6)
  }

  /** `isoformat()` of an aware UTC datetime. */
  function Iso(d: DateTime): string {
    DateText(d) + ("T" + (FieldsText(ClockFields(d)) + (Fraction(d.micro) + "+00:00")))
  }

  lemma Powers()
    ensures Pow10(2) == 100 && Pow10(4) == 10_000 && Pow10(6) == 1_000_000
  {
    assert Pow10(1) == 10 && Pow10(3) == 1000 && Pow10(5) == 100_000;
  }

  lemma ThreeValues(fa: seq<Field>, fb: seq<Field>)
    requires |fa| == 3 && |fb| == 3
    ensures ValuesLess(fa, fb) <==>
              fa[0].value < fb[0].value || (fa[0].value == fb[0].value
              && (fa[1].value < fb[1].value || (fa[1].value == fb[1].value && fa[2].value < fb[2].value)))
  {
    var ta, tb := fa[1..], fb[1..];
    assert ta[1..] == [fa[2]] && tb[1..] == [fb[2]];
    assert !ValuesLess(ta[1..][1..], tb[1..][1..]);
    assert ValuesLess(ta[1..], tb[1..]) <==> fa[2].value < fb[2].value;
    assert ta[0] == fa[1] && tb[0] == fb[1];
  }

  lemma DateValues(a: DateTime, b: DateTime)
    ensures ValuesLess(DateFields(a), DateFields(b)) <==> DateLess(a, b)
    ensures DateFields(a) == DateFields(b) <==> SameDate(a, b)
  {
    var fa, fb := DateFields(a), DateFields(b);
    ThreeValues(fa, fb);
    assert fa == fb <==> fa[0] == fb[0] && fa[1] == fb[1] && fa[2] == fb[2];
  }

  lemma ClockValues(a: DateTime, b: DateTime)
    ensures ValuesLess(ClockFields(a), ClockFields(b)) || (ClockFields(a) == ClockFields(b) && a.micro < b.micro) <==> ClockLess(a, b)
  {
    var fa, fb := ClockFields(a), ClockFields(b);
    ThreeValues(fa, fb);
    assert fa == fb <==> fa[0] == fb[0] && fa[1] == fb[1] && fa[2] == fb[2];
  }

  /** '+' comes before '.', so a whole second comes before any fraction of it. */
  lemma FractionOrder(m: nat, n: nat)
    requires m < 1_000_000 && n < 1_000_000
    ensures Less(Fraction(m) + "+00:00", Fraction(n) + "+00:00") <==> m < n
  {
    Powers();
    PadOrder(m, n, 6);
    var zone := "+00:00";
    if m > 0 && n > 0 {
      assert Fraction(m) + zone == "." + (Pad(m, 6) + zone) && Fraction(n) + zone == "." + (Pad(n, 6) + zone);
      PrefixCancels(".", Pad(m, 6) + zone, Pad(n, 6) + zone);
      if m == n {
        Trichotomy(Pad(m, 6) + zone, Pad(m, 6) + zone);
      } else {
        HeadDecides(Pad(m, 6), Pad(n, 6), zone, zone);
      }
    } else {
      Trichotomy(zone, zone);
      assert Fraction(0) + zone == zone;
      assert m > 0 ==> (Fraction(m) + zone)[0] == '.';
      assert n > 0 ==> (Fraction(n) + zone)[0] == '.';
    }
  }

  /** Dates compare as text like days on the calendar, whatever equal ending follows. */
  lemma DateTextOrder(a: DateTime, b: DateTime, ending: string)
    requires Valid(a) && Valid(b)
    ensures Less(DateText(a) + ending, DateText(b) + ending) <==> DateLess(a, b)
    ensures DateText(a) == DateText(b) <==> SameDate(a, b)
  {
    Powers();
    DateShape(a, b);
    DateValues(a, b);
    DateValues(b, a);
    TextOrderOfFields(DateFields(a), DateFields(b), ending, ending);
    TextOrderOfFields(DateFields(a), DateFields(b), "", "");
    TextOrderOfFields(DateFields(b), DateFields(a), "", "");
    assert DateText(a) + "" == DateText(a) && DateText(b) + "" == DateText(b);
    Trichotomy(ending, ending);
    Trichotomy(DateText(a), DateText(b));
  }

  lemma DateShape(a: DateTime, b: DateTime)
    requires Valid(a) && Valid(b)
    ensures SameShape(DateFields(a), DateFields(b)) && SameShape(DateFields(b), DateFields(a))
    ensures SameShape(ClockFields(a), ClockFields(b))
  {
    Powers();
  }

  /** ISO texts compare like the instants they stand for, with or without a fraction on either side. */
  lemma IsoOrder(a: DateTime, b: DateTime)
    requires Valid(a) && Valid(b)
    ensures Less(Iso(a), Iso(b)) <==> Instant(a) < Instant(b)
  {
    FieldsAreTime(a, b);
    DateShape(a, b);
    DateValues(a, b);
    ClockValues(a, b);
    FractionOrder(a.micro, b.micro);
    hide FieldsText, Less, Pad, Instant, ValuesLess;
    var clockA, clockB := FieldsText(ClockFields(a)) + (Fraction(a.micro) + "+00:00"), FieldsText(ClockFields(b)) + (Fraction(b.micro) + "+00:00");
    TextOrderOfFields(ClockFields(a), ClockFields(b), Fraction(a.micro) + "+00:00", Fraction(b.micro) + "+00:00");
    PrefixCancels("T", clockA, clockB);
    TextOrderOfFields(DateFields(a), DateFields(b), "T" + clockA, "T" + clockB);
  }
}
