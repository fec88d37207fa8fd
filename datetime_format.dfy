/** Calendar date-times as Python's `datetime` holds them, and the fixed-width
    text form `%Y-%m-%d<sep>%H:%M:%S` used throughout the pipeline:
    frames are named `image_%Y-%m-%d_%H:%M:%S.jpg`, statistics rows are keyed by
    `isoformat(sep="_")`, and the dashboard shows `%Y-%m-%d %H:%M:%S`. */
module DateTimeFormat {
  import opened Common

  datatype DateTime = DateTime(year: int, month: int, day: int, hour: int, minute: int, second: int)

  /** `datetime.min`, the dashboard's "could not parse" sentinel. */
  const MIN_DATETIME := DateTime(1, 1, 1, 0, 0, 0)

  predicate IsLeapYear(y: int) {
    y % 4 == 0 && (y % 100 != 0 || y % 400 == 0)
  }

  function DaysInMonth(y: int, m: int): (n: int)
    requires 1 <= m <= 12
    ensures 28 <= n <= 31
    ensures n == 29 <==> m == 2 && IsLeapYear(y)
  {
    if m == 2 then (if IsLeapYear(y) then 29 else 28)
    else if m == 4 || m == 6 || m == 9 || m == 11 then 30
    else 31
  }

  /** What Python's `datetime` constructor accepts (no leap seconds, years 1..9999). */
  predicate Valid(t: DateTime) {
    && 1 <= t.year <= 9999
    && 1 <= t.month <= 12
    && 1 <= t.day <= DaysInMonth(t.year, t.month)
    && 0 <= t.hour < 24
    && 0 <= t.minute < 60
    && 0 <= t.second < 60
  }

  /** Python's ordering of datetimes: field by field, most significant first. */
  predicate Before(a: DateTime, b: DateTime) {
    || a.year < b.year
    || (a.year == b.year && a.month < b.month)
    || (a.year == b.year && a.month == b.month && a.day < b.day)
    || (a.year == b.year && a.month == b.month && a.day == b.day && a.hour < b.hour)
    || (a.year == b.year && a.month == b.month && a.day == b.day && a.hour == b.hour && a.minute < b.minute)
    || (a.year == b.year && a.month == b.month && a.day == b.day && a.hour == b.hour && a.minute == b.minute
        && a.second < b.second)
  }

  predicate IsDigit(c: char) { '0' <= c <= '9' }

  function DigitValue(c: char): (n: int)
    requires IsDigit(c)
    ensures 0 <= n < 10
  {
    c as int - '0' as int
  }

  function DigitChar(n: int): (c: char)
    requires 0 <= n < 10
    ensures IsDigit(c) && DigitValue(c) == n
  {
    ('0' as int + n) as char
  }

  /** `%02d` */
  function Pad2(n: int): string
    requires 0 <= n < 100
  {
    [DigitChar(n / 10), DigitChar(n % 10)]
  }

  /** Two decimal digits whose value is `n`. */
  lemma Pad2Digits(n: int)
    requires 0 <= n < 100
    ensures var s := Pad2(n); |s| == 2 && IsDigit(s[0]) && IsDigit(s[1])
    ensures var s := Pad2(n); 10 * DigitValue(s[0]) + DigitValue(s[1]) == n
  {
  }

  /** `%04d` */
  function Pad4(n: int): string
    requires 0 <= n < 10000
  {
    var a, r := n / 1000, n % 1000;
    var b, r' := r / 100, r % 100;
    [DigitChar(a), DigitChar(b), DigitChar(r' / 10), DigitChar(r' % 10)]
  }

  /** Four decimal digits whose value is `n`. */
  lemma Pad4Digits(n: int)
    requires 0 <= n < 10000
    ensures var s := Pad4(n); |s| == 4 && IsDigit(s[0]) && IsDigit(s[1]) && IsDigit(s[2]) && IsDigit(s[3])
    ensures var s := Pad4(n);
            1000 * DigitValue(s[0]) + 100 * DigitValue(s[1]) + 10 * DigitValue(s[2]) + DigitValue(s[3]) == n
  {
    var a, r := n / 1000, n % 1000;
    var b, r' := r / 100, r % 100;
    assert n == 1000 * a + 100 * b + r';
  }

  /** Value of the two digits at `s[i]`, `s[i+1]`. */
  function Num2(s: string, i: nat): int
    requires i + 2 <= |s| && IsDigit(s[i]) && IsDigit(s[i + 1])
  {
    10 * DigitValue(s[i]) + DigitValue(s[i + 1])
  }

  /** Value of the four digits starting at `s[i]`. */
  function Num4(s: string, i: nat): int
    requires i + 4 <= |s| && IsDigit(s[i]) && IsDigit(s[i + 1]) && IsDigit(s[i + 2]) && IsDigit(s[i + 3])
  {
    1000 * DigitValue(s[i]) + 100 * DigitValue(s[i + 1]) + 10 * DigitValue(s[i + 2]) + DigitValue(s[i + 3])
  }

  /** `s` has the character layout `DDDD-DD-DD<sep>DD:DD:DD`. */
  predicate HasShape(s: string, sep: char) {
    && |s| == 19
    && IsDigit(s[0]) && IsDigit(s[1]) && IsDigit(s[2]) && IsDigit(s[3]) && s[4] == '-'
    && IsDigit(s[5]) && IsDigit(s[6]) && s[7] == '-'
    && IsDigit(s[8]) && IsDigit(s[9]) && s[10] == sep
    && IsDigit(s[11]) && IsDigit(s[12]) && s[13] == ':'
    && IsDigit(s[14]) && IsDigit(s[15]) && s[16] == ':'
    && IsDigit(s[17]) && IsDigit(s[18])
  }

  /** The fields read from text of the right shape, before any range check. */
  function Fields(s: string, sep: char): DateTime
    requires HasShape(s, sep)
  {
    DateTime(Num4(s, 0), Num2(s, 5), Num2(s, 8), Num2(s, 11), Num2(s, 14), Num2(s, 17))
  }

  /** `t.strftime("%Y-%m-%d" + sep + "%H:%M:%S")`, equivalently
      `t.isoformat(sep=sep)` for a datetime with no microseconds. */
  function Format(t: DateTime, sep: char): string
    requires Valid(t)
  {
    Pad4(t.year) + "-" + Pad2(t.month) + "-" + Pad2(t.day) + [sep]
    + Pad2(t.hour) + ":" + Pad2(t.minute) + ":" + Pad2(t.second)
  }

  /** The formatted text has the fixed layout, and its fields read back as `t`. */
  lemma FormatShape(t: DateTime, sep: char)
    requires Valid(t)
    ensures HasShape(Format(t, sep), sep) && Fields(Format(t, sep), sep) == t
  {
    var s := Format(t, sep);
    Pad4Digits(t.year);
    Pad2Digits(t.month);
    Pad2Digits(t.day);
    Pad2Digits(t.hour);
    Pad2Digits(t.minute);
    Pad2Digits(t.second);
    var y, mo, d, h, mi, se := Pad4(t.year), Pad2(t.month), Pad2(t.day), Pad2(t.hour), Pad2(t.minute), Pad2(t.second);
    assert s[0..4] == y && s[5..7] == mo && s[8..10] == d && s[11..13] == h && s[14..16] == mi && s[17..19] == se;
  }

  /** `datetime.strptime(s, "%Y-%m-%d" + sep + "%H:%M:%S")` on zero-padded text:
      `None` stands for the `ValueError` it raises. */
  function Parse(s: string, sep: char): (r: Option<DateTime>)
    ensures r.Some? ==> Valid(r.value)
  {
    if HasShape(s, sep) && Valid(Fields(s, sep)) then Some(Fields(s, sep)) else None
  }

  /** Formatting a valid date-time and parsing it back gives it back. */
  lemma ParseFormat(t: DateTime, sep: char)
    requires Valid(t)
    ensures Parse(Format(t, sep), sep) == Some(t)
  {
    FormatShape(t, sep);
  }

  lemma Pad2Num2(s: string, i: nat)
    requires i + 2 <= |s| && IsDigit(s[i]) && IsDigit(s[i + 1])
    ensures Pad2(Num2(s, i)) == s[i..i + 2]
  {
    var n := Num2(s, i);
    Pad2Digits(n);
    assert n / 10 == DigitValue(s[i]) && n % 10 == DigitValue(s[i + 1]);
  }

  lemma Pad4Num4(s: string, i: nat)
    requires i + 4 <= |s| && IsDigit(s[i]) && IsDigit(s[i + 1]) && IsDigit(s[i + 2]) && IsDigit(s[i + 3])
    ensures Pad4(Num4(s, i)) == s[i..i + 4]
  {
    var n := Num4(s, i);
    Pad4Digits(n);
    var a, b, c, d := DigitValue(s[i]), DigitValue(s[i + 1]), DigitValue(s[i + 2]), DigitValue(s[i + 3]);
    assert n == 1000 * a + 100 * b + 10 * c + d;
    assert n / 1000 == a;
    assert n / 100 == 10 * a + b;
    assert n / 10 == 100 * a + 10 * b + c;
  }

  /** Text that parses is exactly the formatting of what it parses to: the
      format is canonical, so no two texts denote the same date-time. */
  lemma {:induction false} FormatParse(s: string, sep: char)
    requires Parse(s, sep).Some?
    ensures Format(Parse(s, sep).value, sep) == s
  {
    var t := Parse(s, sep).value;
    Pad4Num4(s, 0);
    Pad2Num2(s, 5);
    Pad2Num2(s, 8);
    Pad2Num2(s, 11);
    Pad2Num2(s, 14);
    Pad2Num2(s, 17);
    assert s == s[0..4] + [s[4]] + s[5..7] + [s[7]] + s[8..10] + [s[10]]
              + s[11..13] + [s[13]] + s[14..16] + [s[16]] + s[17..19];
  }

  /** An integer key whose order is the date-time order, for sorting. */
  function Instant(t: DateTime): int {
    ((((t.year * 12 + t.month - 1) * 31 + t.day - 1) * 24 + t.hour) * 60 + t.minute) * 60 + t.second
  }

  /** On valid date-times, comparing `Instant`s is comparing the date-times. */
  lemma InstantOrder(a: DateTime, b: DateTime)
    requires Valid(a) && Valid(b)
    ensures Instant(a) < Instant(b) <==> Before(a, b)
    ensures Instant(a) == Instant(b) <==> a == b
  {
    var ra := ((a.month - 1) * 31 + a.day - 1) * 86400 + a.hour * 3600 + a.minute * 60 + a.second;
    var rb := ((b.month - 1) * 31 + b.day - 1) * 86400 + b.hour * 3600 + b.minute * 60 + b.second;
    assert Instant(a) == a.year * 32140800 + ra;
    assert Instant(b) == b.year * 32140800 + rb;
    assert 0 <= ra < 32140800 && 0 <= rb < 32140800;
    var da := (a.day - 1) * 86400 + a.hour * 3600 + a.minute * 60 + a.second;
    var db := (b.day - 1) * 86400 + b.hour * 3600 + b.minute * 60 + b.second;
    assert ra == (a.month - 1) * 2678400 + da && rb == (b.month - 1) * 2678400 + db;
    assert 0 <= da < 2678400 && 0 <= db < 2678400;
  }
}
