/** Recording times (ECMA-167 part 1, section 7.3) as text, and the order of that text. */
module Timestamps {
  import opened Bytes

  /** The fields a readable timestamp has; the time of day is not range-checked. */
  datatype Stamp = Stamp(year: nat, month: byte, day: byte, hour: byte, minute: byte, second: byte)

  predicate InRange(t: Stamp) {
    1970 <= t.year <= 2200 && 1 <= t.month <= 12 && 1 <= t.day <= 31
  }

  function Signed16(v: U16): int {
    if v < 0x8000 then v else v - 0x1_0000
  }

  function StampOf(b: seq<byte>): Option<Stamp> {
    if |b| < 12 then None
    else
      var year := Signed16(Le16(b, 2));
      if !(1970 <= year <= 2200) || !(1 <= b[4] <= 12) || !(1 <= b[5] <= 31) then None
      else Some(Stamp(year, b[4], b[5], b[6], b[7], b[8]))
  }

  function Digit(n: nat): char
    requires n < 10
  {
    '0' + n as char
  }

  /** At least two digits; a byte of 100 or more takes three. */
  function Two(n: byte): string {
    if n < 100 then [Digit(n / 10), Digit(n % 10)] else [Digit(n / 100), Digit(n / 10 % 10), Digit(n % 10)]
  }

  function Four(n: nat): string
    requires n < 10000
  {
    [Digit(n / 1000), Digit(n / 100 % 10), Digit(n / 10 % 10), Digit(n % 10)]
  }

  /** The date, and the time of day behind it. */
  function Dated(a: Stamp, time: string): string
    requires InRange(a)
  {
    Four(a.year) + ("-" + (Two(a.month) + ("-" + (Two(a.day) + (" " + time)))))
  }

  /** YYYY-MM-DD HH:MM:SS */
  function Text(t: Stamp): string
    requires InRange(t)
  {
    Dated(t, Two(t.hour) + (":" + (Two(t.minute) + (":" + Two(t.second)))))
  }

  function DecodeTimestamp(b: seq<byte>): Option<string> {
    match StampOf(b)
    case None => None
    case Some(t) => Some(Text(t))
  }

  /** The order of strings. */
  predicate Before(s: string, t: string) {
    t != "" && (s == "" || s[0] < t[0] || (s[0] == t[0] && Before(s[1..], t[1..])))
  }

  /** Neither the time zone in front nor the fractions behind have any part in the text. */
  lemma ZoneAndFractionIgnored(b: seq<byte>, c: seq<byte>)
    requires |b| == |c| && |b| >= 12 && b[2..9] == c[2..9]
    ensures DecodeTimestamp(b) == DecodeTimestamp(c)
  {
    assert b[4] == b[2..9][2] && c[4] == c[2..9][2] && b[5] == b[2..9][3] && c[5] == c[2..9][3];
    assert b[6] == b[2..9][4] && c[6] == c[2..9][4] && b[7] == b[2..9][5] && c[7] == c[2..9][5];
    assert b[8] == b[2..9][6] && c[8] == c[2..9][6];
    SameFields(b, 2, c, 2, 7, 0);
  }

  // ----- text order and time order -----

  predicate Earlier(a: Stamp, b: Stamp) {
    || a.year < b.year
    || (a.year == b.year && (a.month < b.month
    || (a.month == b.month && (a.day < b.day
    || (a.day == b.day && (a.hour < b.hour
    || (a.hour == b.hour && (a.minute < b.minute
    || (a.minute == b.minute && a.second < b.second)))))))))
  }

  /** Of two different fields the smaller sorts first: not when it has two digits no less than the other's first two. */
  predicate FieldSorts(x: byte, y: byte) {
    var less, more := Min(x, y), Max(x, y);
    less < 100 <= more ==> less < more / 10
  }

  /** At the end of the text the shorter of two equal beginnings sorts first. */
  predicate LastSorts(x: byte, y: byte) {
    var less, more := Min(x, y), Max(x, y);
    less < 100 <= more ==> less <= more / 10
  }

  predicate SameDate(a: Stamp, b: Stamp) {
    a.year == b.year && a.month == b.month && a.day == b.day
  }

  /** The first field of the time of day that differs has the digits to decide. */
  predicate SortsByTime(a: Stamp, b: Stamp) {
    SameDate(a, b) ==>
      if a.hour != b.hour then FieldSorts(a.hour, b.hour)
      else if a.minute != b.minute then FieldSorts(a.minute, b.minute)
      else a.second != b.second ==> LastSorts(a.second, b.second)
  }

  /** Fields of equal width are compared one after the other. */
  lemma {:induction false} BeforeConcat(a: string, b: string, s: string, t: string)
    requires |a| == |b|
    ensures Before(a + s, b + t) <==> Before(a, b) || (a == b && Before(s, t))
  {
    if a == "" {
      assert a + s == s && b + t == t;
    } else {
      assert (a + s)[1..] == a[1..] + s && (b + t)[1..] == b[1..] + t;
      BeforeConcat(a[1..], b[1..], s, t);
      assert a == [a[0]] + a[1..] && b == [b[0]] + b[1..];
    }
  }

  lemma BeforeSeparator(c: char, s: string, t: string)
    ensures Before([c] + s, [c] + t) <==> Before(s, t)
  {
    assert ([c] + s)[1..] == s && ([c] + t)[1..] == t;
  }

  lemma OneOrder(c: char, d: char)
    ensures Before([c], [d]) <==> c < d
  {
    assert [c][1..] == "" && [d][1..] == "";
  }

  lemma DigitOrder(a: nat, b: nat)
    requires a < 10 && b < 10
    ensures Digit(a) < Digit(b) <==> a < b
    ensures Digit(a) == Digit(b) <==> a == b
  {
  }

  lemma TwoOrder(a: byte, b: byte)
    requires a < 100 && b < 100
    ensures |Two(a)| == |Two(b)| == 2
    ensures Before(Two(a), Two(b)) <==> a < b
    ensures Two(a) == Two(b) <==> a == b
  {
    var s, t := Two(a), Two(b);
    DigitOrder(a / 10, b / 10);
    DigitOrder(a % 10, b % 10);
    assert s == [s[0]] + [s[1]] && t == [t[0]] + [t[1]];
    BeforeConcat([s[0]], [t[0]], [s[1]], [t[1]]);
    OneOrder(s[0], t[0]);
    OneOrder(s[1], t[1]);
  }

  lemma Digits(n: nat, q: nat, r: nat)
    requires n == 100 * q + r && r < 100
    ensures n / 1000 == q / 10 && n / 100 == q && n / 10 % 10 == r / 10 && n % 10 == r % 10
  {
    var tens, ones := r / 10, r % 10;
    assert n == 10 * (10 * q + tens) + ones;
    assert n / 10 == 10 * q + tens && n % 10 == ones;
    assert q == 10 * (q / 10) + q % 10;
    assert n == 1000 * (q / 10) + (100 * (q % 10) + r);
  }

  lemma FourIsTwoTwos(n: nat)
    requires n < 10000
    ensures Four(n) == Two(n / 100) + Two(n % 100)
  {
    var q, r := n / 100, n % 100;
    Digits(n, q, r);
    assert Four(n) == [Digit(q / 10), Digit(q % 10), Digit(r / 10), Digit(r % 10)];
  }

  lemma FourOrder(a: nat, b: nat)
    requires a < 10000 && b < 10000
    ensures Before(Four(a), Four(b)) <==> a < b
    ensures Four(a) == Four(b) <==> a == b
  {
    FourIsTwoTwos(a);
    FourIsTwoTwos(b);
    BeforeConcat(Two(a / 100), Two(b / 100), Two(a % 100), Two(b % 100));
    TwoOrder(a / 100, b / 100);
    TwoOrder(a % 100, b % 100);
    if Four(a) == Four(b) {
      assert Two(a / 100) == Four(a)[..2] && Two(a % 100) == Four(a)[2..];
      assert Two(b / 100) == Four(b)[..2] && Two(b % 100) == Four(b)[2..];
    }
  }

  /** One two-digit field, a separator, and the rest. */
  lemma FieldOrder(a: byte, b: byte, c: char, s: string, t: string)
    requires a < 100 && b < 100
    ensures Before(Two(a) + ([c] + s), Two(b) + ([c] + t)) <==> a < b || (a == b && Before(s, t))
  {
    TwoOrder(a, b);
    BeforeConcat(Two(a), Two(b), [c] + s, [c] + t);
    BeforeSeparator(c, s, t);
  }

  // ----- fields of two or three digits -----

  lemma ThreeDigits(a: byte)
    requires a >= 100
    ensures Two(a) == Two(a / 10) + [Digit(a % 10)] && |Two(a)| == 3
  {
  }

  lemma ThreeOrder(a: byte, b: byte)
    requires a >= 100 && b >= 100
    ensures Before(Two(a), Two(b)) <==> a < b
    ensures Two(a) == Two(b) <==> a == b
  {
    ThreeDigits(a);
    ThreeDigits(b);
    TwoOrder(a / 10, b / 10);
    OneOrder(Digit(a % 10), Digit(b % 10));
    DigitOrder(a % 10, b % 10);
    BeforeConcat(Two(a / 10), Two(b / 10), [Digit(a % 10)], [Digit(b % 10)]);
    if Two(a) == Two(b) {
      assert Two(a / 10) == Two(a)[..2] && Two(b / 10) == Two(b)[..2];
      assert Two(a)[2] == Digit(a % 10) && Two(b)[2] == Digit(b % 10);
    }
  }

  /** A field of two digits against one of three, with what follows each. */
  lemma MixedOrder(a: byte, b: byte, s: string, t: string)
    requires a < 100 <= b
    ensures Before(Two(a) + s, Two(b) + t) <==> a < b / 10 || (a == b / 10 && Before(s, [Digit(b % 10)] + t))
    ensures Before(Two(b) + t, Two(a) + s) <==> b / 10 < a || (a == b / 10 && Before([Digit(b % 10)] + t, s))
  {
    ThreeDigits(b);
    TwoOrder(a, b / 10);
    TwoOrder(b / 10, a);
    assert Two(b) + t == Two(b / 10) + ([Digit(b % 10)] + t);
    BeforeConcat(Two(a), Two(b / 10), s, [Digit(b % 10)] + t);
    BeforeConcat(Two(b / 10), Two(a), [Digit(b % 10)] + t, s);
  }

  lemma SameWidth(a: byte, b: byte, s: string, t: string)
    requires a < 100 <==> b < 100
    ensures Before(Two(a) + s, Two(b) + t) <==> a < b || (a == b && Before(s, t))
  {
    if a < 100 {
      TwoOrder(a, b);
    } else {
      ThreeOrder(a, b);
      ThreeDigits(a);
      ThreeDigits(b);
    }
    BeforeConcat(Two(a), Two(b), s, t);
  }

  /** An hour or a minute, with the colon and the rest behind it. */
  lemma TimeField(a: byte, b: byte, s: string, t: string)
    ensures var first := Before(Two(a) + (":" + s), Two(b) + (":" + t));
      if a == b then first <==> Before(s, t) else first <==> (FieldSorts(a, b) <==> a < b)
  {
    if (a < 100) == (b < 100) {
      SameWidth(a, b, ":" + s, ":" + t);
      BeforeSeparator(':', s, t);
    } else if a < b {
      MixedOrder(a, b, ":" + s, ":" + t);
      assert (":" + s)[0] == ':' && ([Digit(b % 10)] + (":" + t))[0] == Digit(b % 10) < ':';
    } else {
      MixedOrder(b, a, ":" + t, ":" + s);
      assert (":" + t)[0] == ':' && ([Digit(a % 10)] + (":" + s))[0] == Digit(a % 10) < ':';
    }
  }

  lemma LastField(a: byte, b: byte)
    ensures a == b ==> !Before(Two(a), Two(b))
    ensures a != b ==> (Before(Two(a), Two(b)) <==> (LastSorts(a, b) <==> a < b))
  {
    assert Two(a) + "" == Two(a) && Two(b) + "" == Two(b);
    if (a < 100) == (b < 100) {
      SameWidth(a, b, "", "");
    } else if a < b {
      MixedOrder(a, b, "", "");
    } else {
      MixedOrder(b, a, "", "");
    }
  }

  /** The date decides unless it is the same; then the time of day does. */
  lemma DateFirst(a: Stamp, b: Stamp, s: string, t: string)
    requires InRange(a) && InRange(b)
    ensures Before(Dated(a, s), Dated(b, t)) <==>
      if SameDate(a, b) then Before(s, t)
      else a.year < b.year || (a.year == b.year && (a.month < b.month || (a.month == b.month && a.day < b.day)))
  {
    var a2, b2 := Two(a.day) + (" " + s), Two(b.day) + (" " + t);
    var a1, b1 := Two(a.month) + ("-" + a2), Two(b.month) + ("-" + b2);
    FieldOrder(a.day, b.day, ' ', s, t);
    FieldOrder(a.month, b.month, '-', a2, b2);
    FourOrder(a.year, b.year);
    BeforeConcat(Four(a.year), Four(b.year), "-" + a1, "-" + b1);
    BeforeSeparator('-', a1, b1);
  }

  /** The order of two texts is the order of the times exactly when the digits of the time of day allow it. */
  lemma TextOrderIsTimeOrder(a: Stamp, b: Stamp)
    requires InRange(a) && InRange(b)
    ensures (Before(Text(a), Text(b)) <==> Earlier(a, b)) <==> SortsByTime(a, b)
  {
    var a5, b5 := Two(a.second), Two(b.second);
    var a4, b4 := Two(a.minute) + (":" + a5), Two(b.minute) + (":" + b5);
    var a3, b3 := Two(a.hour) + (":" + a4), Two(b.hour) + (":" + b4);
    LastField(a.second, b.second);
    TimeField(a.minute, b.minute, a5, b5);
    TimeField(a.hour, b.hour, a4, b4);
    DateFirst(a, b, a3, b3);
  }

  /** So it is for real times of day, and whenever the dates differ. */
  lemma RealTimesSort(a: Stamp, b: Stamp)
    requires InRange(a) && InRange(b)
    requires !SameDate(a, b) || (a.hour < 24 && a.minute < 60 && a.second < 60 && b.hour < 24 && b.minute < 60 &&
      b.second < 60)
    ensures Before(Text(a), Text(b)) <==> Earlier(a, b)
  {
    TextOrderIsTimeOrder(a, b);
  }

  /** An hour byte of 100 sorts before hour 20. */
  lemma ThreeDigitHourMisordered()
    ensures var a, b := Stamp(2000, 1, 1, 20, 0, 0), Stamp(2000, 1, 1, 100, 0, 0);
      Earlier(a, b) && !Before(Text(a), Text(b))
  {
    TextOrderIsTimeOrder(Stamp(2000, 1, 1, 20, 0, 0), Stamp(2000, 1, 1, 100, 0, 0));
  }

  // ----- the recorded fields and their digits -----

  /** Zone, year, month, day, hour, minute, second, and the fractions behind. */
  function EncodeStamp(zone: U16, year: U16, t: Stamp, fractions: seq<byte>): seq<byte> {
    Put16(zone) + Put16(year) + [t.month, t.day, t.hour, t.minute, t.second] + fractions
  }

  /** Every field is read back, or none when the date is out of range. */
  lemma StampOfEncoded(zone: U16, year: U16, t: Stamp, fractions: seq<byte>)
    requires |fractions| >= 3
    ensures StampOf(EncodeStamp(zone, year, t, fractions)) ==
      if 1970 <= year <= 2200 && 1 <= t.month <= 12 && 1 <= t.day <= 31 then Some(t.(year := year)) else None
  {
    var b := EncodeStamp(zone, year, t, fractions);
    assert b[2] == Put16(year)[0] && b[3] == Put16(year)[1];
    SameFields(b, 2, Put16(year), 0, 2, 0);
    assert b[4] == t.month && b[5] == t.day && b[6] == t.hour && b[7] == t.minute && b[8] == t.second;
  }

  /** Fewer than twelve bytes hold no time. */
  lemma TooShort(b: seq<byte>)
    requires |b| < 12
    ensures DecodeTimestamp(b) == None
  {
  }

  predicate AreDigits(s: string) {
    forall i :: 0 <= i < |s| ==> '0' <= s[i] <= '9'
  }

  /** The number a string of digits denotes. */
  function NumberOf(s: string): int {
    if s == "" then 0 else 10 * NumberOf(s[..|s| - 1]) + (s[|s| - 1] as int - '0' as int)
  }

  /** `s` is `n` in decimal, with leading zeros up to this width and no others. */
  predicate IsDecimal(s: string, width: nat, n: nat) {
    AreDigits(s) && NumberOf(s) == n && |s| >= width && (|s| > width ==> s[0] != '0')
  }

  lemma NumberOfMore(s: string, n: nat)
    requires n < 10
    ensures NumberOf(s + [Digit(n)]) == 10 * NumberOf(s) + n
  {
    assert (s + [Digit(n)])[..|s|] == s;
  }

  lemma TwoDigitsAre(n: byte)
    requires n < 100
    ensures IsDecimal(Two(n), 2, n)
  {
    var tens, ones := Digit(n / 10), Digit(n % 10);
    NumberOfMore("", n / 10);
    NumberOfMore([tens], n % 10);
    assert "" + [tens] == [tens] && [tens] + [ones] == [tens, ones];
  }

  lemma TwoIsDecimal(n: byte)
    ensures IsDecimal(Two(n), 2, n)
  {
    if n < 100 {
      TwoDigitsAre(n);
    } else {
      ThreeDigits(n);
      TwoDigitsAre(n / 10);
      NumberOfMore(Two(n / 10), n % 10);
    }
  }

  lemma FourIsDecimal(n: nat)
    requires n < 10000
    ensures IsDecimal(Four(n), 4, n)
  {
    var q, r := n / 100, n % 100;
    FourIsTwoTwos(n);
    TwoDigitsAre(q);
    NumberOfMore(Two(q), r / 10);
    NumberOfMore(Two(q) + [Digit(r / 10)], r % 10);
    assert Two(q) + [Digit(r / 10)] + [Digit(r % 10)] == Two(q) + Two(r);
  }

  /** YYYY-MM-DD */
  predicate IsDate(s: string, year: nat, month: byte, day: byte) {
    && |s| == 10 && IsDecimal(s[..4], 4, year) && s[4] == '-' && IsDecimal(s[5..7], 2, month) && s[7] == '-'
    && IsDecimal(s[8..10], 2, day)
  }

  /** HH:MM:SS, each of two digits or more. */
  ghost predicate IsTimeOfDay(s: string, hour: byte, minute: byte, second: byte) {
    exists h, m, c ::
      IsDecimal(h, 2, hour) && IsDecimal(m, 2, minute) && IsDecimal(c, 2, second) && s == h + ":" + m + ":" + c
  }

  lemma DateIs(y: string, m: string, d: string, year: nat, month: byte, day: byte)
    requires |y| == 4 && |m| == 2 && |d| == 2
    requires IsDecimal(y, 4, year) && IsDecimal(m, 2, month) && IsDecimal(d, 2, day)
    ensures IsDate(y + "-" + m + "-" + d, year, month, day)
  {
    var s := y + "-" + m + "-" + d;
    assert s[..4] == y && s[5..7] == m && s[8..10] == d;
  }

  lemma TimeOfDayIs(h: string, m: string, c: string, hour: byte, minute: byte, second: byte)
    requires IsDecimal(h, 2, hour) && IsDecimal(m, 2, minute) && IsDecimal(c, 2, second)
    ensures IsTimeOfDay(h + ":" + m + ":" + c, hour, minute, second)
  {
  }

  lemma Joints(y: string, m: string, d: string, time: string)
    ensures y + ("-" + (m + ("-" + (d + (" " + time))))) == y + "-" + m + "-" + d + " " + time
  {
  }

  lemma Split(date: string, time: string)
    requires |date| == 10
    ensures var s := date + " " + time;
      s[..10] == date && s[10] == ' ' && s[11..] == time
  {
  }

  lemma TimeJoints(h: string, m: string, c: string)
    ensures h + (":" + (m + (":" + c))) == h + ":" + m + ":" + c
  {
  }

  lemma TextPieces(t: Stamp)
    requires InRange(t)
    ensures var date := Four(t.year) + "-" + Two(t.month) + "-" + Two(t.day);
      var time := Two(t.hour) + ":" + Two(t.minute) + ":" + Two(t.second);
      Text(t) == date + " " + time
  {
    TimeJoints(Two(t.hour), Two(t.minute), Two(t.second));
    Joints(Four(t.year), Two(t.month), Two(t.day), Two(t.hour) + ":" + Two(t.minute) + ":" + Two(t.second));
  }

  /** A readable time is written as its date, a space and its time of day, each field in decimal. */
  ghost predicate IsWritten(s: string, t: Stamp) {
    && |s| >= 11 && IsDate(s[..10], t.year, t.month, t.day) && s[10] == ' '
    && IsTimeOfDay(s[11..], t.hour, t.minute, t.second)
  }

  lemma TextIs(t: Stamp)
    requires InRange(t)
    ensures IsWritten(Text(t), t)
  {
    var y, mo, d, h, m, c := Four(t.year), Two(t.month), Two(t.day), Two(t.hour), Two(t.minute), Two(t.second);
    TwoOrder(t.month, t.day);
    FourIsDecimal(t.year);
    TwoIsDecimal(t.month);
    TwoIsDecimal(t.day);
    TwoIsDecimal(t.hour);
    TwoIsDecimal(t.minute);
    TwoIsDecimal(t.second);
    DateIs(y, mo, d, t.year, t.month, t.day);
    TimeOfDayIs(h, m, c, t.hour, t.minute, t.second);
    TextPieces(t);
    Split(y + "-" + mo + "-" + d, h + ":" + m + ":" + c);
  }

  /** A recorded time is read exactly when its date is in range, and then as its own fields. */
  lemma DecodeReadsFields(zone: U16, year: U16, t: Stamp, fractions: seq<byte>)
    requires |fractions| >= 3
    ensures var r := DecodeTimestamp(EncodeStamp(zone, year, t, fractions));
      && (r.Some? <==> 1970 <= year <= 2200 && 1 <= t.month <= 12 && 1 <= t.day <= 31)
      && (r.Some? ==> IsWritten(r.value, t.(year := year)))
  {
    StampOfEncoded(zone, year, t, fractions);
    if 1970 <= year <= 2200 && 1 <= t.month <= 12 && 1 <= t.day <= 31 {
      TextIs(t.(year := year));
    }
  }
}
