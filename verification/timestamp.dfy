/** The inverter's composite timestamp `dateHex,timeHex`: the date packs the
    year into three hex digits, the month into two and the day into the rest;
    the time is a hex count of seconds since midnight. */
module Timestamp {
  import opened Text
  import opened Hex
  import opened Arith

  datatype DateTime = DateTime(year: nat, month: nat, day: nat, hour: nat, minute: nat, second: nat)

  predicate IsLeapYear(y: nat) {
    y % 4 == 0 && (y % 100 != 0 || y % 400 == 0)
  }

  function DaysInMonth(y: nat, m: nat): (d: nat)
    requires 1 <= m <= 12
    ensures 28 <= d <= 31
  {
    if m == 2 then (if IsLeapYear(y) then 29 else 28)
    else if m == 4 || m == 6 || m == 9 || m == 11 then 30
    else 31
  }

  /** The values Python's `datetime(...)` constructor accepts; any other
      combination raises `ValueError`. */
  predicate Valid(d: DateTime) {
    && 1 <= d.year <= 9999
    && 1 <= d.month <= 12
    && 1 <= d.day <= DaysInMonth(d.year, d.month)
    && d.hour < 24 && d.minute < 60 && d.second < 60
  }

  function SecondsOfDay(d: DateTime): nat {
    d.hour * 3600 + d.minute * 60 + d.second
  }

  /** `date[:3]`, `date[3:5]` and `date[5:]`. */
  function YearDigits(date: string): string { Slice(date, 0, 3) }
  function MonthDigits(date: string): string { Slice(date, 3, 5) }
  function DayDigits(date: string): string { Slice(date, 5, |date|) }

  /** `_decodeDateTime`: `None` wherever the source raises (wrong number of
      commas, a part that is not hex, a value `datetime` rejects). */
  function DecodeDateTime(s: string): (r: Option<DateTime>)
    ensures r.Some? ==> Valid(r.value)
    ensures r.Some? ==>
      var parts := Split(s, ',');
      && |parts| == 2
      && ParseHex(YearDigits(parts[0])) == Some(r.value.year)
      && ParseHex(MonthDigits(parts[0])) == Some(r.value.month)
      && ParseHex(DayDigits(parts[0])) == Some(r.value.day)
      && ParseHex(parts[1]) == Some(SecondsOfDay(r.value))
    ensures
      var parts := Split(s, ',');
      |parts| == 2 ==>
        forall y, m, d, t ::
          && ParseHex(YearDigits(parts[0])) == Some(y)
          && ParseHex(MonthDigits(parts[0])) == Some(m)
          && ParseHex(DayDigits(parts[0])) == Some(d)
          && ParseHex(parts[1]) == Some(t)
          && t < 86400
          && Valid(DateTime(y, m, d, 0, 0, 0))
          ==> r.Some?
  {
    var parts := Split(s, ',');
    if |parts| != 2 then None
    else
      var date := parts[0];
      match (ParseHex(YearDigits(date)), ParseHex(MonthDigits(date)), ParseHex(DayDigits(date)), ParseHex(parts[1]))
      case (Some(year), Some(month), Some(day), Some(time)) =>
        var d := DateTime(year, month, day, time / 3600, (time % 3600) / 60, time % 60);
        assert SecondsOfDay(d) == time by { SplitSeconds(time); }
        if Valid(d) then Some(d) else None
      case _ => None
  }

  lemma SplitSeconds(t: nat)
    ensures (t / 3600) * 3600 + ((t % 3600) / 60) * 60 + t % 60 == t
    ensures (t % 3600) / 60 < 60
    ensures t < 86400 ==> t / 3600 < 24
  {
    var h, r := t / 3600, t % 3600;
    assert t == h * 3600 + r;
    var m, s := r / 60, r % 60;
    assert r == m * 60 + s;
    assert t % 60 == s by {
      assert t == (h * 60 + m) * 60 + s;
    }
  }

  /** The three date fields in hex as the inverter writes them: year in three
      digits, month and day in two. */
  function EncodeDate(d: DateTime): string
  {
    PadZeros(ToHex(d.year), 3) + PadZeros(ToHex(d.month), 2) + PadZeros(ToHex(d.day), 2)
  }

  /** A timestamp as the inverter sends it. */
  function EncodeDateTime(d: DateTime): string
  {
    EncodeDate(d) + "," + ToHex(SecondsOfDay(d))
  }

  /** Decoding inverts the inverter's encoding for every valid stamp whose
      year fits the three hex digits of the format. */
  lemma DecodeEncodeDateTime(d: DateTime)
    requires Valid(d) && d.year < 0x1000
    ensures DecodeDateTime(EncodeDateTime(d)) == Some(d)
  {
    assert Pow16(3) == 0x1000 && Pow16(2) == 0x100;
    FixedWidthHex(d.year, 3);
    FixedWidthHex(d.month, 2);
    FixedWidthHex(d.day, 2);
    var y, m, dd := PadZeros(ToHex(d.year), 3), PadZeros(ToHex(d.month), 2), PadZeros(ToHex(d.day), 2);
    DateDigits(y, m, dd);
    var date := y + m + dd;
    var t := ToHex(SecondsOfDay(d));
    assert ',' !in t by { assert AllHex(t); }
    SplitAt(date, ',', t);
    assert Split(t, ',') == [t];
    assert EncodeDateTime(d) == date + [','] + t;
    ParseToHex(SecondsOfDay(d));
    SecondsOfDayInverse(d);
  }

  /** Three fixed-width digit groups are cut apart again by the date slices. */
  lemma DateDigits(y: string, m: string, dd: string)
    requires |y| == 3 && |m| == 2 && AllHex(y) && AllHex(m) && AllHex(dd)
    ensures YearDigits(y + m + dd) == y
    ensures MonthDigits(y + m + dd) == m
    ensures DayDigits(y + m + dd) == dd
    ensures ',' !in y + m + dd
  {
    var date := y + m + dd;
    assert date[0..3] == y;
    assert date[3..5] == m;
    assert date[5..|date|] == dd;
    assert AllHex(date) by {
      forall i | 0 <= i < |date| ensures IsHexDigit(date[i]) {
        if i < 3 { assert date[i] == y[i]; }
        else if i < 5 { assert date[i] == m[i - 3]; }
        else { assert date[i] == dd[i - 5]; }
      }
    }
  }

  /** Splitting a valid time of day into hours, minutes and seconds recovers them. */
  lemma SecondsOfDayInverse(d: DateTime)
    requires d.minute < 60 && d.second < 60
    ensures SecondsOfDay(d) / 3600 == d.hour
    ensures (SecondsOfDay(d) % 3600) / 60 == d.minute
    ensures SecondsOfDay(d) % 60 == d.second
  {
    var t, r := SecondsOfDay(d), d.minute * 60 + d.second;
    DivUnique(t, 3600, d.hour, r);
    DivUnique(r, 60, d.minute, d.second);
    assert t == (d.hour * 60 + d.minute) * 60 + d.second;
    DivUnique(t, 60, d.hour * 60 + d.minute, d.second);
  }

  /** A number below `16^k` padded to `k` digits reads back as itself. */
  lemma FixedWidthHex(n: nat, k: nat)
    requires 1 <= k <= 3 && n < Pow16(k)
    ensures |PadZeros(ToHex(n), k)| == k
    ensures AllHex(PadZeros(ToHex(n), k))
    ensures ParseHex(PadZeros(ToHex(n), k)) == Some(n)
  {
    ToHexWidth(n, k);
    ValueOfToHex(n);
    ValueOfPadZeros(ToHex(n), k);
  }

  predicate IsDigit(c: char) {
    '0' <= c <= '9'
  }

  predicate Digits(t: string) {
    forall i :: 0 <= i < |t| ==> IsDigit(t[i])
  }

  function Digit(c: char): nat
    requires IsDigit(c)
  {
    c as int - '0' as int
  }

  /** The value of two decimal digits. */
  function Read2(t: string): nat
    requires |t| == 2 && Digits(t)
  {
    Digit(t[0]) * 10 + Digit(t[1])
  }

  /** The value of four decimal digits. */
  function Read4(t: string): nat
    requires |t| == 4 && Digits(t)
  {
    Read2(t[..2]) * 100 + Read2(t[2..])
  }

  /** Two decimal digits, zero-padded (`%m`, `%d`, `%H`, `%M`, `%S`). */
  function Dec2(n: nat): (s: string)
    requires n < 100
    ensures |s| == 2 && Digits(s) && Read2(s) == n
  {
    [('0' as int + n / 10) as char, ('0' as int + n % 10) as char]
  }

  /** Four decimal digits, zero-padded (`%Y`). */
  function Dec4(n: nat): (s: string)
    requires n < 10000
    ensures |s| == 4 && Digits(s) && Read4(s) == n
  {
    var s := Dec2(n / 100) + Dec2(n % 100);
    assert s[..2] == Dec2(n / 100) && s[2..] == Dec2(n % 100);
    s
  }

  /** `strftime("%m/%d/%Y, %H:%M:%S")`. */
  function FormatDateTime(d: DateTime): (s: string)
    requires Valid(d)
    ensures |s| == 20
  {
    Dec2(d.month) + "/" + Dec2(d.day) + "/" + Dec4(d.year) + ", "
      + Dec2(d.hour) + ":" + Dec2(d.minute) + ":" + Dec2(d.second)
  }

  /** Reads the `%m/%d/%Y, %H:%M:%S` layout back: two-digit month, day, hour,
      minute and second and a four-digit year at fixed places, between the
      fixed separators. Anything else is not in the layout. */
  function ReadDateTime(s: string): (d: Option<DateTime>)
  {
    if && |s| == 20
       && s[2] == '/' && s[5] == '/' && s[10] == ',' && s[11] == ' ' && s[14] == ':' && s[17] == ':'
       && Digits(s[0..2]) && Digits(s[3..5]) && Digits(s[6..10])
       && Digits(s[12..14]) && Digits(s[15..17]) && Digits(s[18..20])
    then
      Some(DateTime(Read4(s[6..10]), Read2(s[0..2]), Read2(s[3..5]),
        Read2(s[12..14]), Read2(s[15..17]), Read2(s[18..20])))
    else None
  }

  /** The rendered form reads back as the moment it came from. */
  lemma ReadFormatted(d: DateTime)
    requires Valid(d)
    ensures ReadDateTime(FormatDateTime(d)) == Some(d)
  {
    var s := FormatDateTime(d);
    var month, day, year := Dec2(d.month), Dec2(d.day), Dec4(d.year);
    var hour, minute, second := Dec2(d.hour), Dec2(d.minute), Dec2(d.second);
    assert s == month + "/" + day + "/" + year + ", " + hour + ":" + minute + ":" + second;
    assert s[0..2] == month && s[3..5] == day && s[6..10] == year;
    assert s[12..14] == hour && s[15..17] == minute && s[18..20] == second;
  }

  /** Distinct moments render differently. */
  lemma FormatDateTimeInjective(a: DateTime, b: DateTime)
    requires Valid(a) && Valid(b) && a != b
    ensures FormatDateTime(a) != FormatDateTime(b)
  {
    ReadFormatted(a);
    ReadFormatted(b);
  }

  /** The inverter's stamp `7E60305,7F28` is 5 March 2022, 09:02:32. */
  lemma DecodeDateTimeExample()
    ensures DecodeDateTime("7E60305,7F28") == Some(DateTime(2022, 3, 5, 9, 2, 32))
  {
    var d := DateTime(2022, 3, 5, 9, 2, 32);
    ExampleDigits();
    assert PadZeros("3", 2) == "03";
    assert PadZeros("5", 2) == "05";
    assert EncodeDateTime(d) == "7E60305,7F28";
    DecodeEncodeDateTime(d);
  }

  lemma ExampleDigits()
    ensures ToHex(2022) == "7E6" && ToHex(32552) == "7F28"
  {
    assert ToHex(126) == "7E";
    assert ToHex(127) == "7F";
    assert ToHex(2034) == "7F2";
  }

  /** The decoded example renders as the source's date format shows it. */
  lemma FormatDateTimeExample()
    ensures FormatDateTime(DateTime(2022, 3, 5, 9, 2, 32)) == "03/05/2022, 09:02:32"
  {
  }
}
