/** Backup file names: fixed-width timestamps whose string order is their order in time. */
module BackupNames {
  import opened StringOrder

  // ---- The name format ----

  const PREFIX := "reno-budget_"
  const SUFFIX := ".sql.gz"
  const TEMPLATE := "dddd-dd-dd-dddddd"
  const NAME_LENGTH := 36

  predicate IsDigit(c: char) {
    '0' <= c <= '9'
  }

  /** _BACKUP_RE */
  predicate IsBackup(name: string) {
    && |name| == NAME_LENGTH
    && name[..12] == PREFIX
    && name[29..] == SUFFIX
    && forall i :: 0 <= i < 17 ==> if TEMPLATE[i] == 'd' then IsDigit(name[12 + i]) else name[12 + i] == TEMPLATE[i]
  }

  /** The YYYY-MM group of a matching name. */
  function MonthOf(name: string): string
    requires IsBackup(name)
  {
    name[12..19]
  }

  datatype Stamp = Stamp(year: nat, month: nat, day: nat, hour: nat, minute: nat, second: nat) {
    /** Four-digit years and a calendar's field ranges. */
    predicate Valid() {
      1000 <= year <= 9999 && 1 <= month <= 12 && 1 <= day <= 31 && hour < 24 && minute < 60 && second < 60
    }

    predicate Before(t: Stamp) {
      || year < t.year
      || (year == t.year && (month < t.month || (month == t.month && (day < t.day || (day == t.day
         && (hour < t.hour || (hour == t.hour && (minute < t.minute || (minute == t.minute && second < t.second)))))))))
    }
  }

  function Digit(n: nat): char
    requires n < 10
  {
    '0' + n as char
  }

  function Two(n: nat): (s: string)
    requires n < 100
    ensures |s| == 2 && IsDigit(s[0]) && IsDigit(s[1])
  {
    [Digit(n / 10), Digit(n % 10)]
  }

  function Four(n: nat): (s: string)
    requires n < 10000
    ensures |s| == 4 && forall i :: 0 <= i < 4 ==> IsDigit(s[i])
  {
    Two(n / 100) + Two(n % 100)
  }

  /** _backup_filename */
  function FileName(t: Stamp): string
    requires t.Valid()
  {
    PREFIX + (Four(t.year) + ("-" + (Two(t.month) + ("-" + (Two(t.day) + ("-"
      + (Two(t.hour) + (Two(t.minute) + (Two(t.second) + SUFFIX)))))))))
  }

  lemma TwoOrder(m: nat, n: nat)
    requires m < 100 && n < 100
    ensures Less(Two(m), Two(n)) <==> m < n
    ensures Two(m) == Two(n) <==> m == n
  {
    assert Less(Two(m)[1..], Two(n)[1..]) <==> m % 10 < n % 10;
    assert Two(m)[0] == Two(n)[0] <==> m / 10 == n / 10;
    assert Two(m)[1] == Two(n)[1] <==> m % 10 == n % 10;
  }

  lemma FourOrder(m: nat, n: nat)
    requires m < 10000 && n < 10000
    ensures Less(Four(m), Four(n)) <==> m < n
    ensures Four(m) == Four(n) <==> m == n
  {
    TwoOrder(m / 100, n / 100);
    TwoOrder(m % 100, n % 100);
    LessConcat(Two(m / 100), Two(n / 100), Two(m % 100), Two(n % 100));
    assert Four(m)[..2] == Two(m / 100) && Four(n)[..2] == Two(n / 100);
    assert Four(m)[2..] == Two(m % 100) && Four(n)[2..] == Two(n % 100);
  }

  lemma AfterDash(a: string, b: string)
    ensures Less("-" + a, "-" + b) <==> Less(a, b)
  {
    LessConcat("-", "-", a, b);
    LessTotal("-", "-");
  }

  lemma AfterTwo(m: nat, n: nat, a: string, b: string)
    requires m < 100 && n < 100
    ensures Less(Two(m) + a, Two(n) + b) <==> m < n || (m == n && Less(a, b))
  {
    TwoOrder(m, n);
    LessConcat(Two(m), Two(n), a, b);
  }

  function TimePart(t: Stamp): string
    requires t.Valid()
  {
    Two(t.hour) + (Two(t.minute) + (Two(t.second) + SUFFIX))
  }

  lemma TimeOrder(s: Stamp, t: Stamp)
    requires s.Valid() && t.Valid()
    ensures Less(TimePart(s), TimePart(t)) <==>
      s.hour < t.hour || (s.hour == t.hour && (s.minute < t.minute || (s.minute == t.minute && s.second < t.second)))
  {
    LessTotal(SUFFIX, SUFFIX);
    AfterTwo(s.second, t.second, SUFFIX, SUFFIX);
    AfterTwo(s.minute, t.minute, Two(s.second) + SUFFIX, Two(t.second) + SUFFIX);
    AfterTwo(s.hour, t.hour, Two(s.minute) + (Two(s.second) + SUFFIX), Two(t.minute) + (Two(t.second) + SUFFIX));
  }

  function DayPart(t: Stamp): string
    requires t.Valid()
  {
    Two(t.day) + ("-" + TimePart(t))
  }

  /** The sort by name is a sort by time. */
  lemma NameOrderIsChronological(s: Stamp, t: Stamp)
    requires s.Valid() && t.Valid()
    ensures Less(FileName(s), FileName(t)) <==> s.Before(t)
  {
    TimeOrder(s, t);
    AfterDash(TimePart(s), TimePart(t));
    AfterTwo(s.day, t.day, "-" + TimePart(s), "-" + TimePart(t));
    AfterDash(DayPart(s), DayPart(t));
    AfterTwo(s.month, t.month, "-" + DayPart(s), "-" + DayPart(t));
    AfterDash(Two(s.month) + ("-" + DayPart(s)), Two(t.month) + ("-" + DayPart(t)));
    FourOrder(s.year, t.year);
    LessConcat(Four(s.year), Four(t.year), "-" + (Two(s.month) + ("-" + DayPart(s))), "-" + (Two(t.month) + ("-" + DayPart(t))));
    LessTotal(PREFIX, PREFIX);
    LessConcat(PREFIX, PREFIX, Four(s.year) + ("-" + (Two(s.month) + ("-" + DayPart(s)))),
                               Four(t.year) + ("-" + (Two(t.month) + ("-" + DayPart(t)))));
  }

  /** What the job writes it also recognises, and the month group is the stamp's month. */
  lemma FileNameParses(t: Stamp)
    requires t.Valid()
    ensures IsBackup(FileName(t))
    ensures MonthOf(FileName(t)) == Four(t.year) + "-" + Two(t.month)
  {
    var name := FileName(t);
    assert |PREFIX| == 12 && |SUFFIX| == 7;
    assert |name| == NAME_LENGTH;
    assert name[..12] == PREFIX;
    assert name[29..] == SUFFIX;
    assert name[12..16] == Four(t.year) && name[16] == '-';
    assert name[17..19] == Two(t.month) && name[19] == '-';
    assert name[20..22] == Two(t.day) && name[22] == '-';
    assert name[23..25] == Two(t.hour) && name[25..27] == Two(t.minute) && name[27..29] == Two(t.second);
    forall i | 0 <= i < 17
      ensures if TEMPLATE[i] == 'd' then IsDigit(name[12 + i]) else name[12 + i] == TEMPLATE[i]
    {
      if i < 4 { assert name[12 + i] == name[12..16][i]; }
      else if 5 <= i < 7 { assert name[12 + i] == name[17..19][i - 5]; }
      else if 8 <= i < 10 { assert name[12 + i] == name[20..22][i - 8]; }
      else if 11 <= i < 13 { assert name[12 + i] == name[23..25][i - 11]; }
      else if 13 <= i < 15 { assert name[12 + i] == name[25..27][i - 13]; }
      else if 15 <= i { assert name[12 + i] == name[27..29][i - 15]; }
    }
    assert name[12..19] == name[12..16] + [name[16]] + name[17..19];
  }

  /** An earlier name never carries a later month. */
  lemma MonthsFollowNames(a: string, b: string)
    requires IsBackup(a) && IsBackup(b) && Less(a, b)
    ensures MonthOf(a) == MonthOf(b) || Less(MonthOf(a), MonthOf(b))
  {
    LessSlice(a, b, 19);
    assert a[..19] == PREFIX + MonthOf(a) && b[..19] == PREFIX + MonthOf(b);
    LessTotal(PREFIX, PREFIX);
    LessConcat(PREFIX, PREFIX, MonthOf(a), MonthOf(b));
  }
}
