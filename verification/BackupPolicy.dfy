/** The retention policy in terms of the files of a directory, and the names it applies to. */
module BackupPolicy {
  import opened Backup
  import opened BackupNames
  import opened StringOrder

  /** The backups of the directory that are newer than `f`. */
  ghost function Newer(names: set<string>, f: string): set<string> {
    set g | g in names && IsBackup(g) && Less(f, g)
  }

  ghost function Months(backups: set<string>): set<string>
    requires forall g :: g in backups ==> IsBackup(g)
  {
    set g | g in backups :: MonthOf(g)
  }

  function Front(files: seq<string>, k: nat): set<string>
    requires k <= |files|
  {
    set i | 0 <= i < k :: files[i]
  }

  lemma {:induction false} FrontSize(files: seq<string>, k: nat)
    requires k <= |files| && Descending(files)
    ensures |Front(files, k)| == k
  {
    if k > 0 {
      FrontSize(files, k - 1);
      assert Front(files, k) == Front(files, k - 1) + {files[k - 1]};
      forall i | 0 <= i < k - 1 ensures files[i] != files[k - 1] {
        LessTotal(files[i], files[k - 1]);
        assert Less(files[k - 1], files[i]);
      }
    }
  }

  lemma {:induction false} FrontMonths(files: seq<string>, k: nat)
    requires k <= |files| && AllBackups(files)
    ensures forall g :: g in Front(files, k) ==> IsBackup(g)
    ensures Months(Front(files, k)) == MonthsIn(files, k)
  {
    if k > 0 {
      FrontMonths(files, k - 1);
      assert Front(files, k) == Front(files, k - 1) + {files[k - 1]};
    }
  }

  lemma PositionIsAge(files: seq<string>, i: nat, j: nat)
    requires Descending(files) && i < |files| && j < |files|
    ensures i < j <==> Less(files[j], files[i])
    ensures files[i] == files[j] <==> i == j
  {
    LessTotal(files[i], files[j]);
    if j < i { assert Less(files[i], files[j]); }
  }

  lemma NewerIsFront(names: set<string>, k: nat)
    requires k < |Listing(names)|
    ensures Newer(names, Listing(names)[k]) == Front(Listing(names), k)
  {
    var files := Listing(names);
    forall g
      ensures g in Newer(names, files[k]) <==> g in Front(files, k)
    {
      if g in Newer(names, files[k]) {
        assert g in files;
        var i :| 0 <= i < |files| && files[i] == g;
        PositionIsAge(files, i, k);
      }
      if i :| 0 <= i < k && files[i] == g {
        PositionIsAge(files, i, k);
        assert g in files;
      }
    }
  }

  lemma KeptAtPosition(files: seq<string>, daily: nat, monthly: nat, k: nat)
    requires AllBackups(files) && Descending(files) && k < |files|
    ensures files[k] in Walk(files, daily, monthly, Start) <==> Kept(files, daily, monthly, k)
  {
    WalkMeaning(files, daily, monthly, files[k]);
    forall i | 0 <= i < |files| && files[i] == files[k] ensures i == k {
      PositionIsAge(files, i, k);
    }
  }

  /** Exactly these files survive a pruning: foreign ones; the `daily` newest backups; and the newest backup of each
      of the `monthly` newest months that have any. */
  lemma SurvivesExactly(names: set<string>, daily: nat, monthly: nat, f: string)
    ensures f in Pruned(names, daily, monthly)
       <==> && f in names
            && (|| !IsBackup(f)
                || |Newer(names, f)| < daily
                || ((forall g :: g in Newer(names, f) ==> MonthOf(g) != MonthOf(f)) && |Months(Newer(names, f))| < monthly))
  {
    if f in names && IsBackup(f) {
      var files := Listing(names);
      assert f in files;
      var k :| 0 <= k < |files| && files[k] == f;
      NewerIsFront(names, k);
      FrontSize(files, k);
      FrontMonths(files, k);
      KeptAtPosition(files, daily, monthly, k);
      MonthsInMeaning(files, k);
    }
  }

  // ---- The names ----

  /** The fields fit their digits, whether or not a calendar has the stamp. */
  predicate Fits(t: Stamp) {
    t.year < 10000 && t.month < 100 && t.day < 100 && t.hour < 100 && t.minute < 100 && t.second < 100
  }

  function DigitName(t: Stamp): string
    requires Fits(t)
  {
    "reno-budget_" + Four(t.year) + "-" + Two(t.month) + "-" + Two(t.day) + "-"
    + Two(t.hour) + Two(t.minute) + Two(t.second) + ".sql.gz"
  }

  ghost predicate Printed(name: string) {
    exists t: Stamp :: Fits(t) && name == DigitName(t)
  }

  lemma DigitNameParses(t: Stamp)
    requires Fits(t)
    ensures IsBackup(DigitName(t))
  {
    var name := DigitName(t);
    assert |PREFIX| == 12 && |SUFFIX| == 7;
    assert name[..12] == PREFIX && name[29..] == SUFFIX;
    assert name[12..16] == Four(t.year) && name[16] == '-';
    assert name[17..19] == Two(t.month) && name[19] == '-';
    assert name[20..22] == Two(t.day) && name[22] == '-';
    assert name[23..25] == Two(t.hour) && name[25..27] == Two(t.minute) && name[27..29] == Two(t.second);
    assert name[12] == name[12..16][0] && name[13] == name[12..16][1] && name[14] == name[12..16][2] && name[15] == name[12..16][3];
    assert name[17] == name[17..19][0] && name[18] == name[17..19][1];
    assert name[20] == name[20..22][0] && name[21] == name[20..22][1];
    assert name[23] == name[23..25][0] && name[24] == name[23..25][1];
    assert name[25] == name[25..27][0] && name[26] == name[25..27][1];
    assert name[27] == name[27..29][0] && name[28] == name[27..29][1];
  }

  function Value(c: char): (n: nat)
    requires IsDigit(c)
    ensures n < 10 && Digit(n) == c
  {
    (c - '0') as nat
  }

  function TwoValue(s: string): (n: nat)
    requires |s| == 2 && IsDigit(s[0]) && IsDigit(s[1])
    ensures n < 100 && Two(n) == s
  {
    10 * Value(s[0]) + Value(s[1])
  }

  lemma FourValue(s: string) returns (n: nat)
    requires |s| == 4 && forall i :: 0 <= i < 4 ==> IsDigit(s[i])
    ensures n < 10000 && Four(n) == s
  {
    var hi, lo := TwoValue(s[..2]), TwoValue(s[2..]);
    n := 100 * hi + lo;
    assert n / 100 == hi && n % 100 == lo;
    assert s == s[..2] + s[2..];
  }

  lemma Parsed(name: string)
    requires IsBackup(name)
    ensures Printed(name)
  {
    Template(name);
    Reassemble(name);
    hide IsBackup;
    var y := FourValue(name[12..16]);
    var mo, d := TwoValue(name[17..19]), TwoValue(name[20..22]);
    var h, mi, s := TwoValue(name[23..25]), TwoValue(name[25..27]), TwoValue(name[27..29]);
    hide Four, Two;
    assert name == DigitName(Stamp(y, mo, d, h, mi, s));
  }

  lemma PrintedParses(name: string)
    requires Printed(name)
    ensures IsBackup(name)
  {
    hide IsBackup, DigitName;
    var t: Stamp :| Fits(t) && name == DigitName(t);
    DigitNameParses(t);
  }

  /** The files the policy applies to are exactly those named with fourteen digits in the job's own layout. */
  lemma BackupsAreDigitNames(name: string)
    ensures IsBackup(name) <==> Printed(name)
  {
    hide IsBackup, Printed;
    if Printed(name) { PrintedParses(name); }
    if IsBackup(name) { Parsed(name); }
  }

  lemma Template(name: string)
    requires IsBackup(name)
    ensures |name| == 36 && name[16] == '-' && name[19] == '-' && name[22] == '-'
    ensures forall i :: 12 <= i < 29 && i != 16 && i != 19 && i != 22 ==> IsDigit(name[i])
  {
    forall i | 12 <= i < 29 ensures if TEMPLATE[i - 12] == 'd' then IsDigit(name[i]) else name[i] == TEMPLATE[i - 12] {
      assert name[12 + (i - 12)] == name[i];
    }
  }

  lemma Reassemble(name: string)
    requires IsBackup(name)
    ensures |name| == 36
    ensures name == "reno-budget_" + name[12..16] + "-" + name[17..19] + "-" + name[20..22] + "-" + name[23..25]
                    + name[25..27] + name[27..29] + ".sql.gz"
  {
    Template(name);
    assert name[..12] == "reno-budget_" && name[29..] == ".sql.gz";
    hide IsBackup;
    assert name[16..17] == "-" && name[19..20] == "-" && name[22..23] == "-";
    Split(name, 12, 16);
    Split(name, 16, 17);
    Split(name, 17, 19);
    Split(name, 19, 20);
    Split(name, 20, 22);
    Split(name, 22, 23);
    Split(name, 23, 25);
    Split(name, 25, 27);
    Split(name, 27, 29);
    assert name == name[..29] + name[29..];
  }

  lemma Split(name: string, i: nat, j: nat)
    requires i <= j <= |name|
    ensures name[..j] == name[..i] + name[i..j]
  {
  }

  /** And for a calendar time the layout is that of the name the job writes. */
  lemma FileNameLayout(t: Stamp)
    requires t.Valid()
    ensures FileName(t) == DigitName(t)
  {
  }
}
