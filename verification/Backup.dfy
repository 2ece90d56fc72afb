/** Backup retention: the daily window plus the newest file of each month, applied after every dump. */
module Backup {
  import opened BackupNames
  import opened StringOrder

  /** Newest first, without repetition. */
  predicate Descending(files: seq<string>) {
    forall i, j :: 0 <= i < j < |files| ==> Less(files[j], files[i])
  }

  predicate AllBackups(files: seq<string>) {
    forall i :: 0 <= i < |files| ==> IsBackup(files[i])
  }

  // ---- The policy, by position ----

  /** The months found among the first `n` files. */
  function MonthsIn(files: seq<string>, n: nat): set<string>
    requires n <= |files| && AllBackups(files)
  {
    if n == 0 then {} else MonthsIn(files, n - 1) + {MonthOf(files[n - 1])}
  }

  /** Kept: among the `daily` newest, or the newest of its month with fewer than `monthly` newer months. */
  predicate Kept(files: seq<string>, daily: nat, monthly: nat, i: nat)
    requires i < |files| && AllBackups(files)
  {
    || i < daily
    || (FirstOfMonth(files, i) && |MonthsIn(files, i)| < monthly)
  }

  ghost predicate IsKept(files: seq<string>, daily: nat, monthly: nat, f: string)
    requires AllBackups(files)
  {
    exists i :: 0 <= i < |files| && files[i] == f && Kept(files, daily, monthly, i)
  }

  /** The kept files, in order, from position `k` on. */
  function KeptFrom(files: seq<string>, daily: nat, monthly: nat, k: nat): seq<string>
    requires k <= |files| && AllBackups(files)
    decreases |files| - k
  {
    if k == |files| then []
    else if Kept(files, daily, monthly, k) then [files[k]] + KeptFrom(files, daily, monthly, k + 1)
    else KeptFrom(files, daily, monthly, k + 1)
  }

  lemma {:induction false} KeptFromMeaning(files: seq<string>, daily: nat, monthly: nat, k: nat, f: string)
    requires k <= |files| && AllBackups(files)
    ensures f in KeptFrom(files, daily, monthly, k)
       <==> exists i :: k <= i < |files| && files[i] == f && Kept(files, daily, monthly, i)
    decreases |files| - k
  {
    if k < |files| {
      KeptFromMeaning(files, daily, monthly, k + 1, f);
    }
  }

  /** The file at `j`, if it is the first of its month, sits in `seenMonths` behind the newer months. */
  predicate Indexed(files: seq<string>, seenMonths: seq<(string, string)>, j: nat)
    requires j < |files| && AllBackups(files)
  {
    FirstOfMonth(files, j) ==>
      |MonthsIn(files, j)| < |seenMonths| && seenMonths[|MonthsIn(files, j)|].1 == files[j]
  }

  lemma RecordedStays(files: seq<string>, n: nat, k: nat, f: string)
    requires n < |files| && AllBackups(files) && Recorded(files, n, k, f)
    ensures Recorded(files, n + 1, k, f)
  {
    var j :| 0 <= j < n && files[j] == f && FirstOfMonth(files, j) && |MonthsIn(files, j)| == k;
  }

  /** The default-dict pass: the first file seen of every month, in insertion order. */
  method FirstPerMonth(files: seq<string>) returns (seenMonths: seq<(string, string)>)
    requires AllBackups(files)
    ensures forall k :: 0 <= k < |seenMonths| ==> Recorded(files, |files|, k, seenMonths[k].1)
    ensures forall j :: 0 <= j < |files| ==> Indexed(files, seenMonths, j)
  {
    hide IsBackup, MonthOf;
    seenMonths := [];
    var months: set<string> := {};
    for i := 0 to |files|
      invariant months == MonthsIn(files, i) && |seenMonths| == |months|
      invariant forall k :: 0 <= k < |seenMonths| ==> Recorded(files, i, k, seenMonths[k].1)
      invariant forall j :: 0 <= j < i ==> Indexed(files, seenMonths, j)
    {
      var month := MonthOf(files[i]);
      ghost var before := seenMonths;
      if month !in months {
        assert FirstOfMonth(files, i) && Recorded(files, i + 1, |months|, files[i]);
        seenMonths := seenMonths + [(month, files[i])];
        months := months + {month};
      }
      assert |months| == |seenMonths| && months == MonthsIn(files, i + 1);
      hide *;
      forall k | 0 <= k < |before|
        ensures Recorded(files, i + 1, k, seenMonths[k].1)
      {
        RecordedStays(files, i, k, before[k].1);
      }
      forall j | 0 <= j < i
        ensures Indexed(files, seenMonths, j)
      {
        IndexedStays(files, before, seenMonths, j);
      }
    }
  }

  lemma IndexedStays(files: seq<string>, before: seq<(string, string)>, after: seq<(string, string)>, j: nat)
    requires j < |files| && AllBackups(files) && before <= after && Indexed(files, before, j)
    ensures Indexed(files, after, j)
  {
  }

  /** _select_keepers */
  method SelectKeepers(files: seq<string>, daily: nat, monthly: nat) returns (keep: set<string>)
    requires AllBackups(files)
    ensures forall f :: f in keep <==> IsKept(files, daily, monthly, f)
  {
    hide IsBackup, MonthOf, IsKept, Recorded, FirstOfMonth, MonthsIn;
    keep := {};
    var window := if daily <= |files| then daily else |files|;
    for i := 0 to window
      invariant forall f :: f in keep <==> AmongFirst(files, i, f)
    {
      keep := keep + {files[i]};
    }
    var seenMonths := FirstPerMonth(files);
    var top := if monthly <= |seenMonths| then monthly else |seenMonths|;
    ghost var recent := keep;
    for k := 0 to top
      invariant forall f :: f in keep <==> f in recent || AmongFirstMonths(seenMonths, k, f)
    {
      keep := keep + {seenMonths[k].1};
    }
    forall f
      ensures f in keep <==> IsKept(files, daily, monthly, f)
    {
      KeptTwoWays(files, daily, monthly, seenMonths, f);
    }
  }

  predicate FirstOfMonth(files: seq<string>, j: nat)
    requires j < |files| && AllBackups(files)
  {
    MonthOf(files[j]) !in MonthsIn(files, j)
  }

  predicate AmongFirst(files: seq<string>, n: nat, f: string) {
    exists j :: 0 <= j < |files| && j < n && files[j] == f
  }

  predicate AmongFirstMonths(seenMonths: seq<(string, string)>, n: nat, f: string) {
    exists k :: 0 <= k < |seenMonths| && k < n && seenMonths[k].1 == f
  }

  lemma KeptTwoWays(files: seq<string>, daily: nat, monthly: nat, seenMonths: seq<(string, string)>, f: string)
    requires AllBackups(files)
    requires forall k :: 0 <= k < |seenMonths| ==> Recorded(files, |files|, k, seenMonths[k].1)
    requires forall j :: 0 <= j < |files| ==> Indexed(files, seenMonths, j)
    ensures IsKept(files, daily, monthly, f) <==> AmongFirst(files, daily, f) || AmongFirstMonths(seenMonths, monthly, f)
  {
    if k :| 0 <= k < |seenMonths| && k < monthly && seenMonths[k].1 == f {
      assert Recorded(files, |files|, k, f);
      var j :| 0 <= j < |files| && files[j] == f && FirstOfMonth(files, j) && |MonthsIn(files, j)| == k;
      assert Kept(files, daily, monthly, j);
    }
    if IsKept(files, daily, monthly, f) {
      var i :| 0 <= i < |files| && files[i] == f && Kept(files, daily, monthly, i);
      assert Indexed(files, seenMonths, i);
      assert i < daily || (FirstOfMonth(files, i) && seenMonths[|MonthsIn(files, i)|].1 == f);
    }
  }

  /** `f` is the newest of its month among the first `n` files, with `k` newer months. */
  ghost predicate Recorded(files: seq<string>, n: nat, k: nat, f: string)
    requires n <= |files| && AllBackups(files)
  {
    exists j :: 0 <= j < n && files[j] == f && FirstOfMonth(files, j) && |MonthsIn(files, j)| == k
  }

  // ---- The policy as one walk over a sorted listing ----

  datatype Last = Start | After(month: string)

  function Less1(n: nat): nat {
    if n == 0 then 0 else n - 1
  }

  /** With files newest first a month is new exactly when it differs from the previous file's month. */
  function Walk(files: seq<string>, daily: nat, monthly: nat, last: Last): seq<string>
    requires AllBackups(files)
  {
    if files == [] then []
    else
      var f := files[0];
      var isNew := last != After(MonthOf(f));
      var rest := Walk(files[1..], Less1(daily), if isNew then Less1(monthly) else monthly, After(MonthOf(f)));
      if daily > 0 || (isNew && monthly > 0) then [f] + rest else rest
  }

  lemma {:induction false} WalkIsBackups(files: seq<string>, daily: nat, monthly: nat, last: Last)
    requires AllBackups(files)
    ensures AllBackups(Walk(files, daily, monthly, last))
    ensures |Walk(files, daily, monthly, last)| <= |files|
  {
    if files != [] {
      var isNew := last != After(MonthOf(files[0]));
      WalkIsBackups(files[1..], Less1(daily), if isNew then Less1(monthly) else monthly, After(MonthOf(files[0])));
    }
  }

  lemma {:induction false} WalkNothing(files: seq<string>, last: Last)
    requires AllBackups(files)
    ensures Walk(files, 0, 0, last) == []
  {
    if files != [] {
      WalkNothing(files[1..], After(MonthOf(files[0])));
    }
  }

  /** At most `daily + monthly` files survive. */
  lemma {:induction false} WalkBounded(files: seq<string>, daily: nat, monthly: nat, last: Last)
    requires AllBackups(files)
    ensures |Walk(files, daily, monthly, last)| <= daily + monthly
  {
    if files != [] {
      var isNew := last != After(MonthOf(files[0]));
      WalkBounded(files[1..], Less1(daily), if isNew then Less1(monthly) else monthly, After(MonthOf(files[0])));
    }
  }

  /** Pruning with tighter limits does not notice an earlier pruning with looser ones. */
  lemma {:induction false} WalkAbsorbs(files: seq<string>, d: nat, m: nat, d': nat, m': nat, last: Last)
    requires AllBackups(files) && d' <= d && m' <= m
    ensures AllBackups(Walk(files, d, m, last))
    ensures Walk(Walk(files, d, m, last), d', m', last) == Walk(files, d', m', last)
  {
    WalkIsBackups(files, d, m, last);
    if files != [] {
      var f, tail := files[0], files[1..];
      var isNew, next := last != After(MonthOf(f)), After(MonthOf(f));
      var m1, m1' := if isNew then Less1(m) else m, if isNew then Less1(m') else m';
      WalkAbsorbs(tail, Less1(d), m1, Less1(d'), m1', next);
      var inner := Walk(tail, Less1(d), m1, next);
      if d > 0 || (isNew && m > 0) {
        assert Walk(files, d, m, last) == [f] + inner && ([f] + inner)[1..] == inner;
      } else if isNew {
        WalkNothing(files, last);
        WalkNothing(Walk(files, d, m, last), last);
      }
    }
  }

  /** The same when a newer file has since used up one daily slot and one month. */
  lemma WalkAbsorbsAfter(files: seq<string>, d: nat, m: nat, month: string)
    requires AllBackups(files)
    ensures AllBackups(Walk(files, d, m, Start))
    ensures Walk(Walk(files, d, m, Start), Less1(d), Less1(m), After(month)) == Walk(files, Less1(d), Less1(m), After(month))
  {
    WalkIsBackups(files, d, m, Start);
    if files != [] {
      var f, tail, next := files[0], files[1..], After(MonthOf(files[0]));
      var inner := Walk(tail, Less1(d), Less1(m), next);
      WalkIsBackups(tail, Less1(d), Less1(m), next);
      if d > 0 || m > 0 {
        assert Walk(files, d, m, Start) == [f] + inner && ([f] + inner)[1..] == inner;
        var m' := if MonthOf(f) == month then Less1(m) else Less1(Less1(m));
        WalkAbsorbs(tail, Less1(d), Less1(m), Less1(Less1(d)), m', next);
      } else {
        WalkNothing(files, After(month));
        WalkNothing(Walk(files, d, m, Start), After(month));
      }
    }
  }

  /** Dump-then-prune on an already pruned directory equals pruning the whole history with the new dump. */
  lemma IncrementalStep(files: seq<string>, newest: string, d: nat, m: nat)
    requires AllBackups(files) && IsBackup(newest)
    ensures AllBackups(Walk(files, d, m, Start))
    ensures Walk([newest] + Walk(files, d, m, Start), d, m, Start) == Walk([newest] + files, d, m, Start)
  {
    WalkIsBackups(files, d, m, Start);
    WalkAbsorbsAfter(files, d, m, MonthOf(newest));
    assert ([newest] + Walk(files, d, m, Start))[1..] == Walk(files, d, m, Start);
    assert ([newest] + files)[1..] == files;
  }

  // ---- The walk and the positions agree on sorted listings ----

  lemma {:induction false} MonthsInMeaning(files: seq<string>, n: nat)
    requires n <= |files| && AllBackups(files)
    ensures forall m :: m in MonthsIn(files, n) <==> exists j :: 0 <= j < n && MonthOf(files[j]) == m
  {
    if n > 0 { MonthsInMeaning(files, n - 1); }
  }

  /** Months are contiguous in a sorted listing. */
  lemma MonthRepeats(files: seq<string>, k: nat)
    requires 0 < k < |files| && AllBackups(files) && Descending(files)
    ensures MonthOf(files[k]) in MonthsIn(files, k) <==> MonthOf(files[k]) == MonthOf(files[k - 1])
  {
    MonthsInMeaning(files, k);
    if MonthOf(files[k]) in MonthsIn(files, k) {
      var j :| 0 <= j < k && MonthOf(files[j]) == MonthOf(files[k]);
      if j < k - 1 {
        MonthsFollowNames(files[k - 1], files[j]);
        MonthsFollowNames(files[k], files[k - 1]);
        LessTotal(MonthOf(files[k]), MonthOf(files[k - 1]));
      }
    }
  }

  lemma NextMonthCount(files: seq<string>, k: nat)
    requires k < |files| && AllBackups(files)
    ensures |MonthsIn(files, k + 1)| == |MonthsIn(files, k)| + if MonthOf(files[k]) in MonthsIn(files, k) then 0 else 1
    ensures k == 0 ==> MonthOf(files[k]) !in MonthsIn(files, k)
  {
    if MonthOf(files[k]) in MonthsIn(files, k) {
      assert MonthsIn(files, k + 1) == MonthsIn(files, k);
    }
  }

  function Left(limit: nat, used: nat): nat {
    if used < limit then limit - used else 0
  }

  lemma {:induction false} WalkIsKeptFrom(files: seq<string>, d: nat, m: nat, k: nat)
    requires k <= |files| && AllBackups(files) && Descending(files)
    ensures Walk(files[k..], Left(d, k), Left(m, |MonthsIn(files, k)|), if k == 0 then Start else After(MonthOf(files[k - 1])))
         == KeptFrom(files, d, m, k)
    decreases |files| - k
  {
    if k < |files| {
      WalkIsKeptFrom(files, d, m, k + 1);
      assert files[k..][1..] == files[k + 1..] && files[k..][0] == files[k];
      if k > 0 { MonthRepeats(files, k); }
      NextMonthCount(files, k);
      hide MonthOf, MonthsIn, AllBackups, Descending;
    }
  }

  /** Hence `Walk` is the policy: a file survives exactly when its position is kept. */
  lemma WalkMeaning(files: seq<string>, d: nat, m: nat, f: string)
    requires AllBackups(files) && Descending(files)
    ensures f in Walk(files, d, m, Start) <==> IsKept(files, d, m, f)
  {
    WalkIsKeptFrom(files, d, m, 0);
    assert files[0..] == files;
    KeptFromMeaning(files, d, m, 0, f);
  }

  // ---- Directories ----

  function Insert(f: string, files: seq<string>): seq<string> {
    if files == [] then [f]
    else if Less(files[0], f) then [f] + files
    else [files[0]] + Insert(f, files[1..])
  }

  lemma {:induction false} InsertSorted(f: string, files: seq<string>)
    requires Descending(files) && f !in files
    ensures Descending(Insert(f, files))
    ensures forall g :: g in Insert(f, files) <==> g == f || g in files
  {
    if files != [] {
      if Less(files[0], f) {
        forall j | 0 <= j < |files| ensures Less(files[j], f) {
          if j > 0 { LessTransitive(files[j], files[0], f); }
        }
      } else {
        var tail := Insert(f, files[1..]);
        InsertSorted(f, files[1..]);
        LessTotal(files[0], f);
        forall j | 0 <= j < |tail| ensures Less(tail[j], files[0]) {
          assert tail[j] in tail;
          if tail[j] != f {
            var i :| 0 <= i < |files[1..]| && files[1..][i] == tail[j];
            assert files[i + 1] == tail[j];
          }
        }
        assert forall g :: g in files <==> g == files[0] || g in files[1..];
      }
    }
  }

  /** The backups of a directory, newest first. */
  ghost function Listing(names: set<string>): (files: seq<string>)
    ensures Descending(files) && AllBackups(files)
    ensures forall f :: f in files <==> f in names && IsBackup(f)
  {
    if names == {} then []
    else
      var f :| f in names;
      var rest := Listing(names - {f});
      InsertSorted(f, rest);
      if IsBackup(f) then Insert(f, rest) else rest
  }

  /** A sorted listing is determined by its elements. */
  lemma {:induction false} DescendingUnique(a: seq<string>, b: seq<string>)
    requires Descending(a) && Descending(b)
    requires forall f :: f in a <==> f in b
    ensures a == b
  {
    assert (a != [] ==> a[0] in a) && (b != [] ==> b[0] in b);
    if a != [] {
      var x, y := a[0], b[0];
      assert x in a && y in b;
      HeadIsGreatest(a, y);
      HeadIsGreatest(b, x);
      LessTotal(x, y);
      TailWithoutHead(a);
      TailWithoutHead(b);
      DescendingUnique(a[1..], b[1..]);
      assert a == [x] + a[1..] && b == [y] + b[1..];
    }
  }

  lemma HeadIsGreatest(a: seq<string>, f: string)
    requires Descending(a) && a != [] && f in a
    ensures f == a[0] || Less(f, a[0])
  {
  }

  lemma TailWithoutHead(a: seq<string>)
    requires Descending(a) && a != []
    ensures forall f :: f in a[1..] <==> f in a && f != a[0]
  {
    LessTotal(a[0], a[0]);
    assert forall i :: 1 <= i < |a| ==> Less(a[i], a[0]);
    assert forall f :: f in a ==> f == a[0] || f in a[1..];
  }

  /** The directory after one pruning: foreign files, and the kept backups. */
  ghost function Pruned(names: set<string>, daily: nat, monthly: nat): set<string> {
    set f | f in names && (!IsBackup(f) || f in Walk(Listing(names), daily, monthly, Start))
  }

  lemma PrunedMeans(names: set<string>, files: seq<string>, daily: nat, monthly: nat)
    requires files == Listing(names)
    ensures AllBackups(files) && forall f :: f in files ==> f in names
    ensures forall f ::
      f in Pruned(names, daily, monthly) <==> f in names && (f !in files || f in Walk(files, daily, monthly, Start))
  {
    WalkDescending(files, daily, monthly, Start);
    assert forall f :: f in files <==> f in names && IsBackup(f);
    hide *;
    forall f
      ensures f in Pruned(names, daily, monthly) <==> f in names && (f !in files || f in Walk(files, daily, monthly, Start))
    {
      PrunedAt(names, daily, monthly, f);
    }
  }

  lemma PrunedAt(names: set<string>, daily: nat, monthly: nat, f: string)
    ensures f in Pruned(names, daily, monthly)
       <==> f in names && (f !in Listing(names) || f in Walk(Listing(names), daily, monthly, Start))
  {
  }

  class Directory {
    /** The files, by name. */
    var names: set<string>
    /** Entries that are not files; nothing here touches them. */
    const folders: set<string>

    constructor (existing: set<string>, folders: set<string>)
      ensures names == existing && this.folders == folders
    {
      names := existing;
      this.folders := folders;
    }

    /** _existing_backups */
    method ExistingBackups() returns (files: seq<string>)
      ensures files == Listing(names)
    {
      files := [];
      var left := names + folders;
      while left != {}
        invariant Descending(files) && AllBackups(files)
        invariant forall f :: f in files <==> f in names && f !in left && IsBackup(f)
        decreases left
      {
        var entry :| entry in left;
        left := left - {entry};
        if entry !in names {
          continue;
        }
        if IsBackup(entry) {
          InsertSorted(entry, files);
          files := Insert(entry, files);
        }
      }
      DescendingUnique(files, Listing(names));
    }

    /** prune_backups. `lost` are the files that somebody else deletes after the directory was listed: the
        FileNotFoundError they raise is swallowed, and they are not reported as removed. */
    method Prune(daily: nat, monthly: nat, lost: set<string>) returns (removed: seq<string>)
      modifies this
      ensures names == Pruned(old(names), daily, monthly) - lost
      ensures forall f :: f in removed <==> f in old(names) && f !in Pruned(old(names), daily, monthly) && f !in lost
    {
      var files := ExistingBackups();
      var keepers := SelectKeepers(files, daily, monthly);
      names := names - lost;
      removed := [];
      for i := 0 to |files|
        invariant forall f :: f in removed <==> f in files[..i] && f !in keepers && f !in lost
        invariant forall f :: f in names <==> f in old(names) && f !in lost && f !in removed
      {
        var f := files[i];
        assert files[..i + 1] == files[..i] + [f];
        if f !in keepers {
          if f in names {
            names := names - {f};
            removed := removed + [f];
          }
        }
      }
      assert files[..|files|] == files;
      forall f | f in files
        ensures f in keepers <==> f in Walk(files, daily, monthly, Start)
      {
        WalkMeaning(files, daily, monthly, f);
      }
      hide *;
      PrunedMeans(old(names), files, daily, monthly);
    }

    /** run_backup: a failed dump removes its partial file and prunes nothing. */
    method RunBackup(now: Stamp, dumpSucceeds: bool, daily: nat, monthly: nat)
      requires now.Valid()
      modifies this
      ensures names == RunStep(old(names), Dump(now, dumpSucceeds), daily, monthly)
    {
      var target := FileName(now);
      names := names + {target};
      if !dumpSucceeds {
        names := names - {target};
        return;
      }
      var removed := Prune(daily, monthly, {});
    }
  }

  // ---- Whole runs ----

  datatype Dump = Dump(now: Stamp, succeeds: bool)

  ghost function RunStep(names: set<string>, dump: Dump, daily: nat, monthly: nat): set<string>
    requires dump.now.Valid()
  {
    if dump.succeeds then Pruned(names + {FileName(dump.now)}, daily, monthly)
    else names - {FileName(dump.now)}
  }

  predicate Clock(dumps: seq<Dump>) {
    && (forall i :: 0 <= i < |dumps| ==> dumps[i].now.Valid())
    && (forall i, j :: 0 <= i < j < |dumps| ==> dumps[i].now.Before(dumps[j].now))
  }

  /** The directory after all the runs, pruned every time. */
  ghost function DirectoryAfter(start: set<string>, dumps: seq<Dump>, daily: nat, monthly: nat): set<string>
    requires Clock(dumps)
  {
    if dumps == [] then start
    else RunStep(DirectoryAfter(start, dumps[..|dumps| - 1], daily, monthly), dumps[|dumps| - 1], daily, monthly)
  }

  /** Everything that was ever in the directory, as if nothing had ever been pruned. */
  ghost function EverDumped(start: set<string>, dumps: seq<Dump>): set<string>
    requires Clock(dumps)
  {
    if dumps == [] then start
    else
      var before := EverDumped(start, dumps[..|dumps| - 1]);
      if dumps[|dumps| - 1].succeeds then before + {FileName(dumps[|dumps| - 1].now)} else before
  }

  predicate OlderThan(names: set<string>, newest: string) {
    forall f :: f in names && IsBackup(f) ==> Less(f, newest)
  }

  /** The listing of a pruned directory is the walk over the listing of the whole. */
  lemma ListingOfPruned(names: set<string>, d: nat, m: nat)
    ensures Listing(Pruned(names, d, m)) == Walk(Listing(names), d, m, Start)
  {
    var files := Listing(names);
    WalkDescending(files, d, m, Start);
    WalkIsBackups(files, d, m, Start);
    DescendingUnique(Listing(Pruned(names, d, m)), Walk(files, d, m, Start));
  }

  lemma {:induction false} WalkDescending(files: seq<string>, d: nat, m: nat, last: Last)
    requires AllBackups(files) && Descending(files)
    ensures Descending(Walk(files, d, m, last))
    ensures forall f :: f in Walk(files, d, m, last) ==> f in files
  {
    if files != [] {
      var isNew, next := last != After(MonthOf(files[0])), After(MonthOf(files[0]));
      var rest := Walk(files[1..], Less1(d), if isNew then Less1(m) else m, next);
      WalkDescending(files[1..], Less1(d), if isNew then Less1(m) else m, next);
      forall j | 0 <= j < |rest| ensures Less(rest[j], files[0]) {
        assert rest[j] in rest && rest[j] in files[1..];
      }
    }
  }

  lemma ListingWithNewest(names: set<string>, newest: string)
    requires IsBackup(newest) && OlderThan(names, newest)
    ensures Listing(names + {newest}) == [newest] + Listing(names)
  {
    var files := Listing(names);
    forall i | 0 <= i < |files| ensures Less(files[i], newest) { assert files[i] in files; }
    DescendingUnique(Listing(names + {newest}), [newest] + files);
  }

  /** keep(keep(H) + {x}) == keep(H + {x}) for every history H and newer file x. */
  lemma IncrementalPruning(names: set<string>, newest: string, d: nat, m: nat)
    requires IsBackup(newest) && OlderThan(names, newest)
    ensures Pruned(Pruned(names, d, m) + {newest}, d, m) == Pruned(names + {newest}, d, m)
  {
    ListingWithNewest(names, newest);
    ListingWithNewest(Pruned(names, d, m), newest);
    ListingOfPruned(names, d, m);
    IncrementalStep(Listing(names), newest, d, m);
    WalkDescending([newest] + Listing(names), d, m, Start);
    forall f
      ensures f in Pruned(Pruned(names, d, m) + {newest}, d, m) <==> f in Pruned(names + {newest}, d, m)
    {
      if IsBackup(f) && f in Pruned(names + {newest}, d, m) {
        assert f in Walk([newest] + Walk(Listing(names), d, m, Start), d, m, Start);
        WalkIsBackups(Listing(names), d, m, Start);
        WalkDescending(Listing(names), d, m, Start);
        WalkDescending(Listing(Pruned(names, d, m) + {newest}), d, m, Start);
      }
    }
  }

  /** Pruning twice is pruning once, and no more than daily + monthly backups survive it. */
  lemma PruningIdempotentAndBounded(names: set<string>, d: nat, m: nat)
    ensures Pruned(Pruned(names, d, m), d, m) == Pruned(names, d, m)
    ensures |Listing(Pruned(names, d, m))| <= d + m
  {
    ListingOfPruned(names, d, m);
    WalkAbsorbs(Listing(names), d, m, d, m, Start);
    WalkBounded(Listing(names), d, m, Start);
  }

  ghost predicate AnySuccess(dumps: seq<Dump>) {
    exists i :: 0 <= i < |dumps| && dumps[i].succeeds
  }

  /** Every name a run could have left lies before the next dump's name. */
  lemma {:induction false} HistoryIsOlder(start: set<string>, dumps: seq<Dump>, next: Stamp)
    requires Clock(dumps) && next.Valid()
    requires forall i :: 0 <= i < |dumps| ==> dumps[i].now.Before(next)
    requires OlderThan(start, FileName(next))
    ensures OlderThan(EverDumped(start, dumps), FileName(next))
  {
    hide FileName;
    if dumps != [] {
      var front, dump := dumps[..|dumps| - 1], dumps[|dumps| - 1];
      assert forall i :: 0 <= i < |front| ==> front[i] == dumps[i];
      HistoryIsOlder(start, front, next);
      NameOrderIsChronological(dump.now, next);
    }
  }

  lemma {:induction false} DirectoryIsPartOfHistory(start: set<string>, dumps: seq<Dump>, d: nat, m: nat)
    requires Clock(dumps)
    ensures DirectoryAfter(start, dumps, d, m) <= EverDumped(start, dumps)
  {
    if dumps != [] {
      DirectoryIsPartOfHistory(start, dumps[..|dumps| - 1], d, m);
    }
  }

  /** Over any run of dumps, failed ones included, the directory equals the policy applied once to
      everything ever dumped, as soon as one dump has succeeded. */
  lemma {:induction false} IncrementalEqualsOneShot(start: set<string>, dumps: seq<Dump>, d: nat, m: nat)
    requires Clock(dumps)
    requires forall i :: 0 <= i < |dumps| ==> OlderThan(start, FileName(dumps[i].now))
    ensures AnySuccess(dumps) ==> DirectoryAfter(start, dumps, d, m) == Pruned(EverDumped(start, dumps), d, m)
    ensures !AnySuccess(dumps) ==> DirectoryAfter(start, dumps, d, m) == EverDumped(start, dumps) == start
  {
    hide FileName, Pruned;
    if dumps != [] {
      var front, dump := dumps[..|dumps| - 1], dumps[|dumps| - 1];
      assert forall i :: 0 <= i < |front| ==> front[i] == dumps[i];
      assert AnySuccess(dumps) <==> AnySuccess(front) || dump.succeeds;
      IncrementalEqualsOneShot(start, front, d, m);
      var newest, before := FileName(dump.now), EverDumped(start, front);
      FileNameParses(dump.now);
      HistoryIsOlder(start, front, dump.now);
      DirectoryIsPartOfHistory(start, front, d, m);
      LessTotal(newest, newest);
      if dump.succeeds {
        IncrementalPruning(before, newest, d, m);
      } else {
        assert newest !in DirectoryAfter(start, front, d, m);
      }
    }
  }
}
