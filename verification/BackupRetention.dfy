/** Retention of backup files: files older than the retention period are deleted first, then the
    oldest remaining ones until the total size fits the cap. */
module BackupRetention {
  import opened Prelude

  /** A directory entry; the entries are in listing order and their names are distinct. */
  datatype Entry = Entry(name: string, isFile: bool, size: nat, mtime: real)

  /** Hidden files and directories are not backups. */
  predicate IsBackup(e: Entry) { e.isFile && (e.name == "" || e.name[0] != '.') }

  function Backups(entries: seq<Entry>): seq<Entry> { Filter(IsBackup, entries) }

  ghost predicate DistinctNames(entries: seq<Entry>) {
    forall i, j :: 0 <= i < j < |entries| ==> entries[i].name != entries[j].name
  }

  function Total(files: seq<Entry>): nat {
    if files == [] then 0 else files[0].size + Total(files[1..])
  }

  // ------------------------------------------------------------ what is deleted

  /** Both limits and the clock; a limit of zero or less is off. */
  datatype Policy = Policy(retainDays: real, maxSizeMb: real, now: real)

  function Cutoff(p: Policy): real { p.now - p.retainDays * 86400.0 }

  predicate TooOld(p: Policy, e: Entry) { e.mtime < Cutoff(p) }

  function Aged(p: Policy, files: seq<Entry>): seq<Entry> {
    if p.retainDays > 0.0 then Filter((e: Entry) => TooOld(p, e), files) else []
  }

  function Recent(p: Policy, files: seq<Entry>): seq<Entry> {
    if p.retainDays > 0.0 then Filter((e: Entry) => !TooOld(p, e), files) else files
  }

  function OldestFirst(files: seq<Entry>): seq<Entry> { Sort((e: Entry) => e.mtime, files) }

  function Cap(p: Policy): real { p.maxSizeMb * 1048576.0 }

  /** How many of the files, taken from the front, go until the rest fits the cap. */
  function CutFrom(files: seq<Entry>, cap: real, i: nat): (k: nat)
    requires i <= |files|
    ensures i <= k <= |files|
    decreases |files| - i
  {
    if i < |files| && Total(files[i..]) as real > cap then CutFrom(files, cap, i + 1) else i
  }

  function Oversize(p: Policy, files: seq<Entry>): seq<Entry> {
    var sorted := OldestFirst(Recent(p, files));
    if p.maxSizeMb > 0.0 then sorted[..CutFrom(sorted, Cap(p), 0)] else []
  }

  function Victims(p: Policy, files: seq<Entry>): seq<Entry> { Aged(p, files) + Oversize(p, files) }

  /** The entries that are left when the victims are gone. */
  function Minus(entries: seq<Entry>, victims: seq<Entry>): seq<Entry> {
    if entries == [] then []
    else if entries[0] in victims then Minus(entries[1..], victims)
    else [entries[0]] + Minus(entries[1..], victims)
  }

  // ------------------------------------------------------------ the job

  datatype Report = Report(freedBytes: nat, deletedByAge: nat, deletedBySizeCap: nat,
                           totalBackups: nat, totalSizeBytes: nat)

  class BackupDir {
    var entries: seq<Entry>

    constructor (entries: seq<Entry>)
      ensures this.entries == entries
    {
      this.entries := entries;
    }

    method Unlink(f: Entry, ghost before: seq<Entry>, ghost gone: seq<Entry>)
      requires DistinctNames(before) && f in before && entries == Minus(before, gone)
      modifies this
      ensures entries == Minus(before, gone + [f])
    {
      entries := Filter((e: Entry) => e.name != f.name, entries);
      MinusOneMore(before, gone, f);
    }

    method DeleteAged(p: Policy, files: seq<Entry>, ghost before: seq<Entry>)
      returns (kept: seq<Entry>, freed: nat, count: nat)
      requires DistinctNames(before) && entries == before && p.retainDays > 0.0
      requires forall f :: f in files ==> f in before
      modifies this
      ensures entries == Minus(before, Aged(p, files))
      ensures kept == Recent(p, files) && freed == Total(Aged(p, files)) && count == |Aged(p, files)|
    {
      hide Minus, Aged, Recent, Total;
      kept, freed, count := [], 0, 0;
      MinusNothing(entries);
      NothingScanned(p);
      assert files[..0] == [];
      var i := 0;
      while i < |files|
        invariant 0 <= i <= |files|
        invariant kept == Recent(p, files[..i])
        invariant entries == Minus(before, Aged(p, files[..i]))
        invariant freed == Total(Aged(p, files[..i])) && count == |Aged(p, files[..i])|
      {
        RecentStep(p, files, i);
        AgedStep(p, files, i);
        var deleted := DeleteIfOld(p, files[i], before, Aged(p, files[..i]));
        if deleted {
          freed := freed + files[i].size;
          count := count + 1;
        } else {
          kept := kept + [files[i]];
        }
        i := i + 1;
      }
      assert files[..i] == files;
    }

    method DeleteIfOld(p: Policy, f: Entry, ghost before: seq<Entry>, ghost gone: seq<Entry>) returns (deleted: bool)
      requires DistinctNames(before) && f in before && entries == Minus(before, gone)
      modifies this
      ensures deleted == TooOld(p, f)
      ensures entries == if deleted then Minus(before, gone + [f]) else Minus(before, gone)
    {
      deleted := TooOld(p, f);
      if deleted {
        Unlink(f, before, gone);
      }
    }

    method DeleteOversize(p: Policy, files: seq<Entry>, ghost before: seq<Entry>, ghost gone: seq<Entry>)
      returns (freed: nat, count: nat)
      requires DistinctNames(before) && entries == Minus(before, gone) && p.maxSizeMb > 0.0
      requires forall f :: f in files ==> f in before
      modifies this
      ensures var sorted := OldestFirst(files); var k := CutFrom(sorted, Cap(p), 0);
              && entries == Minus(before, gone + sorted[..k])
              && freed == Total(sorted[..k]) && count == k
    {
      var sorted := OldestFirst(files);
      SortSorts((e: Entry) => e.mtime, files);
      SameMultisetSameMembers(sorted, files);
      var total := Total(sorted);
      freed, count := 0, 0;
      var i := 0;
      assert sorted[..0] == [] && gone + sorted[..0] == gone && sorted[0..] == sorted;
      while i < |sorted| && total as real > Cap(p)
        invariant 0 <= i <= |sorted|
        invariant entries == Minus(before, gone + sorted[..i])
        invariant total == Total(sorted[i..]) && freed == Total(sorted[..i]) && count == i
        invariant CutFrom(sorted, Cap(p), 0) == CutFrom(sorted, Cap(p), i)
      {
        var f := sorted[i];
        SizeStep(sorted, i);
        TakeStep(gone, sorted, i);
        Unlink(f, before, gone + sorted[..i]);
        total := total - f.size;
        freed := freed + f.size;
        count := count + 1;
        i := i + 1;
      }
    }

    method Enforce(p: Policy) returns (r: Report)
      requires DistinctNames(entries)
      modifies this
      ensures entries == Minus(old(entries), Victims(p, Backups(old(entries))))
      ensures var files := Backups(old(entries));
              r == Report(Total(Victims(p, files)), |Aged(p, files)|, |Oversize(p, files)|,
                          |Backups(entries)|, Total(Backups(entries)))
    {
      var files := Backups(entries);
      var kept, freed, byAge := files, 0, 0;
      MinusNothing(entries);
      FilterMembers(IsBackup, entries);
      FilterMembers((e: Entry) => !TooOld(p, e), files);
      if p.retainDays > 0.0 {
        kept, freed, byAge := DeleteAged(p, files, entries);
      }
      var freed2, bySize := 0, 0;
      if p.maxSizeMb > 0.0 {
        freed2, bySize := DeleteOversize(p, kept, old(entries), Aged(p, files));
      } else {
        assert Aged(p, files) + [] == Aged(p, files);
      }
      TotalConcat(Aged(p, files), Oversize(p, files));
      var remaining := Backups(entries);
      r := Report(freed + freed2, byAge, bySize, |remaining|, Total(remaining));
    }
  }

  // ------------------------------------------------------------ lemmas on totals and differences

  lemma {:induction false} TotalConcat(a: seq<Entry>, b: seq<Entry>)
    ensures Total(a + b) == Total(a) + Total(b)
  {
    if a == [] {
      assert a + b == b;
    } else {
      TotalConcat(a[1..], b);
      assert (a + b)[1..] == a[1..] + b;
    }
  }

  lemma NothingScanned(p: Policy)
    ensures Aged(p, []) == [] && Recent(p, []) == [] && Total([]) == 0
  {
  }

  lemma AgedStep(p: Policy, files: seq<Entry>, i: nat)
    requires i < |files| && p.retainDays > 0.0
    ensures TooOld(p, files[i]) ==>
              && Aged(p, files[..i + 1]) == Aged(p, files[..i]) + [files[i]]
              && Total(Aged(p, files[..i + 1])) == Total(Aged(p, files[..i])) + files[i].size
    ensures !TooOld(p, files[i]) ==> Aged(p, files[..i + 1]) == Aged(p, files[..i])
  {
    assert files[..i + 1] == files[..i] + [files[i]];
    FilterConcat((e: Entry) => TooOld(p, e), files[..i], [files[i]]);
    TotalConcat(Aged(p, files[..i]), [files[i]]);
  }

  lemma RecentStep(p: Policy, files: seq<Entry>, i: nat)
    requires i < |files| && p.retainDays > 0.0
    ensures TooOld(p, files[i]) ==> Recent(p, files[..i + 1]) == Recent(p, files[..i])
    ensures !TooOld(p, files[i]) ==> Recent(p, files[..i + 1]) == Recent(p, files[..i]) + [files[i]]
  {
    assert files[..i + 1] == files[..i] + [files[i]];
    FilterConcat((e: Entry) => !TooOld(p, e), files[..i], [files[i]]);
  }

  lemma TakeStep(gone: seq<Entry>, sorted: seq<Entry>, i: nat)
    requires i < |sorted|
    ensures (gone + sorted[..i]) + [sorted[i]] == gone + sorted[..i + 1]
  {
  }

  lemma SizeStep(sorted: seq<Entry>, i: nat)
    requires i < |sorted|
    ensures Total(sorted[..i + 1]) == Total(sorted[..i]) + sorted[i].size
    ensures Total(sorted[i..]) == sorted[i].size + Total(sorted[i + 1..])
  {
    assert sorted[..i + 1] == sorted[..i] + [sorted[i]];
    TotalConcat(sorted[..i], [sorted[i]]);
    assert sorted[i..][1..] == sorted[i + 1..];
  }

  lemma {:induction false} MinusNothing(entries: seq<Entry>)
    ensures Minus(entries, []) == entries
  {
    if entries != [] {
      MinusNothing(entries[1..]);
    }
  }

  /** Removing by name removes exactly the one entry. */
  lemma {:induction false} MinusOneMore(entries: seq<Entry>, gone: seq<Entry>, f: Entry)
    requires forall e :: e in entries && e.name == f.name ==> e == f
    ensures Filter((e: Entry) => e.name != f.name, Minus(entries, gone)) == Minus(entries, gone + [f])
  {
    if entries != [] {
      MinusOneMore(entries[1..], gone, f);
      assert entries[0] in entries;
    }
  }

  lemma {:induction false} BackupsOfMinus(entries: seq<Entry>, gone: seq<Entry>)
    ensures Backups(Minus(entries, gone)) == Minus(Backups(entries), gone)
  {
    if entries != [] {
      BackupsOfMinus(entries[1..], gone);
    }
  }

  lemma {:induction false} MinusMembers(entries: seq<Entry>, gone: seq<Entry>)
    ensures forall e :: e in Minus(entries, gone) <==> e in entries && e !in gone
  {
    if entries != [] {
      MinusMembers(entries[1..], gone);
      assert entries == [entries[0]] + entries[1..];
    }
  }

  lemma {:induction false} MinusAbsent(entries: seq<Entry>, gone: seq<Entry>, f: Entry)
    requires f !in entries
    ensures Minus(entries, gone + [f]) == Minus(entries, gone)
  {
    if entries != [] {
      MinusAbsent(entries[1..], gone, f);
    }
  }

  lemma {:induction false} MinusOneTotal(files: seq<Entry>, gone: seq<Entry>, f: Entry)
    requires Distinct(files) && f in files && f !in gone
    ensures Total(Minus(files, gone)) == Total(Minus(files, gone + [f])) + f.size
    ensures |Minus(files, gone)| == |Minus(files, gone + [f])| + 1
  {
    if files[0] == f {
      assert f !in files[1..];
      MinusAbsent(files[1..], gone, f);
    } else {
      MinusOneTotal(files[1..], gone, f);
    }
  }

  /** Bytes and counts are conserved when different files of the directory are removed. */
  lemma {:induction false} MinusTotal(files: seq<Entry>, gone: seq<Entry>)
    requires Distinct(files) && Distinct(gone) && forall f :: f in gone ==> f in files
    ensures Total(Minus(files, gone)) + Total(gone) == Total(files)
    ensures |Minus(files, gone)| + |gone| == |files|
  {
    if gone == [] {
      MinusNothing(files);
    } else {
      var front, f := gone[..|gone| - 1], gone[|gone| - 1];
      assert gone == front + [f] && f in gone;
      MinusTotal(files, front);
      MinusOneTotal(files, front, f);
      TotalConcat(front, [f]);
    }
  }

  lemma {:induction false} InsertTotal(key: Entry -> real, x: Entry, s: seq<Entry>)
    ensures Total(Insert(key, x, s)) == x.size + Total(s)
  {
    var r := Insert(key, x, s);
    if s == [] || key(x) <= key(s[0]) {
      assert r[1..] == s;
    } else {
      InsertTotal(key, x, s[1..]);
      assert r[1..] == Insert(key, x, s[1..]);
    }
  }

  lemma {:induction false} SortTotal(key: Entry -> real, s: seq<Entry>)
    ensures Total(Sort(key, s)) == Total(s)
  {
    if s != [] {
      SortTotal(key, s[1..]);
      InsertTotal(key, s[0], Sort(key, s[1..]));
    }
  }

  // ------------------------------------------------------------ what retention guarantees

  lemma {:induction false} FilterDistinct(q: Entry -> bool, s: seq<Entry>)
    requires Distinct(s)
    ensures Distinct(Filter(q, s))
  {
    if s != [] {
      FilterDistinct(q, s[1..]);
      FilterMembers(q, s[1..]);
      assert s[0] !in s[1..];
    }
  }

  /** The sorted recent files: the same files as the recent ones, each once. */
  lemma SortedRecent(p: Policy, files: seq<Entry>)
    requires Distinct(files)
    ensures var sorted := OldestFirst(Recent(p, files));
            && Distinct(sorted) && Total(sorted) == Total(Recent(p, files))
            && SortedBy((e: Entry) => e.mtime, sorted)
            && forall e :: e in sorted <==> e in files && e !in Aged(p, files)
  {
    var recent := Recent(p, files);
    var sorted := OldestFirst(recent);
    SortSorts((e: Entry) => e.mtime, recent);
    SameMultisetSameMembers(sorted, recent);
    SortTotal((e: Entry) => e.mtime, recent);
    FilterMembers((e: Entry) => TooOld(p, e), files);
    FilterMembers((e: Entry) => !TooOld(p, e), files);
    FilterDistinct((e: Entry) => !TooOld(p, e), files);
    DistinctPermutation(recent, sorted);
  }

  lemma VictimsAreDistinct(p: Policy, files: seq<Entry>)
    requires Distinct(files)
    ensures Distinct(Victims(p, files)) && forall f :: f in Victims(p, files) ==> f in files
  {
    SortedRecent(p, files);
    FilterMembers((e: Entry) => TooOld(p, e), files);
    FilterDistinct((e: Entry) => TooOld(p, e), files);
    assert forall f :: f in Oversize(p, files) ==> f in OldestFirst(Recent(p, files));
    DistinctConcat(Aged(p, files), Oversize(p, files));
  }

  lemma BackupsDistinct(entries: seq<Entry>)
    requires DistinctNames(entries)
    ensures Distinct(Backups(entries))
  {
    assert Distinct(entries);
    FilterDistinct(IsBackup, entries);
  }

  /** The backups left after a run. */
  function Survivors(p: Policy, entries: seq<Entry>): seq<Entry> {
    Backups(Minus(entries, Victims(p, Backups(entries))))
  }

  /** Freed plus remaining bytes, and deleted plus remaining files, are what was there before; only
      backups are deleted. */
  lemma RetentionConserves(p: Policy, entries: seq<Entry>)
    requires DistinctNames(entries)
    ensures Total(Victims(p, Backups(entries))) + Total(Survivors(p, entries)) == Total(Backups(entries))
    ensures |Aged(p, Backups(entries))| + |Oversize(p, Backups(entries))| + |Survivors(p, entries)| == |Backups(entries)|
    ensures forall e :: e in entries && !IsBackup(e) ==> e in Minus(entries, Victims(p, Backups(entries)))
  {
    var files := Backups(entries);
    BackupsDistinct(entries);
    VictimsAreDistinct(p, files);
    BackupsOfMinus(entries, Victims(p, files));
    MinusTotal(files, Victims(p, files));
    MinusMembers(entries, Victims(p, files));
    FilterMembers(IsBackup, entries);
  }

  lemma SurvivorsMembers(p: Policy, entries: seq<Entry>)
    ensures forall e :: e in Survivors(p, entries) <==> e in Backups(entries) && e !in Victims(p, Backups(entries))
  {
    BackupsOfMinus(entries, Victims(p, Backups(entries)));
    MinusMembers(Backups(entries), Victims(p, Backups(entries)));
  }

  /** Every survivor is at least as new as every deleted file. */
  lemma SurvivorsAreNewest(p: Policy, entries: seq<Entry>, kept: Entry, gone: Entry)
    requires DistinctNames(entries)
    requires kept in Survivors(p, entries) && gone in Victims(p, Backups(entries))
    ensures gone.mtime <= kept.mtime
  {
    var files := Backups(entries);
    BackupsDistinct(entries);
    SurvivorsMembers(p, entries);
    SortedRecent(p, files);
    FilterMembers((e: Entry) => TooOld(p, e), files);
    if gone in Aged(p, files) {
      assert TooOld(p, gone) && !TooOld(p, kept);
    } else {
      PrefixIsOlder(OldestFirst(Recent(p, files)), |Oversize(p, files)|, kept, gone);
    }
  }

  lemma PrefixIsOlder(sorted: seq<Entry>, k: nat, kept: Entry, gone: Entry)
    requires SortedBy((e: Entry) => e.mtime, sorted) && k <= |sorted|
    requires kept in sorted && kept !in sorted[..k] && gone in sorted[..k]
    ensures gone.mtime <= kept.mtime
  {
    var key := (e: Entry) => e.mtime;
    var i :| 0 <= i < k && sorted[..k][i] == gone;
    var j :| 0 <= j < |sorted| && sorted[j] == kept;
    assert forall a :: 0 <= a < k ==> sorted[a] in sorted[..k];
    assert k <= j;
    assert key(sorted[i]) <= key(sorted[j]);
  }

  lemma {:induction false} CutFromMeaning(files: seq<Entry>, cap: real, i: nat)
    requires i <= |files|
    ensures var k := CutFrom(files, cap, i);
            && (k == |files| || Total(files[k..]) as real <= cap)
            && (i < k ==> Total(files[k - 1..]) as real > cap)
    decreases |files| - i
  {
    if i < |files| && Total(files[i..]) as real > cap {
      CutFromMeaning(files, cap, i + 1);
    }
  }

  lemma SurvivorsTotal(p: Policy, entries: seq<Entry>)
    requires DistinctNames(entries)
    ensures var sorted := OldestFirst(Recent(p, Backups(entries)));
            |Oversize(p, Backups(entries))| <= |sorted|
            && Total(Survivors(p, entries)) == Total(sorted[|Oversize(p, Backups(entries))|..])
  {
    var files := Backups(entries);
    var sorted := OldestFirst(Recent(p, files));
    var k := |Oversize(p, files)|;
    BackupsDistinct(entries);
    RetentionConserves(p, entries);
    SortedRecent(p, files);
    TotalConcat(Aged(p, files), Oversize(p, files));
    assert Oversize(p, files) == sorted[..k];
    assert sorted == sorted[..k] + sorted[k..];
    TotalConcat(sorted[..k], sorted[k..]);
    AgedPlusRecent(p, files);
  }

  lemma {:induction false} AgedPlusRecent(p: Policy, files: seq<Entry>)
    ensures Total(Aged(p, files)) + Total(Recent(p, files)) == Total(files)
  {
    if files != [] {
      AgedPlusRecent(p, files[1..]);
    }
  }

  /** With a positive cap the survivors fit it, and putting back the last file deleted for size
      would exceed it. */
  lemma CapIsTight(p: Policy, entries: seq<Entry>)
    requires DistinctNames(entries) && p.maxSizeMb > 0.0
    ensures Total(Survivors(p, entries)) as real <= p.maxSizeMb * 1048576.0
    ensures var over := Oversize(p, Backups(entries));
            over != [] ==> (Total(Survivors(p, entries)) + over[|over| - 1].size) as real > p.maxSizeMb * 1048576.0
  {
    var sorted := OldestFirst(Recent(p, Backups(entries)));
    var k := CutFrom(sorted, Cap(p), 0);
    SurvivorsTotal(p, entries);
    CutFromMeaning(sorted, Cap(p), 0);
    if k > 0 {
      SizeStep(sorted, k - 1);
    }
  }

  /** A file is deleted for its age exactly if the period is on, the file is older than that, and it is
      neither a directory nor hidden. */
  lemma AgeIsExact(p: Policy, entries: seq<Entry>, e: Entry)
    requires e in entries
    ensures e in Aged(p, Backups(entries))
            <==> (&& p.retainDays > 0.0 && p.now - e.mtime > p.retainDays * 86400.0
                  && e.isFile && (e.name == "" || e.name[0] != '.'))
  {
    FilterMembers(IsBackup, entries);
    FilterMembers((e: Entry) => TooOld(p, e), Backups(entries));
  }

  /** Directories and hidden files stay, whatever the policy. */
  lemma OthersStay(p: Policy, entries: seq<Entry>, e: Entry)
    requires DistinctNames(entries) && e in entries
    requires !e.isFile || (e.name != "" && e.name[0] == '.')
    ensures e in Minus(entries, Victims(p, Backups(entries)))
  {
    RetentionConserves(p, entries);
  }

  /** A second run at the same clock deletes nothing. */
  lemma RerunDeletesNothing(p: Policy, entries: seq<Entry>)
    requires DistinctNames(entries)
    ensures Victims(p, Survivors(p, entries)) == []
  {
    var files, left := Backups(entries), Survivors(p, entries);
    SurvivorsMembers(p, entries);
    FilterMembers((e: Entry) => TooOld(p, e), files);
    if p.retainDays > 0.0 {
      forall i | 0 <= i < |left| ensures !TooOld(p, left[i]) {
        assert left[i] in left;
        assert left[i] !in Aged(p, files);
      }
      FilterNone((e: Entry) => TooOld(p, e), left);
    }
    assert Aged(p, left) == [];
    if p.maxSizeMb > 0.0 {
      CapIsTight(p, entries);
      AgedPlusRecent(p, left);
      var sorted := OldestFirst(Recent(p, left));
      SortTotal((e: Entry) => e.mtime, Recent(p, left));
      assert sorted[0..] == sorted;
    }
  }
}
