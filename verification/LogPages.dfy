/** Pages of a user's audit log: newest entries first, over the current file and its rotated
    predecessors. Compressed files are read whole, plain ones through the backwards reader. */
module LogPages {
  import opened Prelude
  import opened ConversationLog

  /** A log file and the text it decodes to. */
  datatype LogFile = LogFile(compressed: bool, text: string)

  const MAX_PER_PAGE := 200

  /** The entries of the lines that parse; blank and malformed lines are skipped. */
  function Entries<E>(parse: Line -> Option<E>, lines: seq<Line>): (r: seq<E>)
    ensures |r| <= |lines|
  {
    if lines == [] then []
    else
      var rest := Entries(parse, lines[1..]);
      if !Blank(lines[0]) && parse(lines[0]).Some? then [parse(lines[0]).value] + rest else rest
  }

  /** How many lines have no entry. */
  function Skipped<E>(parse: Line -> Option<E>, lines: seq<Line>): nat {
    |lines| - |Entries(parse, lines)|
  }

  lemma {:induction false} EntriesConcat<E>(parse: Line -> Option<E>, s: seq<Line>, t: seq<Line>)
    ensures Entries(parse, s + t) == Entries(parse, s) + Entries(parse, t)
  {
    var all := s + t;
    if s == [] {
      assert all == t;
    } else {
      assert all[0] == s[0] && all[1..] == s[1..] + t;
      EntriesConcat(parse, s[1..], t);
    }
  }

  /** The lines of a file, as text mode reads them. For what the writer appended these are the
      written lines (`WrittenFile`). */
  function FileLines(f: LogFile): seq<Line> { Split(AtNewlines, f.text) }

  lemma WrittenFile(lines: seq<Line>, compressed: bool)
    requires forall l :: l in lines ==> Unbroken(AtNewlines, l)
    ensures FileLines(LogFile(compressed, Join(lines))) == lines
  {
    SplitJoin(AtNewlines, lines);
  }

  function NewestLines(f: LogFile): seq<Line> { Reverse(FileLines(f)) }

  /** A file's entries, newest first. */
  function FileEntries<E>(parse: Line -> Option<E>, f: LogFile): seq<E> {
    Entries(parse, NewestLines(f))
  }

  /** The whole log, newest first. */
  function FullLog<E>(parse: Line -> Option<E>, files: seq<LogFile>): seq<E> {
    if files == [] then []
    else FullLog(parse, files[..|files| - 1]) + FileEntries(parse, files[|files| - 1])
  }

  /** No line is blank or holds a character at which only the backwards reader breaks. */
  ghost predicate Intact(f: LogFile) {
    forall l :: l in FileLines(f) ==> !Blank(l) && Unbroken(AtBreaks, l)
  }

  ghost predicate PlainIntact(files: seq<LogFile>) {
    forall f :: f in files && !f.compressed ==> Intact(f)
  }

  /** Plain files are intact and hold at most `slack` lines that do not parse. */
  ghost predicate Readable<E>(parse: Line -> Option<E>, files: seq<LogFile>, slack: nat) {
    PlainIntact(files) && forall f :: f in files && !f.compressed ==> Skipped(parse, FileLines(f)) <= slack
  }

  lemma {:induction false} SkippedReverse<E>(parse: Line -> Option<E>, lines: seq<Line>)
    ensures Skipped(parse, Reverse(lines)) == Skipped(parse, lines)
  {
    if lines != [] {
      SkippedReverse(parse, lines[1..]);
      EntriesConcat(parse, Reverse(lines[1..]), [lines[0]]);
    }
  }

  lemma {:induction false} ReverseLastN<T>(s: seq<T>, n: nat)
    ensures Reverse(LastN(s, n)) == FirstN(Reverse(s), n)
  {
    var a, b := Reverse(LastN(s, n)), FirstN(Reverse(s), n);
    assert |a| == |b|;
    assert forall i :: 0 <= i < |a| ==> a[i] == s[|s| - 1 - i] == b[i];
  }

  /** What a bounded read of a plain file contributes. */
  function TailEntries<E>(parse: Line -> Option<E>, f: LogFile, want: nat): seq<E> {
    Entries(parse, Reverse(TailLines(Encode(f.text), want, CHUNK_SIZE)))
  }

  /** A bounded read of an intact file returns its newest lines. */
  lemma IntactTail(f: LogFile, want: nat)
    requires Intact(f)
    ensures TailLines(Encode(f.text), want, CHUNK_SIZE) == LastN(FileLines(f), want)
  {
    SplittingsAgree(f.text);
    ReaderIsCorrect(f.text, want, CHUNK_SIZE);
    LastNonBlankOfWhole(f.text, want);
  }

  /** Reading fewer of the newest lines gives the first of the entries. */
  lemma NewestEntries<E>(parse: Line -> Option<E>, lines: seq<Line>, n: nat)
    ensures Entries(parse, FirstN(lines, n)) <= Entries(parse, lines)
    ensures Skipped(parse, FirstN(lines, n)) <= Skipped(parse, lines)
  {
    var head := FirstN(lines, n);
    assert lines == head + lines[|head|..];
    EntriesConcat(parse, head, lines[|head|..]);
  }

  lemma TailEntriesAreNewest<E>(parse: Line -> Option<E>, f: LogFile, want: nat)
    requires Intact(f)
    ensures TailEntries(parse, f, want) == Entries(parse, FirstN(NewestLines(f), want))
    ensures TailEntries(parse, f, want) <= FileEntries(parse, f)
  {
    IntactTail(f, want);
    ReverseLastN(FileLines(f), want);
    NewestEntries(parse, NewestLines(f), want);
  }

  /** The first m entries collected are the first m of the full log. */
  ghost predicate UpTo<E>(collected: seq<E>, full: seq<E>, m: nat) {
    FirstN(collected, m) == FirstN(full, m)
  }

  lemma UpToExtends<E>(collected: seq<E>, full: seq<E>, part: seq<E>, all: seq<E>, m: nat)
    requires UpTo(collected, full, m) && part <= all
    requires part == all || |collected| + |part| >= m
    ensures UpTo(collected + part, full + all, m)
  {
    if |collected| >= m {
      assert FirstN(collected + part, m) == FirstN(collected, m);
      assert |full| >= m;
      assert FirstN(full + all, m) == FirstN(full, m);
    } else {
      assert collected == full;
      if part != all {
        assert FirstN(collected + part, m) == FirstN(full + all, m);
      }
    }
  }

  function ClampPerPage(perPage: int): nat { Min(Max(1, perPage), MAX_PER_PAGE) }

  function ClampPage(page: int): nat { Max(1, page) }

  /** One page more than needed is collected, to see whether a further page exists. */
  function Want(p: nat, pp: nat): nat { p * pp + pp }

  /** What the unfiltered branch collects while it has fewer than `want` entries. */
  function Collected<E>(parse: Line -> Option<E>, files: seq<LogFile>, want: nat): seq<E> {
    if files == [] then []
    else CollectFrom(parse, Collected(parse, files[..|files| - 1], want), files[|files| - 1], want)
  }

  function CollectFrom<E>(parse: Line -> Option<E>, prev: seq<E>, f: LogFile, want: nat): seq<E> {
    if |prev| >= want then prev else prev + PartOf(parse, f, want - |prev|)
  }

  /** What a file contributes when `want` more entries are asked for: compressed files give all. */
  function PartOf<E>(parse: Line -> Option<E>, f: LogFile, want: nat): seq<E> {
    if f.compressed then FileEntries(parse, f) else TailEntries(parse, f, want)
  }

  method ReadPart<E>(parse: Line -> Option<E>, f: LogFile, want: nat) returns (part: seq<E>)
    requires 1 <= want
    ensures part == PartOf(parse, f, want)
  {
    if f.compressed {
      part := Entries(parse, Reverse(Split(AtNewlines, f.text)));
    } else {
      var raw := ReverseRead(Encode(f.text), want, CHUNK_SIZE);
      part := Entries(parse, Reverse(raw));
    }
  }

  lemma CollectedNext<E>(parse: Line -> Option<E>, files: seq<LogFile>, i: nat, want: nat)
    requires i < |files|
    ensures Collected(parse, files[..i + 1], want)
         == CollectFrom(parse, Collected(parse, files[..i], want), files[i], want)
  {
    var upTo := files[..i + 1];
    assert upTo[..|upTo| - 1] == files[..i] && upTo[|upTo| - 1] == files[i];
  }

  lemma {:induction false} CollectedStops<E>(parse: Line -> Option<E>, files: seq<LogFile>, i: nat, want: nat)
    requires i <= |files| && |Collected(parse, files[..i], want)| >= want
    ensures Collected(parse, files, want) == Collected(parse, files[..i], want)
  {
    if i == |files| {
      assert files[..i] == files;
    } else {
      assert files[..|files| - 1][..i] == files[..i];
      CollectedStops(parse, files[..|files| - 1], i, want);
    }
  }

  lemma NothingCollected<E>(parse: Line -> Option<E>, want: nat)
    ensures Collected(parse, [], want) == []
  {
  }

  /** The collecting loop: files are read newest first until enough entries are there. */
  method Collect<E>(parse: Line -> Option<E>, files: seq<LogFile>, want: nat) returns (collected: seq<E>)
    ensures collected == Collected(parse, files, want)
  {
    hide Collected, PartOf;
    collected := [];
    NothingCollected(parse, want);
    assert files[..0] == [];
    var i := 0;
    while i < |files| && |collected| < want
      invariant 0 <= i <= |files|
      invariant collected == Collected(parse, files[..i], want)
    {
      CollectedNext(parse, files, i, want);
      var part := ReadPart(parse, files[i], want - |collected|);
      collected := collected + part;
      i := i + 1;
    }
    if i == |files| {
      assert files[..i] == files;
    } else {
      CollectedStops(parse, files, i, want);
    }
  }

  /** Page p of a list, counted from 1. */
  function PageOf<T>(s: seq<T>, p: nat, pp: nat): seq<T>
    requires 1 <= p
  {
    PageBounds(p, pp);
    Slice(s, (p - 1) * pp, p * pp)
  }

  /** `entries` are those of page p, counted from 1, when pp entries make a page. */
  ghost predicate IsPage<T>(list: seq<T>, p: nat, pp: nat, entries: seq<T>)
    requires 1 <= p
  {
    var start := (p - 1) * pp;
    && |entries| == Max(0, Min(pp, |list| - start))
    && forall x :: 0 <= x < |entries| ==> start + x < |list| && entries[x] == list[start + x]
  }

  lemma PageIsPage<T>(list: seq<T>, p: nat, pp: nat)
    requires 1 <= p
    ensures IsPage(list, p, pp, PageOf(list, p, pp))
  {
    PageBounds(p, pp);
  }

  /** Page p with pp entries, and the number of entries collected for it. */
  method ReadPage<E>(parse: Line -> Option<E>, files: seq<LogFile>, p: nat, pp: nat)
    returns (entries: seq<E>, total: nat)
    requires 1 <= p
    ensures entries == PageOf(Collected(parse, files, Want(p, pp)), p, pp)
    ensures total == |Collected(parse, files, Want(p, pp))|
  {
    var collected := Collect(parse, files, Want(p, pp));
    total := |collected|;
    entries := PageOf(collected, p, pp);
  }

  /** The unfiltered branch: page numbers start at 1 and pages hold 1 to 200 entries. */
  method ReadUnfiltered<E>(parse: Line -> Option<E>, files: seq<LogFile>, page: int, perPage: int)
    returns (entries: seq<E>, total: nat)
    ensures var pp, p := ClampPerPage(perPage), ClampPage(page);
            && entries == PageOf(Collected(parse, files, Want(p, pp)), p, pp)
            && total == |Collected(parse, files, Want(p, pp))|
    ensures IsPage(Collected(parse, files, Want(ClampPage(page), ClampPerPage(perPage))),
                   Max(1, page), Min(Max(1, perPage), 200), entries)
  {
    PageIsPage(Collected(parse, files, Want(ClampPage(page), ClampPerPage(perPage))), ClampPage(page), ClampPerPage(perPage));
    entries, total := ReadPage(parse, files, ClampPage(page), ClampPerPage(perPage));
  }

  lemma PageBounds(p: nat, pp: nat)
    requires 1 <= p
    ensures 0 <= (p - 1) * pp <= p * pp == (p - 1) * pp + pp
  {
  }

  // ------------------------------------------------------------ when a page is right

  /** The newest lines of a plain file, as many as are read when c entries are there already, hold
      all the entries that are still missing up to position `end`, or all the file has. Files
      behind that position and compressed ones need nothing. */
  ghost predicate Covers<E>(parse: Line -> Option<E>, f: LogFile, c: nat, end: nat, want: nat)
    requires end <= want
  {
    !f.compressed && c < end ==>
      |Entries(parse, FirstN(NewestLines(f), want - c))| >= Min(end - c, |FileEntries(parse, f)|)
  }

  /** Every file covers what the files before it leave open. */
  ghost predicate AllCover<E>(parse: Line -> Option<E>, files: seq<LogFile>, end: nat, want: nat)
    requires end <= want
  {
    files == [] ||
    (var front, f := files[..|files| - 1], files[|files| - 1];
     AllCover(parse, front, end, want) && Covers(parse, f, |FullLog(parse, front)|, end, want))
  }

  lemma PlainIntactParts(files: seq<LogFile>)
    requires files != [] && PlainIntact(files)
    ensures PlainIntact(files[..|files| - 1])
    ensures !files[|files| - 1].compressed ==> Intact(files[|files| - 1])
  {
    assert files[|files| - 1] in files;
  }

  lemma PartIsPrefix<E>(parse: Line -> Option<E>, f: LogFile, want: nat)
    requires !f.compressed ==> Intact(f)
    ensures PartOf(parse, f, want) <= FileEntries(parse, f)
  {
    if !f.compressed {
      TailEntriesAreNewest(parse, f, want);
    }
  }

  lemma PartCovers<E>(parse: Line -> Option<E>, f: LogFile, c: nat, end: nat, want: nat)
    requires c < end <= want && Covers(parse, f, c, end, want)
    requires !f.compressed ==> Intact(f)
    ensures var part := PartOf(parse, f, want - c);
            part == FileEntries(parse, f) || c + |part| >= end
  {
    hide Entries, FirstN, NewestLines, TailLines;
    PartIsPrefix(parse, f, want - c);
    if !f.compressed {
      TailEntriesAreNewest(parse, f, want - c);
    }
  }

  lemma UpToShort<E>(collected: seq<E>, full: seq<E>, m: nat)
    requires UpTo(collected, full, m)
    ensures |full| < m ==> collected == full
    ensures |full| >= m ==> |collected| >= m
  {
    assert |FirstN(full, m)| == |FirstN(collected, m)|;
  }

  lemma CoveredStep<E>(parse: Line -> Option<E>, prev: seq<E>, full: seq<E>, f: LogFile, end: nat, want: nat)
    requires end <= want && UpTo(prev, full, end)
    requires !f.compressed ==> Intact(f)
    requires Covers(parse, f, |full|, end, want)
    ensures UpTo(CollectFrom(parse, prev, f, want), full + FileEntries(parse, f), end)
  {
    hide UpTo, PartOf, FileEntries, Covers;
    UpToShort(prev, full, end);
    if |prev| >= want {
      UpToExtends(prev, full, [], FileEntries(parse, f), end);
      assert prev + [] == prev;
    } else {
      PartIsPrefix(parse, f, want - |prev|);
      if |full| < end {
        PartCovers(parse, f, |prev|, end, want);
      }
      UpToExtends(prev, full, PartOf(parse, f, want - |prev|), FileEntries(parse, f), end);
    }
  }

  /** If every file covers its share, collecting gives the first `end` entries of the full log. */
  lemma {:induction false} CollectedUpTo<E>(parse: Line -> Option<E>, files: seq<LogFile>, end: nat, want: nat)
    requires end <= want && PlainIntact(files) && AllCover(parse, files, end, want)
    ensures UpTo(Collected(parse, files, want), FullLog(parse, files), end)
  {
    if files != [] {
      var front, f := files[..|files| - 1], files[|files| - 1];
      PlainIntactParts(files);
      CollectedUpTo(parse, front, end, want);
      CoveredStep(parse, Collected(parse, front, want), FullLog(parse, front), f, end, want);
    }
  }

  /** From position d on, everything collected stands further behind in the full log. */
  ghost predicate Shifted<E>(collected: seq<E>, full: seq<E>, d: nat) {
    && d <= |collected| < |full|
    && forall x :: d <= x < |collected| ==> collected[x] in full[x + 1..]
  }

  lemma ShiftedExtends<E>(collected: seq<E>, full: seq<E>, part: seq<E>, all: seq<E>, d: nat)
    requires Shifted(collected, full, d) && part <= all
    ensures Shifted(collected + part, full + all, d)
  {
    var c, w := collected + part, full + all;
    forall x | d <= x < |c| ensures c[x] in w[x + 1..] {
      if x < |collected| {
        assert w[x + 1..] == full[x + 1..] + all;
      } else {
        var y := |full| + (x - |collected|);
        assert c[x] == part[x - |collected|] == all[x - |collected|] == w[y];
        assert w[x + 1..][y - x - 1] == w[y];
      }
    }
  }

  lemma LossStep<E>(parse: Line -> Option<E>, prev: seq<E>, full: seq<E>, f: LogFile, end: nat, want: nat)
    returns (d: nat)
    requires end <= want && UpTo(prev, full, end)
    requires !f.compressed ==> Intact(f)
    requires !Covers(parse, f, |full|, end, want)
    ensures d < end && Shifted(CollectFrom(parse, prev, f, want), full + FileEntries(parse, f), d)
  {
    hide Entries, UpTo, FirstN, NewestLines, TailLines, FullLog, Collected;
    UpToShort(prev, full, end);
    TailEntriesAreNewest(parse, f, want - |prev|);
    d := |CollectFrom(parse, prev, f, want)|;
  }

  lemma ShiftStep<E>(parse: Line -> Option<E>, prev: seq<E>, full: seq<E>, f: LogFile, want: nat, d: nat)
    requires Shifted(prev, full, d)
    requires !f.compressed ==> Intact(f)
    ensures Shifted(CollectFrom(parse, prev, f, want), full + FileEntries(parse, f), d)
  {
    hide Shifted, PartOf, FileEntries;
    if |prev| >= want {
      ShiftedExtends(prev, full, [], FileEntries(parse, f), d);
      assert prev + [] == prev;
    } else {
      PartIsPrefix(parse, f, want - |prev|);
      ShiftedExtends(prev, full, PartOf(parse, f, want - |prev|), FileEntries(parse, f), d);
    }
  }

  /** Where a file does not cover its share, an entry before `end` is missing for good. */
  lemma {:induction false} LossShifts<E>(parse: Line -> Option<E>, files: seq<LogFile>, end: nat, want: nat)
    returns (d: nat)
    requires end <= want && PlainIntact(files) && !AllCover(parse, files, end, want)
    ensures d < end && Shifted(Collected(parse, files, want), FullLog(parse, files), d)
  {
    var front, f := files[..|files| - 1], files[|files| - 1];
    PlainIntactParts(files);
    if AllCover(parse, front, end, want) {
      CollectedUpTo(parse, front, end, want);
      d := LossStep(parse, Collected(parse, front, want), FullLog(parse, front), f, end, want);
    } else {
      d := LossShifts(parse, front, end, want);
      ShiftStep(parse, Collected(parse, front, want), FullLog(parse, front), f, want, d);
    }
  }

  lemma SliceItem<T>(s: seq<T>, a: nat, b: nat, i: nat)
    requires a <= i < b
    ensures |Slice(s, a, b)| > i - a <==> |s| > i
    ensures |s| > i ==> Slice(s, a, b)[i - a] == s[i]
  {
  }

  lemma NotRepeated<T>(s: seq<T>, i: nat)
    requires Distinct(s) && i < |s|
    ensures s[i] !in s[i + 1..]
  {
  }

  lemma ShiftedSlice<E>(collected: seq<E>, full: seq<E>, d: nat, a: nat, b: nat)
    requires Shifted(collected, full, d) && Distinct(full) && a < b && d < b
    ensures Slice(collected, a, b) == Slice(full, a, b) <==> |full| <= a
  {
    if a < |full| {
      hide Slice;
      var x := Max(a, d);
      SliceItem(full, a, b, x);
      SliceItem(collected, a, b, x);
      NotRepeated(full, x);
    }
  }

  /** For logs whose entries differ pairwise (each carries its own request id): a page is the right
      slice of the newest-first log over all files exactly when it lies behind the end of the log,
      or every file covers its share. */
  lemma PageIsExact<E>(parse: Line -> Option<E>, files: seq<LogFile>, p: nat, pp: nat)
    requires 1 <= p && 1 <= pp && PlainIntact(files)
    requires Distinct(FullLog(parse, files))
    ensures PageOf(Collected(parse, files, Want(p, pp)), p, pp) == PageOf(FullLog(parse, files), p, pp)
            <==> |FullLog(parse, files)| <= (p - 1) * pp || AllCover(parse, files, p * pp, Want(p, pp))
  {
    PageBounds(p, pp);
    if AllCover(parse, files, p * pp, Want(p, pp)) {
      CollectedUpTo(parse, files, p * pp, Want(p, pp));
      SliceOfPrefix(Collected(parse, files, Want(p, pp)), FullLog(parse, files), (p - 1) * pp, p * pp);
    } else {
      var d := LossShifts(parse, files, p * pp, Want(p, pp));
      ShiftedSlice(Collected(parse, files, Want(p, pp)), FullLog(parse, files), d, (p - 1) * pp, p * pp);
    }
  }

  // ------------------------------------------------------------ a simple sufficient condition

  lemma FewSkippedCover<E>(parse: Line -> Option<E>, f: LogFile, c: nat, end: nat, want: nat)
    requires end <= want
    requires !f.compressed ==> Skipped(parse, FileLines(f)) <= want - end
    ensures Covers(parse, f, c, end, want)
  {
    if !f.compressed && c < end {
      var newest := NewestLines(f);
      SkippedReverse(parse, FileLines(f));
      NewestEntries(parse, newest, want - c);
      if |newest| <= want - c {
        assert FirstN(newest, want - c) == newest;
      }
    }
  }

  lemma {:induction false} ReadableCovers<E>(parse: Line -> Option<E>, files: seq<LogFile>, end: nat, want: nat)
    requires end <= want && Readable(parse, files, want - end)
    ensures AllCover(parse, files, end, want)
  {
    if files != [] {
      var front, f := files[..|files| - 1], files[|files| - 1];
      assert f in files;
      ReadableCovers(parse, front, end, want);
      FewSkippedCover(parse, f, |FullLog(parse, front)|, end, want);
    }
  }

  /** With at most one page of malformed lines in each plain file, every page is the right slice of
      the newest-first log. */
  lemma PageIsSlice<E>(parse: Line -> Option<E>, files: seq<LogFile>, p: nat, pp: nat)
    requires 1 <= p && Readable(parse, files, pp)
    ensures PageOf(Collected(parse, files, Want(p, pp)), p, pp) == PageOf(FullLog(parse, files), p, pp)
  {
    PageBounds(p, pp);
    ReadableCovers(parse, files, p * pp, Want(p, pp));
    CollectedUpTo(parse, files, p * pp, Want(p, pp));
    SliceOfPrefix(Collected(parse, files, Want(p, pp)), FullLog(parse, files), (p - 1) * pp, p * pp);
  }

  lemma ReadableIsIntact<E>(parse: Line -> Option<E>, files: seq<LogFile>, slack: nat)
    requires Readable(parse, files, slack)
    ensures PlainIntact(files)
  {
  }

  /** With fewer malformed lines than that, the returned total exceeds the end of the page exactly
      when the log has a further page. */
  lemma TotalTellsFurtherPage<E>(parse: Line -> Option<E>, files: seq<LogFile>, p: nat, pp: nat)
    requires 1 <= p && 1 <= pp && Readable(parse, files, pp - 1)
    ensures |Collected(parse, files, Want(p, pp))| > p * pp <==> |FullLog(parse, files)| > p * pp
  {
    hide Collected, FullLog, Readable, AllCover;
    ReadableIsIntact(parse, files, pp - 1);
    ReadableCovers(parse, files, p * pp + 1, Want(p, pp));
    CollectedUpTo(parse, files, p * pp + 1, Want(p, pp));
    var c, full := Collected(parse, files, Want(p, pp)), FullLog(parse, files);
    assert |FirstN(c, p * pp + 1)| == |FirstN(full, p * pp + 1)|;
  }

  // ------------------------------------------------------------ the filtered branch

  /** All entries in file order, oldest line first within a file. */
  function AllEntries<E>(parse: Line -> Option<E>, files: seq<LogFile>): seq<E> {
    if files == [] then []
    else AllEntries(parse, files[..|files| - 1]) + Entries(parse, FileLines(files[|files| - 1]))
  }

  /** The matching entries, newest time stamp first. */
  function Matching<E>(parse: Line -> Option<E>, passes: E -> bool, ts: E -> real, files: seq<LogFile>): seq<E> {
    Sort(e => -ts(e), Filter(passes, AllEntries(parse, files)))
  }

  /** The entries of one file that pass, appended in line order. */
  method AppendPassing<E>(parse: Line -> Option<E>, passes: E -> bool, raw: seq<Line>, before: seq<E>)
    returns (all: seq<E>)
    ensures all == before + Filter(passes, Entries(parse, raw))
  {
    hide Blank;
    all := before;
    var j := 0;
    while j < |raw|
      invariant 0 <= j <= |raw|
      invariant all == before + Filter(passes, Entries(parse, raw[..j]))
    {
      assert raw[..j + 1] == raw[..j] + [raw[j]];
      EntriesConcat(parse, raw[..j], [raw[j]]);
      FilterConcat(passes, Entries(parse, raw[..j]), Entries(parse, [raw[j]]));
      if !Blank(raw[j]) {
        var e := parse(raw[j]);
        if e.Some? && passes(e.value) {
          all := all + [e.value];
        }
      }
      j := j + 1;
    }
    assert raw[..j] == raw;
  }

  /** Where an entry stands: in which file and on which line. */
  datatype Place = Place(file: nat, line: nat)

  predicate Before(a: Place, b: Place) { a.file < b.file || (a.file == b.file && a.line < b.line) }

  /** The line is not blank and parses to the entry. */
  predicate Holds<E(==)>(parse: Line -> Option<E>, l: Line, e: E) { !Blank(l) && parse(l) == Some(e) }

  predicate HoldsAt<E(==)>(parse: Line -> Option<E>, files: seq<LogFile>, p: Place, e: E) {
    p.file < |files| && p.line < |FileLines(files[p.file])| && Holds(parse, FileLines(files[p.file])[p.line], e)
  }

  ghost predicate Named(at: seq<Place>, p: Place) { exists x :: 0 <= x < |at| && at[x] == p }

  /** The list holds, for every line of the files that holds a passing entry, this entry once; `at`
      says where each comes from. */
  ghost predicate Lists<E(!new)>(parse: Line -> Option<E>, passes: E -> bool, files: seq<LogFile>,
                                 list: seq<E>, at: seq<Place>)
  {
    && |at| == |list| && Distinct(at)
    && (forall x :: 0 <= x < |list| ==> HoldsAt(parse, files, at[x], list[x]) && passes(list[x]))
    && (forall p, e :: HoldsAt(parse, files, p, e) && passes(e) ==> Named(at, p))
  }

  /** Time stamps do not increase along the list, and equal ones keep the order of the files. */
  ghost predicate NewestFirst<E>(ts: E -> real, list: seq<E>, at: seq<Place>)
    requires |at| == |list|
  {
    forall x, y :: 0 <= x < y < |list| ==>
      ts(list[x]) > ts(list[y]) || (ts(list[x]) == ts(list[y]) && Before(at[x], at[y]))
  }

  ghost predicate InFileOrder(at: seq<Place>) {
    forall x, y :: 0 <= x < y < |at| ==> Before(at[x], at[y])
  }

  function PassingLine<E>(parse: Line -> Option<E>, passes: E -> bool): Line -> bool {
    (l: Line) => !Blank(l) && parse(l).Some? && passes(parse(l).value)
  }

  /** Line by line, the passing entries are those of the lines that hold one. */
  lemma {:induction false} PassingEntries<E>(parse: Line -> Option<E>, passes: E -> bool, lines: seq<Line>)
    ensures var kept := Filter(PassingLine(parse, passes), lines); var r := Filter(passes, Entries(parse, lines));
            |r| == |kept| && forall x :: 0 <= x < |r| ==> Holds(parse, kept[x], r[x]) && passes(r[x])
  {
    if lines != [] {
      hide Blank;
      PassingEntries(parse, passes, lines[1..]);
      var rest := Entries(parse, lines[1..]);
      if !Blank(lines[0]) && parse(lines[0]).Some? {
        assert ([parse(lines[0]).value] + rest)[1..] == rest;
      }
    }
  }

  function Placed(file: nat, at: seq<nat>): (r: seq<Place>)
    ensures |r| == |at| && forall x :: 0 <= x < |at| ==> r[x] == Place(file, at[x])
  {
    seq(|at|, x requires 0 <= x < |at| => Place(file, at[x]))
  }

  lemma PlacesOfFile<E>(parse: Line -> Option<E>, passes: E -> bool, f: LogFile) returns (at: seq<nat>)
    ensures var r := Filter(passes, Entries(parse, FileLines(f)));
            && |at| == |r| && Ascending(at)
            && (forall x :: 0 <= x < |r| ==>
                  at[x] < |FileLines(f)| && Holds(parse, FileLines(f)[at[x]], r[x]) && passes(r[x]))
    ensures forall i: nat, e :: i < |FileLines(f)| && Holds(parse, FileLines(f)[i], e) && passes(e) ==> Has(at, i)
  {
    hide Blank, Filter, Entries, FileLines;
    PassingEntries(parse, passes, FileLines(f));
    at := FilterAt(PassingLine(parse, passes), FileLines(f));
  }

  lemma HoldsInFront<E>(parse: Line -> Option<E>, files: seq<LogFile>, p: Place, e: E)
    requires files != []
    ensures p.file < |files| - 1 ==>
              (HoldsAt(parse, files, p, e) <==> HoldsAt(parse, files[..|files| - 1], p, e))
    ensures HoldsAt(parse, files, p, e) && p.file >= |files| - 1 ==>
              && p.file == |files| - 1 && p.line < |FileLines(files[|files| - 1])|
              && Holds(parse, FileLines(files[|files| - 1])[p.line], e)
  {
  }

  lemma NamedConcat(a: seq<Place>, b: seq<Place>, p: Place)
    ensures Named(a + b, p) <==> Named(a, p) || Named(b, p)
  {
    if Named(a, p) {
      var x :| 0 <= x < |a| && a[x] == p;
      assert (a + b)[x] == p;
    }
    if Named(b, p) {
      var x :| 0 <= x < |b| && b[x] == p;
      assert (a + b)[|a| + x] == p;
    }
    if Named(a + b, p) {
      var x :| 0 <= x < |a + b| && (a + b)[x] == p;
      assert x >= |a| ==> b[x - |a|] == p;
    }
  }

  lemma NamedPlaced(file: nat, at: seq<nat>, i: nat)
    ensures Has(at, i) ==> Named(Placed(file, at), Place(file, i))
  {
    if Has(at, i) {
      var x :| 0 <= x < |at| && at[x] == i;
      assert Placed(file, at)[x] == Place(file, i);
    }
  }

  lemma OrderedConcat(a: seq<Place>, b: seq<Place>, k: nat)
    requires InFileOrder(a) && InFileOrder(b)
    requires forall x :: 0 <= x < |a| ==> a[x].file < k
    requires forall x :: 0 <= x < |b| ==> b[x].file == k
    ensures InFileOrder(a + b)
  {
  }

  /** The passing entries of all files in file order, each with its place. */
  lemma {:induction false} PlacesOfAll<E(!new)>(parse: Line -> Option<E>, passes: E -> bool, files: seq<LogFile>)
    returns (at: seq<Place>)
    ensures InFileOrder(at) && Lists(parse, passes, files, Filter(passes, AllEntries(parse, files)), at)
  {
    if files == [] {
      at := [];
    } else {
      var front, f := files[..|files| - 1], files[|files| - 1];
      var before := PlacesOfAll(parse, passes, front);
      var own := PlacesOfFile(parse, passes, f);
      at := before + Placed(|front|, own);
      FilterConcat(passes, AllEntries(parse, front), Entries(parse, FileLines(f)));
      ListsOneMore(parse, passes, files, Filter(passes, AllEntries(parse, front)), before,
                   Filter(passes, Entries(parse, FileLines(f))), own);
    }
  }

  lemma ListsOneMore<E(!new)>(parse: Line -> Option<E>, passes: E -> bool, files: seq<LogFile>,
                              list: seq<E>, before: seq<Place>, more: seq<E>, own: seq<nat>)
    requires files != [] && InFileOrder(before) && Lists(parse, passes, files[..|files| - 1], list, before)
    requires |own| == |more| && Ascending(own)
    requires var lines := FileLines(files[|files| - 1]);
             && (forall x :: 0 <= x < |more| ==>
                   own[x] < |lines| && Holds(parse, lines[own[x]], more[x]) && passes(more[x]))
             && forall i: nat, e :: i < |lines| && Holds(parse, lines[i], e) && passes(e) ==> Has(own, i)
    ensures InFileOrder(before + Placed(|files| - 1, own))
    ensures Lists(parse, passes, files, list + more, before + Placed(|files| - 1, own))
  {
    hide Holds, FileLines;
    var k := |files| - 1;
    var at, all := before + Placed(k, own), list + more;
    assert forall x :: 0 <= x < |before| ==> before[x].file < k by {
      assert forall x :: 0 <= x < |before| ==> HoldsAt(parse, files[..k], before[x], list[x]);
    }
    OrderedConcat(before, Placed(k, own), k);
    forall x | 0 <= x < |all| ensures HoldsAt(parse, files, at[x], all[x]) && passes(all[x]) {
      if x < |list| {
        assert at[x] == before[x] && all[x] == list[x];
        HoldsInFront(parse, files, before[x], list[x]);
      } else {
        assert all[x] == more[x - |list|];
      }
    }
    forall p, e | HoldsAt(parse, files, p, e) && passes(e) ensures Named(at, p) {
      HoldsInFront(parse, files, p, e);
      NamedConcat(before, Placed(k, own), p);
      NamedPlaced(k, own, p.line);
    }
  }

  function Any<E>(): E -> bool { (e: E) => true }

  ghost predicate NewestLineFirst(at: seq<Place>) {
    forall x, y :: 0 <= x < y < |at| ==>
      at[x].file < at[y].file || (at[x].file == at[y].file && at[x].line > at[y].line)
  }

  /** Places counted from the last of n lines. */
  function FromEnd(file: nat, n: nat, at: seq<nat>): (r: seq<Place>)
    requires forall x :: 0 <= x < |at| ==> at[x] < n
    ensures |r| == |at| && forall x :: 0 <= x < |at| ==> r[x] == Place(file, n - 1 - at[x])
  {
    seq(|at|, x requires 0 <= x < |at| => Place(file, n - 1 - at[x]))
  }

  lemma NewestPlaces<E>(parse: Line -> Option<E>, f: LogFile) returns (at: seq<nat>)
    ensures var r, newest := FileEntries(parse, f), NewestLines(f);
            && |at| == |r| && Ascending(at)
            && (forall x :: 0 <= x < |r| ==> at[x] < |newest| && Holds(parse, newest[at[x]], r[x]))
    ensures forall i: nat, e :: i < |NewestLines(f)| && Holds(parse, NewestLines(f)[i], e) ==> Has(at, i)
  {
    hide Blank, Entries, NewestLines;
    PassingEntries(parse, Any<E>(), NewestLines(f));
    FilterAll(Any<E>(), Entries(parse, NewestLines(f)));
    at := FilterAt(PassingLine(parse, Any<E>()), NewestLines(f));
  }

  lemma NamedFromEnd(file: nat, n: nat, at: seq<nat>, i: nat)
    requires i < n && forall x :: 0 <= x < |at| ==> at[x] < n
    ensures Has(at, n - 1 - i) ==> Named(FromEnd(file, n, at), Place(file, i))
  {
    if Has(at, n - 1 - i) {
      var x :| 0 <= x < |at| && at[x] == n - 1 - i;
      assert FromEnd(file, n, at)[x] == Place(file, i);
    }
  }

  /** The whole log holds every entry of every line once: the files in the order given, the lines of
      a file from its end. */
  lemma {:induction false} FullLogIsExact<E(!new)>(parse: Line -> Option<E>, files: seq<LogFile>)
    returns (at: seq<Place>)
    ensures Lists(parse, Any<E>(), files, FullLog(parse, files), at) && NewestLineFirst(at)
  {
    if files == [] {
      at := [];
    } else {
      var front, f := files[..|files| - 1], files[|files| - 1];
      var before := FullLogIsExact(parse, front);
      var own := NewestPlaces(parse, f);
      at := before + FromEnd(|front|, |FileLines(f)|, own);
      FullLogOneMore(parse, files, FullLog(parse, front), before, FileEntries(parse, f), own);
    }
  }

  lemma FullLogOneMore<E(!new)>(parse: Line -> Option<E>, files: seq<LogFile>,
                                list: seq<E>, before: seq<Place>, more: seq<E>, own: seq<nat>)
    requires files != [] && NewestLineFirst(before) && Lists(parse, Any<E>(), files[..|files| - 1], list, before)
    requires |own| == |more| && Ascending(own)
    requires var newest := NewestLines(files[|files| - 1]);
             && (forall x :: 0 <= x < |more| ==> own[x] < |newest| && Holds(parse, newest[own[x]], more[x]))
             && forall i: nat, e :: i < |newest| && Holds(parse, newest[i], e) ==> Has(own, i)
    ensures var n := |FileLines(files[|files| - 1])|; forall x :: 0 <= x < |own| ==> own[x] < n
    ensures var at := before + FromEnd(|files| - 1, |FileLines(files[|files| - 1])|, own);
            Lists(parse, Any<E>(), files, list + more, at) && NewestLineFirst(at)
  {
    hide Holds, FileLines;
    var k, n := |files| - 1, |FileLines(files[|files| - 1])|;
    var back := FromEnd(k, n, own);
    var at, all := before + back, list + more;
    EarlierFiles(parse, Any<E>(), files, list, before);
    NewestConcat(before, back, k);
    DistinctPlaces(at);
    forall x | 0 <= x < |all| ensures HoldsAt(parse, files, at[x], all[x]) {
      if x < |list| {
        assert at[x] == before[x] && all[x] == list[x];
        HoldsInFront(parse, files, before[x], list[x]);
      } else {
        assert all[x] == more[x - |list|] && at[x] == back[x - |list|];
        assert NewestLines(files[k])[own[x - |list|]] == FileLines(files[k])[at[x].line];
      }
    }
    forall p, e | HoldsAt(parse, files, p, e) ensures Named(at, p) {
      HoldsInFront(parse, files, p, e);
      NamedConcat(before, back, p);
      if p.file >= k {
        assert NewestLines(files[k])[n - 1 - p.line] == FileLines(files[k])[p.line];
        NamedFromEnd(k, n, own, p.line);
      }
    }
  }

  lemma EarlierFiles<E(!new)>(parse: Line -> Option<E>, passes: E -> bool, files: seq<LogFile>, list: seq<E>, at: seq<Place>)
    requires files != [] && Lists(parse, passes, files[..|files| - 1], list, at)
    ensures forall x :: 0 <= x < |at| ==> at[x].file < |files| - 1
  {
    hide Holds, FileLines;
    assert forall x :: 0 <= x < |at| ==> HoldsAt(parse, files[..|files| - 1], at[x], list[x]);
  }

  lemma NewestConcat(a: seq<Place>, b: seq<Place>, k: nat)
    requires NewestLineFirst(a) && NewestLineFirst(b)
    requires forall x :: 0 <= x < |a| ==> a[x].file < k
    requires forall x :: 0 <= x < |b| ==> b[x].file == k
    ensures NewestLineFirst(a + b)
  {
  }

  lemma DistinctPlaces(at: seq<Place>)
    requires NewestLineFirst(at)
    ensures Distinct(at)
  {
  }

  /** What the filtered branch sorts: every passing entry of every line once, newest first. */
  lemma MatchingIsExact<E(!new)>(parse: Line -> Option<E>, passes: E -> bool, ts: E -> real, files: seq<LogFile>)
    returns (at: seq<Place>)
    ensures Lists(parse, passes, files, Matching(parse, passes, ts, files), at)
    ensures NewestFirst(ts, Matching(parse, passes, ts, files), at)
  {
    var kept := Filter(passes, AllEntries(parse, files));
    var places := PlacesOfAll(parse, passes, files);
    var from := SortAt(e => -ts(e), kept);
    at := seq(|from|, x requires 0 <= x < |from| => places[from[x]]);
    ListsSorted(parse, passes, ts, files, kept, places, Matching(parse, passes, ts, files), from, at);
  }

  lemma ListsSorted<E(!new)>(parse: Line -> Option<E>, passes: E -> bool, ts: E -> real, files: seq<LogFile>,
                             kept: seq<E>, places: seq<Place>, sorted: seq<E>, from: seq<nat>, at: seq<Place>)
    requires InFileOrder(places) && Lists(parse, passes, files, kept, places)
    requires TakenAt(sorted, kept, from) && StablyOrdered(e => -ts(e), kept, from)
    requires forall i: nat :: i < |kept| ==> Has(from, i)
    requires |at| == |from| && forall x :: 0 <= x < |from| ==> at[x] == places[from[x]]
    ensures Lists(parse, passes, files, sorted, at) && NewestFirst(ts, sorted, at)
  {
    hide HoldsAt;
    var key := (e: E) => -ts(e);
    forall x, y | 0 <= x < y < |from|
      ensures ts(sorted[x]) > ts(sorted[y]) || (ts(sorted[x]) == ts(sorted[y]) && Before(at[x], at[y]))
      ensures at[x] != at[y]
    {
      assert key(kept[from[x]]) < key(kept[from[y]])
             || (key(kept[from[x]]) == key(kept[from[y]]) && from[x] < from[y]);
    }
    forall p, e | HoldsAt(parse, files, p, e) && passes(e) ensures Named(at, p) {
      var i :| 0 <= i < |places| && places[i] == p;
      assert Has(from, i);
      var x :| 0 <= x < |from| && from[x] == i;
      assert at[x] == p;
    }
  }

  /** The filtered branch: the page of the passing entries of all lines of all files, newest first;
      `list` are all of them and `at` says where they stand. */
  method ReadFiltered<E(!new)>(parse: Line -> Option<E>, passes: E -> bool, ts: E -> real,
                               files: seq<LogFile>, page: int, perPage: int)
    returns (entries: seq<E>, total: nat, ghost list: seq<E>, ghost at: seq<Place>)
    ensures Lists(parse, passes, files, list, at) && NewestFirst(ts, list, at)
    ensures total == |list|
    ensures IsPage(list, Max(1, page), Min(Max(1, perPage), 200), entries)
    ensures var found := Matching(parse, passes, ts, files);
            total == |found| && entries == PageOf(found, ClampPage(page), ClampPerPage(perPage))
  {
    var all: seq<E> := [];
    var i := 0;
    while i < |files|
      invariant 0 <= i <= |files|
      invariant all == Filter(passes, AllEntries(parse, files[..i]))
    {
      var raw := Split(AtNewlines, files[i].text);
      assert files[..i + 1][..i] == files[..i];
      FilterConcat(passes, AllEntries(parse, files[..i]), Entries(parse, raw));
      all := AppendPassing(parse, passes, raw, all);
      i := i + 1;
    }
    assert files[..i] == files;
    all := Sort(e => -ts(e), all);
    entries := PageOf(all, ClampPage(page), ClampPerPage(perPage));
    total := |all|;
    PageIsPage(all, ClampPage(page), ClampPerPage(perPage));
    list := all;
    at := MatchingIsExact(parse, passes, ts, files);
  }

  /** The pages 1..p concatenated. */
  function Pages<T>(log: seq<T>, p: nat, pp: nat): seq<T> {
    if p == 0 then []
    else Pages(log, p - 1, pp) + PageOf(log, p, pp)
  }

  /** Paging loses and repeats nothing: the first p pages are the first p * pp entries. */
  lemma {:induction false} PagesPartition<T>(log: seq<T>, p: nat, pp: nat)
    ensures Pages(log, p, pp) == FirstN(log, p * pp)
  {
    if p != 0 {
      PagesPartition(log, p - 1, pp);
      PageBounds(p, pp);
    }
  }
}
