/** The audit-log file: how the writer lays it out, how the chunked backwards reader takes it
    apart, and when the reader returns the last lines of the file.

    Two readers split the same text differently. A whole read goes through text mode, which
    breaks at CR, LF and CR LF; the backwards reader calls `str.splitlines`, which also breaks at
    eight further characters. The writer escapes control characters but leaves NEL, LS and PS raw,
    so one written line can become several read ones. */
module ConversationLog {
  import opened Prelude

  type Line = string

  datatype Splitting = AtNewlines | AtBreaks

  predicate IsFurtherBreak(c: char) {
    || '\U{000B}' <= c <= '\U{000C}' || '\U{001C}' <= c <= '\U{001E}'
    || c == '\U{0085}' || '\U{2028}' <= c <= '\U{2029}'
  }

  predicate Ends(how: Splitting, c: char) {
    c == '\n' || c == '\r' || (how.AtBreaks? && IsFurtherBreak(c))
  }

  predicate Unbroken(how: Splitting, l: Line) {
    forall i :: 0 <= i < |l| ==> !Ends(how, l[i])
  }

  /** The lines of a text without their ends: CR LF counts once, and a final break opens no
      further line. */
  function Split(how: Splitting, t: string): (lines: seq<Line>)
    ensures lines == [] <==> t == []
  {
    if t == [] then []
    else if t[0] == '\r' && |t| > 1 && t[1] == '\n' then Split(how, t[1..])
    else if Ends(how, t[0]) then [[]] + Split(how, t[1..])
    else if |t| == 1 then [t]
    else Prepend(t[0], Split(how, t[1..]))
  }

  function Prepend(c: char, lines: seq<Line>): seq<Line>
    requires lines != []
  {
    [[c] + lines[0]] + lines[1..]
  }

  /** What `str.strip` removes. */
  predicate IsSpace(c: char) {
    || '\t' <= c <= '\r' || '\U{001C}' <= c <= ' ' || c == '\U{0085}' || c == '\U{00A0}'
    || c == '\U{1680}' || '\U{2000}' <= c <= '\U{200A}' || '\U{2028}' <= c <= '\U{2029}'
    || c == '\U{202F}' || c == '\U{205F}' || c == '\U{3000}'
  }

  predicate Blank(l: Line) { forall i :: 0 <= i < |l| ==> IsSpace(l[i]) }

  function NonBlank(lines: seq<Line>): seq<Line> { Filter((l: Line) => !Blank(l), lines) }

  /** How the writer lays out a log: every entry is one line ended by a newline. */
  function Join(lines: seq<Line>): string {
    if lines == [] then [] else lines[0] + "\n" + Join(lines[1..])
  }

  // ------------------------------------------------------------ splitting

  lemma {:induction false} LinesAreUnbroken(how: Splitting, t: string)
    ensures forall l :: l in Split(how, t) ==> Unbroken(how, l)
  {
    if t != [] {
      LinesAreUnbroken(how, t[1..]);
      if |t| > 1 {
        var rest := Split(how, t[1..]);
        assert rest[0] in rest;
        assert forall l :: l in rest[1..] ==> l in rest;
      }
    }
  }

  lemma PrependConcat(c: char, x: seq<Line>, y: seq<Line>)
    requires x != []
    ensures Prepend(c, x + y) == Prepend(c, x) + y
  {
  }

  lemma PrependFirst(c: char, first: Line, rest: seq<Line>)
    ensures Prepend(c, [first] + rest) == [[c] + first] + rest
  {
  }

  lemma SplitStep(how: Splitting, c: char, t: string)
    requires !Ends(how, c)
    ensures Split(how, [c] + t) == if t == [] then [[c]] else Prepend(c, Split(how, t))
  {
    var all := [c] + t;
    assert all[0] == c && all[1..] == t && c != '\r';
    assert t == [] ==> all == [c];
  }

  lemma SplitEnd(how: Splitting, c: char, t: string)
    requires Ends(how, c)
    ensures Split(how, [c] + t) == if c == '\r' && t != [] && t[0] == '\n' then Split(how, t) else [[]] + Split(how, t)
  {
    var all := [c] + t;
    assert all[0] == c && all[1..] == t;
  }

  /** A newline is a clean border: what follows it is split on its own. */
  lemma {:induction false} SplitBehindNewline(how: Splitting, a: string, b: string)
    ensures Split(how, a + "\n" + b) == Split(how, a + "\n") + Split(how, b)
  {
    hide Split, Prepend;
    if a == [] {
      assert a + "\n" + b == ['\n'] + b && a + "\n" == ['\n'] + [];
      SplitEnd(how, '\n', b);
      SplitEnd(how, '\n', []);
      assert Split(how, []) == [];
    } else {
      var c, x, y := a[0], a[1..] + "\n", a[1..] + "\n" + b;
      assert a + "\n" + b == [c] + y && a + "\n" == [c] + x && x[0] == y[0];
      SplitBehindNewline(how, a[1..], b);
      if Ends(how, c) {
        SplitEnd(how, c, x);
        SplitEnd(how, c, y);
      } else {
        SplitStep(how, c, x);
        SplitStep(how, c, y);
        PrependConcat(c, Split(how, x), Split(how, b));
      }
    }
  }

  /** Characters that end no line go in front of the first line. */
  lemma {:induction false} SplitPrefixed(how: Splitting, r: string, t: string)
    requires Unbroken(how, r) && r + t != []
    ensures Split(how, r + t) == if t == [] then [r] else [r + Split(how, t)[0]] + Split(how, t)[1..]
  {
    hide Split;
    if r == [] {
      assert r + t == t;
      assert [] + Split(how, t)[0] == Split(how, t)[0];
    } else {
      var c, rest := r[0], r[1..] + t;
      assert r + t == [c] + rest && r == [c] + r[1..];
      SplitStep(how, c, rest);
      if rest != [] {
        SplitPrefixed(how, r[1..], t);
        if t != [] {
          Regroup([c], r[1..], Split(how, t)[0]);
          PrependFirst(c, r[1..] + Split(how, t)[0], Split(how, t)[1..]);
        }
      }
    }
  }

  lemma SplitOneLine(how: Splitting, l: Line)
    requires Unbroken(how, l)
    ensures Split(how, l + "\n") == [l]
  {
    SplitPrefixed(how, l, "\n");
    assert Split(how, "\n") == [[]];
    assert l + [] == l;
  }

  lemma SplitBehindLine(how: Splitting, l: Line, rest: string, t: string)
    requires Split(how, rest + t) == Split(how, rest) + Split(how, t)
    ensures Split(how, l + "\n" + rest + t) == Split(how, l + "\n" + rest) + Split(how, t)
  {
    hide Split;
    SplitBehindNewline(how, l, rest + t);
    SplitBehindNewline(how, l, rest);
    assert l + "\n" + rest + t == l + "\n" + (rest + t);
  }

  lemma {:induction false} SplitBehindLines(how: Splitting, lines: seq<Line>, t: string)
    ensures Split(how, Join(lines) + t) == Split(how, Join(lines)) + Split(how, t)
  {
    if lines == [] {
      assert Join(lines) + t == t;
    } else {
      hide Split;
      SplitBehindLines(how, lines[1..], t);
      SplitBehindLine(how, lines[0], Join(lines[1..]), t);
    }
  }

  /** Splitting undoes the writer's layout of lines that hold no break. */
  lemma {:induction false} SplitJoin(how: Splitting, lines: seq<Line>)
    requires forall l :: l in lines ==> Unbroken(how, l)
    ensures Split(how, Join(lines)) == lines
  {
    if lines != [] {
      SplitJoin(how, lines[1..]);
      SplitBehindNewline(how, lines[0], Join(lines[1..]));
      SplitOneLine(how, lines[0]);
    }
  }

  lemma {:induction false} JoinConcat(s: seq<Line>, t: seq<Line>)
    ensures Join(s + t) == Join(s) + Join(t)
  {
    if s == [] {
      assert s + t == t;
    } else {
      assert (s + t)[1..] == s[1..] + t;
      JoinConcat(s[1..], t);
    }
  }

  /** Both readers see the same lines if no line holds a further break. */
  lemma {:induction false} SplittingsAgree(t: string)
    requires forall l :: l in Split(AtNewlines, t) ==> Unbroken(AtBreaks, l)
    ensures Split(AtBreaks, t) == Split(AtNewlines, t)
  {
    var lines := Split(AtNewlines, t);
    if |t| == 1 {
      assert Split(AtNewlines, t[1..]) == [];
      assert lines[0] in lines;
    } else if |t| > 1 {
      var rest := Split(AtNewlines, t[1..]);
      if (t[0] == '\r' && t[1] == '\n') || Ends(AtNewlines, t[0]) {
        assert forall l :: l in rest ==> l in lines;
      } else {
        assert lines[0] in lines;
        assert lines[0][0] == t[0];
        forall l | l in rest ensures Unbroken(AtBreaks, l) {
          if l == rest[0] {
            assert forall i :: 0 <= i < |l| ==> l[i] == lines[0][i + 1];
          } else {
            assert l in lines[1..];
          }
        }
      }
      SplittingsAgree(t[1..]);
    }
  }

  // ------------------------------------------------------------ bytes

  /** A byte of a UTF-8 file: the first byte of a character, or a later one. */
  datatype Octet = Lead(c: char) | Continuation

  const REPLACEMENT: char := '\U{FFFD}'

  function Width(c: char): (w: nat)
    ensures 1 <= w <= 4
  {
    if c < '\U{0080}' then 1 else if c < '\U{0800}' then 2 else if c < '\U{10000}' then 3 else 4
  }

  function Encode(t: string): seq<Octet> {
    if t == [] then [] else [Lead(t[0])] + seq(Width(t[0]) - 1, _ => Continuation) + Encode(t[1..])
  }

  function Leads(b: seq<Octet>): string {
    if b == [] then []
    else if b[0].Lead? then [b[0].c] + Leads(b[1..])
    else Leads(b[1..])
  }

  function Stray(b: seq<Octet>): (r: string)
    ensures forall i :: 0 <= i < |r| ==> r[i] == REPLACEMENT
  {
    if b == [] || b[0].Lead? then [] else [REPLACEMENT] + Stray(b[1..])
  }

  /** Decoding the rest of a file from any byte: the later bytes of a character that was cut off
      become one replacement character each. */
  function Decode(b: seq<Octet>): string { Stray(b) + Leads(b) }

  lemma {:induction false} LeadsConcat(a: seq<Octet>, b: seq<Octet>)
    ensures Leads(a + b) == Leads(a) + Leads(b)
  {
    if a == [] {
      assert a + b == b;
    } else {
      assert (a + b)[1..] == a[1..] + b;
      LeadsConcat(a[1..], b);
    }
  }

  lemma {:induction false} LeadsOfContinuations(b: seq<Octet>)
    requires forall i :: 0 <= i < |b| ==> b[i].Continuation?
    ensures Leads(b) == []
  {
    if b != [] {
      LeadsOfContinuations(b[1..]);
    }
  }

  lemma {:induction false} LeadsOfEncoded(t: string)
    ensures Leads(Encode(t)) == t
  {
    if t != [] {
      var first, later := [Lead(t[0])], seq(Width(t[0]) - 1, _ => Continuation);
      LeadsOfEncoded(t[1..]);
      LeadsConcat(first + later, Encode(t[1..]));
      LeadsConcat(first, later);
      LeadsOfContinuations(later);
      assert Leads(first) == [t[0]];
    }
  }

  lemma DecodeEncode(t: string)
    ensures Decode(Encode(t)) == t
  {
    LeadsOfEncoded(t);
  }

  lemma {:induction false} EncodeConcat(s: string, t: string)
    ensures Encode(s + t) == Encode(s) + Encode(t)
  {
    if s == [] {
      assert s + t == t;
    } else {
      assert (s + t)[1..] == s[1..] + t;
      EncodeConcat(s[1..], t);
    }
  }

  // ------------------------------------------------------------ the backwards reader

  const CHUNK_SIZE := 65536

  /** The lines read when the file is known from byte k on. */
  function LinesFrom(file: seq<Octet>, k: nat): seq<Line>
    requires k <= |file|
  {
    Split(AtBreaks, Decode(file[k..]))
  }

  /** Where the reader stops: it moves back one chunk at a time until it has seen more than n
      lines or reached the start of the file. */
  function StopAt(file: seq<Octet>, n: nat, chunk: nat, remaining: nat): (k: nat)
    requires 1 <= chunk && remaining <= |file|
    ensures k <= remaining
    ensures k == 0 || |LinesFrom(file, k)| >= n + 1
    decreases remaining
  {
    if remaining > 0 && |LinesFrom(file, remaining)| < n + 1
    then StopAt(file, n, chunk, remaining - Min(chunk, remaining))
    else remaining
  }

  function TailLines(file: seq<Octet>, n: nat, chunk: nat): seq<Line>
    requires 1 <= chunk
  {
    LastN(NonBlank(LinesFrom(file, StopAt(file, n, chunk, |file|))), n)
  }

  lemma NothingRead(file: seq<Octet>)
    ensures LinesFrom(file, |file|) == [] && NonBlank([]) == []
  {
    assert file[|file|..] == [];
  }

  method ReverseRead(file: seq<Octet>, maxLines: nat, chunk: nat) returns (r: seq<Line>)
    requires 1 <= maxLines && 1 <= chunk
    ensures r == TailLines(file, maxLines, chunk)
  {
    hide Split, Decode, NonBlank;
    NothingRead(file);
    var lines: seq<Line> := [];
    var remaining := |file|;
    var buf: seq<Octet> := [];
    while remaining > 0 && |lines| < maxLines + 1
      invariant 0 <= remaining <= |file|
      invariant buf == file[remaining..] && lines == LinesFrom(file, remaining)
      invariant StopAt(file, maxLines, chunk, |file|) == StopAt(file, maxLines, chunk, remaining)
    {
      var readSize := Min(chunk, remaining);
      remaining := remaining - readSize;
      buf := file[remaining..remaining + readSize] + buf;
      assert buf == file[remaining..];
      lines := Split(AtBreaks, Decode(buf));
    }
    r := if lines != [] then LastN(NonBlank(lines), maxLines) else [];
  }

  // ------------------------------------------------------------ cutting a file

  /** The lines of the rest of a file: all but the first one are whole lines of the file. */
  predicate CutFrom(part: seq<Line>, whole: seq<Line>) {
    1 <= |part| <= |whole| && part[1..] == whole[|whole| - |part| + 1..]
  }

  lemma CutStep(part: seq<Line>, rest: seq<Line>, head: Line)
    requires CutFrom(part, rest)
    ensures CutFrom(part, [head] + rest)
    ensures CutFrom(part, [head] + rest[1..])
  {
    var longer, other := [head] + rest, [head] + rest[1..];
    assert longer[|longer| - |part| + 1..] == rest[|rest| - |part| + 1..];
    assert other[|other| - |part| + 1..] == rest[|rest| - |part| + 1..];
  }

  lemma {:induction false} CutText(t: string, k: nat)
    requires k < |t|
    ensures CutFrom(Split(AtBreaks, t[k..]), Split(AtBreaks, t))
  {
    if k == 0 {
      assert t[k..] == t;
    } else {
      CutText(t[1..], k - 1);
      assert t[1..][k - 1..] == t[k..];
      var part, rest, whole := Split(AtBreaks, t[k..]), Split(AtBreaks, t[1..]), Split(AtBreaks, t);
      if whole != rest {
        CutStep(part, rest, whole[0]);
      }
    }
  }

  lemma PrefixedCut(r: string, tail: string, whole: seq<Line>)
    requires Unbroken(AtBreaks, r) && r + tail != [] && whole != []
    requires tail != [] ==> CutFrom(Split(AtBreaks, tail), whole)
    ensures CutFrom(Split(AtBreaks, r + tail), whole)
  {
    hide Split;
    SplitPrefixed(AtBreaks, r, tail);
    var part := Split(AtBreaks, r + tail);
    if tail == [] {
      assert part[1..] == [] == whole[|whole|..];
    } else {
      assert part[1..] == Split(AtBreaks, tail)[1..];
    }
  }

  lemma RestOfEncoded(t: string, k: nat)
    requires k < |Encode(t)|
    ensures var j := |Leads(Encode(t)[..k])|; j <= |t| && Leads(Encode(t)[k..]) == t[j..]
    ensures Decode(Encode(t)[k..]) != []
  {
    var file := Encode(t);
    assert file == file[..k] + file[k..];
    LeadsConcat(file[..k], file[k..]);
    LeadsOfEncoded(t);
  }

  lemma StrayIsUnbroken(b: seq<Octet>)
    ensures Unbroken(AtBreaks, Stray(b))
  {
  }

  /** Wherever a file is cut, even inside a character, only the first line of the rest differs. */
  lemma CutLines(t: string, k: nat)
    requires k < |Encode(t)|
    ensures CutFrom(LinesFrom(Encode(t), k), Split(AtBreaks, t))
  {
    hide Split, Leads, Stray, Unbroken, CutFrom;
    var rest := Encode(t)[k..];
    var j := |Leads(Encode(t)[..k])|;
    RestOfEncoded(t, k);
    if j < |t| {
      CutText(t, j);
    }
    StrayIsUnbroken(rest);
    PrefixedCut(Stray(rest), Leads(rest), Split(AtBreaks, t));
  }

  // ------------------------------------------------------------ what the reader is for

  /** The last n non-blank lines of a text. */
  function LastNonBlank(t: string, n: nat): seq<Line> { LastN(NonBlank(Split(AtBreaks, t)), n) }

  /** The first line read, which may be cut or damaged, stands for the lines not read: all are
      blank, or it is the one non-blank line still needed, or the only one there is. */
  predicate StandsFor(head: Line, unread: seq<Line>, needed: nat) {
    var lost := NonBlank(unread);
    if Blank(head) then lost == []
    else lost != [] && head == lost[|lost| - 1] && (needed == 1 || |lost| == 1)
  }

  /** The lines read suffice: enough behind the first one are not blank, or the first one makes up
      for the lines not read. */
  predicate Suffices(part: seq<Line>, whole: seq<Line>, n: nat) {
    && CutFrom(part, whole)
    && var safe := |NonBlank(part[1..])|;
       safe >= n || StandsFor(part[0], whole[..|whole| - |part| + 1], n - safe)
  }

  /** The reader has read enough when it stops, or has reached the start of the file. */
  predicate ReadEnough(t: string, n: nat, chunk: nat)
    requires 1 <= chunk
  {
    var k := StopAt(Encode(t), n, chunk, |Encode(t)|);
    k == 0 || Suffices(LinesFrom(Encode(t), k), Split(AtBreaks, t), n)
  }

  lemma StopCuts(t: string, n: nat, chunk: nat)
    requires 1 <= chunk && StopAt(Encode(t), n, chunk, |Encode(t)|) != 0
    ensures CutFrom(LinesFrom(Encode(t), StopAt(Encode(t), n, chunk, |Encode(t)|)), Split(AtBreaks, t))
  {
    var file := Encode(t);
    assert file[|file|..] == [];
    CutLines(t, StopAt(file, n, chunk, |file|));
  }

  lemma NonBlankConcat(s: seq<Line>, t: seq<Line>)
    ensures NonBlank(s + t) == NonBlank(s) + NonBlank(t)
  {
    FilterConcat((l: Line) => !Blank(l), s, t);
  }

  lemma HeadComparison(head: Line, unread: seq<Line>, needed: nat)
    requires 1 <= needed
    ensures LastN(NonBlank([head]), needed) == LastN(NonBlank(unread), needed) <==> StandsFor(head, unread, needed)
  {
    hide Blank;
    var lost := NonBlank(unread);
    assert [head][1..] == [];
    assert NonBlank([head]) == if Blank(head) then [] else [head];
  }

  lemma SafeComparison(head: Line, unread: seq<Line>, safe: seq<Line>, n: nat)
    ensures LastN(NonBlank([head] + safe), n) == LastN(NonBlank(unread + safe), n)
            <==> |NonBlank(safe)| >= n || StandsFor(head, unread, n - |NonBlank(safe)|)
  {
    hide NonBlank, StandsFor;
    NonBlankConcat([head], safe);
    NonBlankConcat(unread, safe);
    LastNBehind(NonBlank([head]), NonBlank(safe), n);
    LastNBehind(NonBlank(unread), NonBlank(safe), n);
    if |NonBlank(safe)| < n {
      var needed := n - |NonBlank(safe)|;
      HeadComparison(head, unread, needed);
      SameSuffix(LastN(NonBlank([head]), needed), LastN(NonBlank(unread), needed), NonBlank(safe));
    }
  }

  lemma SameSuffix<T>(a: seq<T>, b: seq<T>, s: seq<T>)
    ensures a + s == b + s <==> a == b
  {
    if a + s == b + s {
      assert |a| == |b|;
      assert a == (a + s)[..|a|] && b == (b + s)[..|a|];
    }
  }

  lemma PartComparison(part: seq<Line>, whole: seq<Line>, n: nat)
    requires CutFrom(part, whole)
    ensures LastN(NonBlank(part), n) == LastN(NonBlank(whole), n) <==> Suffices(part, whole, n)
  {
    hide NonBlank, StandsFor, LastN;
    var safe, unread := part[1..], whole[..|whole| - |part| + 1];
    assert part == [part[0]] + safe && whole == unread + safe;
    SafeComparison(part[0], unread, safe, n);
  }

  /** For every chunk size, the reader returns the last n non-blank lines exactly when it has read
      enough of them. */
  lemma ReaderIsExact(t: string, n: nat, chunk: nat)
    requires 1 <= chunk
    ensures TailLines(Encode(t), n, chunk) == LastNonBlank(t, n) <==> ReadEnough(t, n, chunk)
  {
    var file := Encode(t);
    var k := StopAt(file, n, chunk, |file|);
    if k == 0 {
      assert file[k..] == file;
      DecodeEncode(t);
    } else {
      StopCuts(t, n, chunk);
      PartComparison(LinesFrom(file, k), Split(AtBreaks, t), n);
    }
  }

  lemma EnoughWithoutBlanks(part: seq<Line>, whole: seq<Line>, n: nat)
    requires CutFrom(part, whole) && |part| >= n + 1
    requires forall l :: l in LastN(whole, n) ==> !Blank(l)
    ensures |NonBlank(part[1..])| >= n
  {
    var safe, ending := part[1..], LastN(whole, n);
    assert safe == safe[..|safe| - n] + ending;
    NonBlankConcat(safe[..|safe| - n], ending);
    NoneBlank(ending);
  }

  /** Wherever the chunk borders fall, the reader is right if none of the last n lines is blank. */
  lemma ReaderIsCorrect(t: string, n: nat, chunk: nat)
    requires 1 <= chunk
    requires forall l :: l in LastN(Split(AtBreaks, t), n) ==> !Blank(l)
    ensures TailLines(Encode(t), n, chunk) == LastNonBlank(t, n)
  {
    var file := Encode(t);
    var k := StopAt(file, n, chunk, |file|);
    if k != 0 {
      StopCuts(t, n, chunk);
      EnoughWithoutBlanks(LinesFrom(file, k), Split(AtBreaks, t), n);
    }
    ReaderIsExact(t, n, chunk);
  }

  // ------------------------------------------------------------ written logs

  lemma WrittenLines(lines: seq<Line>, n: nat)
    requires forall l :: l in LastN(lines, n) ==> Unbroken(AtBreaks, l)
    ensures LastN(Split(AtBreaks, Join(lines)), n) == LastN(lines, n)
  {
    var ending := LastN(lines, n);
    var front := lines[..|lines| - |ending|];
    assert lines == front + ending;
    JoinConcat(front, ending);
    SplitBehindLines(AtBreaks, front, Join(ending));
    SplitJoin(AtBreaks, ending);
    assert |ending| < n ==> front == [] && Join(front) == [];
  }

  lemma LastNonBlankOfWhole(t: string, n: nat)
    requires forall l :: l in LastN(Split(AtBreaks, t), n) ==> !Blank(l)
    ensures LastNonBlank(t, n) == LastN(Split(AtBreaks, t), n)
  {
    hide Split;
    LastNKept(Split(AtBreaks, t), n);
  }

  lemma LastNKept(lines: seq<Line>, n: nat)
    requires forall l :: l in LastN(lines, n) ==> !Blank(l)
    ensures LastN(NonBlank(lines), n) == LastN(lines, n)
  {
    hide Blank, NonBlank;
    var ending := LastN(lines, n);
    var front := lines[..|lines| - |ending|];
    assert lines == front + ending;
    NonBlankConcat(front, ending);
    NoneBlank(ending);
    NothingNonBlank();
    LastNBehind(NonBlank(front), ending, n);
  }

  lemma NoneBlank(lines: seq<Line>)
    requires forall l :: l in lines ==> !Blank(l)
    ensures NonBlank(lines) == lines
  {
    FilterAll((l: Line) => !Blank(l), lines);
  }

  lemma NothingNonBlank()
    ensures NonBlank([]) == []
  {
  }

  lemma TailLinesAreClean(file: seq<Octet>, n: nat, chunk: nat)
    requires 1 <= chunk
    ensures forall l :: l in TailLines(file, n, chunk) ==> !Blank(l) && Unbroken(AtBreaks, l)
  {
    var lines := LinesFrom(file, StopAt(file, n, chunk, |file|));
    LinesAreUnbroken(AtBreaks, Decode(file[StopAt(file, n, chunk, |file|)..]));
    FilterMembers((l: Line) => !Blank(l), lines);
  }

  /** The last n written lines are read back exactly when none of them is blank or holds a
      character at which the reader breaks lines; older lines do not matter. */
  lemma WrittenLogReadBack(lines: seq<Line>, n: nat, chunk: nat)
    requires 1 <= chunk
    ensures TailLines(Encode(Join(lines)), n, chunk) == LastN(lines, n)
            <==> forall l :: l in LastN(lines, n) ==> !Blank(l) && Unbroken(AtBreaks, l)
  {
    if forall l :: l in LastN(lines, n) ==> !Blank(l) && Unbroken(AtBreaks, l) {
      WrittenLines(lines, n);
      LastNonBlankOfWhole(Join(lines), n);
      ReaderIsCorrect(Join(lines), n, chunk);
    }
    TailLinesAreClean(Encode(Join(lines)), n, chunk);
  }

  // ------------------------------------------------------------ a failing file

  function Repeat(c: char, m: nat): (s: string)
    ensures |s| == m && forall i :: 0 <= i < m ==> s[i] == c
  {
    if m == 0 then [] else [c] + Repeat(c, m - 1)
  }

  lemma {:induction false} EncodedLength(t: string)
    requires forall i :: 0 <= i < |t| ==> Width(t[i]) == 1
    ensures |Encode(t)| == |t|
  {
    if t != [] {
      EncodedLength(t[1..]);
    }
  }

  const ENDING := "\n\nC\n"

  lemma EndingLines(r: string)
    requires Unbroken(AtBreaks, r)
    ensures Split(AtBreaks, r + ENDING) == [r, [], "C"]
  {
    SplitPrefixed(AtBreaks, r, ENDING);
    assert ENDING[1..] == "\nC\n" && "\nC\n"[1..] == "C\n" && "C\n"[1..] == "\n" && "\n"[1..] == "";
    assert Split(AtBreaks, "\n") == [[]];
    SplitOneLine(AtBreaks, "C");
    assert "C" + "\n" == "C\n";
    assert Split(AtBreaks, ENDING) == [[], [], "C"];
    assert r + [] == r;
  }

  lemma NonBlankOfThree(r: string)
    requires !Blank(r)
    ensures NonBlank([r, [], "C"]) == [r, "C"]
  {
    assert [r, [], "C"][1..] == [[], "C"] && [[], "C"][1..] == ["C"] && ["C"][1..] == [];
    assert "C"[0] == 'C' && !Blank("C");
    assert NonBlank(["C"]) == ["C"] && NonBlank([[], "C"]) == ["C"];
  }

  const KEPT := CHUNK_SIZE - 4

  lemma StopsAfterOneChunk(a: seq<Octet>, b: seq<Octet>, n: nat)
    requires |b| == CHUNK_SIZE && |Split(AtBreaks, Decode(b))| >= n + 1
    ensures TailLines(a + b, n, CHUNK_SIZE) == LastN(NonBlank(Split(AtBreaks, Decode(b))), n)
  {
    var file := a + b;
    assert file[|file|..] == [] && LinesFrom(file, |file|) == [];
    assert file[|a|..] == b;
    assert StopAt(file, n, CHUNK_SIZE, |file|) == StopAt(file, n, CHUNK_SIZE, |a|) == |a|;
  }

  lemma LongLineRead(before: string, r: string)
    requires |r| == KEPT && Unbroken(AtBreaks, r) && !Blank(r)
    requires forall i :: 0 <= i < |r| ==> Width(r[i]) == 1
    ensures TailLines(Encode(before + (r + ENDING)), 2, CHUNK_SIZE) == [r, "C"]
  {
    EncodeConcat(before, r + ENDING);
    EncodedLength(r + ENDING);
    DecodeEncode(r + ENDING);
    EndingLines(r);
    NonBlankOfThree(r);
    StopsAfterOneChunk(Encode(before), Encode(r + ENDING), 2);
  }

  lemma LongLineWanted(r: string)
    requires Unbroken(AtBreaks, r) && !Blank(r)
    ensures LastNonBlank("A\n" + (r + ENDING), 2) == [r, "C"]
  {
    assert "A\n" == "A" + "\n";
    SplitBehindNewline(AtBreaks, "A", r + ENDING);
    EndingLines(r);
    NonBlankOfThree(r);
    NonBlankConcat(Split(AtBreaks, "A\n"), Split(AtBreaks, r + ENDING));
  }

  /** At the chunk size in use: with a blank line among the last n, the tail of an older line that
      is longer than a chunk is returned as if it were a line. */
  lemma LongLineIsCut(m: nat)
    requires m > KEPT
    ensures var text := "A\n" + (Repeat('B', m) + ENDING);
            && TailLines(Encode(text), 2, CHUNK_SIZE) == [Repeat('B', KEPT), "C"]
            && LastNonBlank(text, 2) == [Repeat('B', m), "C"]
  {
    var cut, kept, line := Repeat('B', m - KEPT), Repeat('B', KEPT), Repeat('B', m);
    assert line == cut + kept;
    assert "A\n" + (line + ENDING) == ("A\n" + cut) + (kept + ENDING);
    assert kept[0] == 'B' && line[0] == 'B';
    LongLineRead("A\n" + cut, kept);
    LongLineWanted(line);
  }
}
