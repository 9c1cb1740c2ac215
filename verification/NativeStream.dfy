/** Translation of a native model stream into chat-completion deltas: content is passed on piece by
    piece, and tool calls are numbered across all lines of the stream. */
module NativeStream {
  import opened Prelude

  datatype Call = Call(name: string, arguments: string)

  /** One parsed line of the upstream stream. */
  datatype Chunk = Chunk(content: string, calls: seq<Call>, done: bool, doneReason: string)

  datatype Delta =
    | Content(text: string)
    | CallStart(index: nat, name: string)
    | CallArguments(index: nat, arguments: string)
    | Finish(reason: string)

  /** Whether the request offered tools, which texts mention an address no tool returned, and the
      text appended to those. */
  datatype UrlGuard = UrlGuard(toolsOffered: bool, suspicious: string -> bool, warning: string)

  function TextOf(chunks: seq<Chunk>): string {
    if chunks == [] then "" else TextOf(chunks[..|chunks| - 1]) + chunks[|chunks| - 1].content
  }

  function CallsOf(chunks: seq<Chunk>): seq<Call> {
    if chunks == [] then [] else CallsOf(chunks[..|chunks| - 1]) + chunks[|chunks| - 1].calls
  }

  /** The two deltas of call number `index`. */
  function CallDeltas(index: nat, c: Call): seq<Delta> {
    [CallStart(index, c.name), CallArguments(index, c.arguments)]
  }

  /** The deltas of the first k calls of a line whose numbering starts at `base`. */
  function LineCalls(base: nat, calls: seq<Call>, k: nat): seq<Delta>
    requires k <= |calls|
  {
    if k == 0 then [] else LineCalls(base, calls, k - 1) + CallDeltas(base + k - 1, calls[k - 1])
  }

  /** A warning is due on a line marked done when no call was made and the text is suspicious. */
  predicate WarningDue(g: UrlGuard, c: Chunk, text: string, anyCalls: bool) {
    c.done && !anyCalls && text != "" && g.toolsOffered && g.suspicious(text)
  }

  function ContentDelta(text: string): seq<Delta> { if text != "" then [Content(text)] else [] }

  /** What a line marked done adds at its end: the warning, if due, and the finish reason. */
  function Closing(g: UrlGuard, c: Chunk, text: string, anyCalls: bool): seq<Delta> {
    if !c.done then []
    else (if WarningDue(g, c, text, anyCalls) then [Content(g.warning)] else [])
         + [Finish(if anyCalls then "tool_calls" else c.doneReason)]
  }

  /** What one line adds, given the lines before it. */
  function LineDeltas(g: UrlGuard, before: seq<Chunk>, c: Chunk): seq<Delta> {
    ContentDelta(c.content) + LineCalls(|CallsOf(before)|, c.calls, |c.calls|)
    + Closing(g, c, TextOf(before) + c.content, CallsOf(before) + c.calls != [])
  }

  /** Everything emitted for a stream. */
  function Emitted(g: UrlGuard, chunks: seq<Chunk>): seq<Delta> {
    if chunks == [] then []
    else Emitted(g, chunks[..|chunks| - 1]) + LineDeltas(g, chunks[..|chunks| - 1], chunks[|chunks| - 1])
  }

  /** The calls of one line, numbered on from the calls of the lines before. */
  method TranslateCalls(base: nat, calls: seq<Call>, out: seq<Delta>) returns (out': seq<Delta>)
    ensures out' == out + LineCalls(base, calls, |calls|)
  {
    out' := out;
    var k := 0;
    while k < |calls|
      invariant 0 <= k <= |calls|
      invariant out' == out + LineCalls(base, calls, k)
    {
      out' := out' + [CallStart(base + k, calls[k].name)];
      out' := out' + [CallArguments(base + k, calls[k].arguments)];
      k := k + 1;
    }
  }

  method TranslateDone(g: UrlGuard, c: Chunk, text: string, anyCalls: bool, out: seq<Delta>) returns (out': seq<Delta>)
    ensures out' == out + Closing(g, c, text, anyCalls)
  {
    out' := out;
    if c.done {
      if !anyCalls && text != "" && g.toolsOffered && g.suspicious(text) {
        out' := out' + [Content(g.warning)];
      }
      out' := out' + [Finish(if anyCalls then "tool_calls" else c.doneReason)];
    }
  }

  method TranslateContent(content: string, text: string, out: seq<Delta>) returns (text': string, out': seq<Delta>)
    ensures text' == text + content && out' == out + ContentDelta(content)
  {
    if content == "" {
      return text, out;
    }
    return text + content, out + [Content(content)];
  }

  /** One line of the stream; `nextIndex` and `text` are the running counter and the running text. */
  method TranslateLine(g: UrlGuard, ghost before: seq<Chunk>, c: Chunk, nextIndex: nat, hasCalls: bool, text: string,
                       out: seq<Delta>)
    returns (nextIndex': nat, hasCalls': bool, text': string, out': seq<Delta>)
    requires nextIndex == |CallsOf(before)| && hasCalls == (nextIndex > 0) && text == TextOf(before)
    ensures nextIndex' == nextIndex + |c.calls| && hasCalls' == (nextIndex' > 0) && text' == text + c.content
    ensures out' == out + LineDeltas(g, before, c)
  {
    text', out' := TranslateContent(c.content, text, out);
    out' := TranslateCalls(nextIndex, c.calls, out');
    hasCalls' := hasCalls || c.calls != [];
    nextIndex' := nextIndex + |c.calls|;
    assert hasCalls' == (CallsOf(before) + c.calls != []);
    out' := TranslateDone(g, c, text', hasCalls', out');
    Regroup(out, ContentDelta(c.content), LineCalls(nextIndex, c.calls, |c.calls|),
            Closing(g, c, text', hasCalls'));
  }

  method Translate(g: UrlGuard, chunks: seq<Chunk>) returns (out: seq<Delta>)
    ensures out == Emitted(g, chunks)
  {
    var hasCalls, nextIndex, text := false, 0, "";
    out := [];
    var i := 0;
    while i < |chunks|
      invariant 0 <= i <= |chunks|
      invariant out == Emitted(g, chunks[..i])
      invariant text == TextOf(chunks[..i])
      invariant nextIndex == |CallsOf(chunks[..i])| && hasCalls == (nextIndex > 0)
    {
      assert chunks[..i + 1][..i] == chunks[..i];
      nextIndex, hasCalls, text, out := TranslateLine(g, chunks[..i], chunks[i], nextIndex, hasCalls, text, out);
      i := i + 1;
    }
    assert chunks[..i] == chunks;
  }

  // ------------------------------------------------------------ the client's view

  /** A client that assembles calls by index: a start opens the entry, arguments are appended. */
  function Assemble(calls: map<nat, Call>, d: Delta): map<nat, Call> {
    match d
    case CallStart(i, name) => calls[i := Call(name, "")]
    case CallArguments(i, args) => if i in calls then calls[i := calls[i].(arguments := calls[i].arguments + args)] else calls
    case _ => calls
  }

  function AssembleAll(deltas: seq<Delta>): map<nat, Call> {
    if deltas == [] then map[] else Assemble(AssembleAll(deltas[..|deltas| - 1]), deltas[|deltas| - 1])
  }

  /** The calls numbered from zero. */
  function Numbered(calls: seq<Call>): map<nat, Call> {
    map i: nat | i < |calls| :: calls[i]
  }

  lemma AssembleOneMore(deltas: seq<Delta>, d: Delta)
    ensures AssembleAll(deltas + [d]) == Assemble(AssembleAll(deltas), d)
  {
    assert (deltas + [d])[..|deltas|] == deltas;
  }

  lemma AssembleCall(deltas: seq<Delta>, done: seq<Call>, c: Call)
    requires AssembleAll(deltas) == Numbered(done)
    ensures AssembleAll(deltas + CallDeltas(|done|, c)) == Numbered(done + [c])
  {
    var start, args := CallStart(|done|, c.name), CallArguments(|done|, c.arguments);
    assert deltas + CallDeltas(|done|, c) == (deltas + [start]) + [args];
    AssembleOneMore(deltas, start);
    AssembleOneMore(deltas + [start], args);
    assert "" + c.arguments == c.arguments;
  }

  lemma {:induction false} AssembleLine(deltas: seq<Delta>, done: seq<Call>, calls: seq<Call>, k: nat)
    requires k <= |calls| && AssembleAll(deltas) == Numbered(done)
    ensures AssembleAll(deltas + LineCalls(|done|, calls, k)) == Numbered(done + calls[..k])
  {
    if k == 0 {
      assert deltas + [] == deltas && done + calls[..0] == done;
    } else {
      AssembleLine(deltas, done, calls, k - 1);
      AssembleCall(deltas + LineCalls(|done|, calls, k - 1), done + calls[..k - 1], calls[k - 1]);
      assert deltas + LineCalls(|done|, calls, k)
          == (deltas + LineCalls(|done|, calls, k - 1)) + CallDeltas(|done| + k - 1, calls[k - 1]);
      assert done + calls[..k] == (done + calls[..k - 1]) + [calls[k - 1]];
    }
  }

  lemma {:induction false} NoCallsIn(deltas: seq<Delta>, more: seq<Delta>)
    requires forall i :: 0 <= i < |more| ==> more[i].Content? || more[i].Finish?
    ensures AssembleAll(deltas + more) == AssembleAll(deltas)
  {
    if more == [] {
      assert deltas + more == deltas;
    } else {
      var front := more[..|more| - 1];
      NoCallsIn(deltas, front);
      AssembleOneMore(deltas + front, more[|more| - 1]);
      assert deltas + more == (deltas + front) + [more[|more| - 1]];
    }
  }

  lemma ClosingHasNoCalls(g: UrlGuard, c: Chunk, text: string, anyCalls: bool)
    ensures forall i :: 0 <= i < |Closing(g, c, text, anyCalls)| ==>
              Closing(g, c, text, anyCalls)[i].Content? || Closing(g, c, text, anyCalls)[i].Finish?
  {
  }

  lemma AssembleLineDeltas(g: UrlGuard, e: seq<Delta>, before: seq<Chunk>, c: Chunk)
    requires AssembleAll(e) == Numbered(CallsOf(before))
    ensures AssembleAll(e + LineDeltas(g, before, c)) == Numbered(CallsOf(before) + c.calls)
  {
    var text, line := ContentDelta(c.content), LineCalls(|CallsOf(before)|, c.calls, |c.calls|);
    var close := Closing(g, c, TextOf(before) + c.content, CallsOf(before) + c.calls != []);
    ClosingHasNoCalls(g, c, TextOf(before) + c.content, CallsOf(before) + c.calls != []);
    NoCallsIn(e, text);
    AssembleLine(e + text, CallsOf(before), c.calls, |c.calls|);
    assert c.calls[..|c.calls|] == c.calls;
    NoCallsIn(e + text + line, close);
    Regroup(e, text, line, close);
  }

  lemma Regroup<T>(a: seq<T>, b: seq<T>, c: seq<T>, d: seq<T>)
    ensures a + (b + c + d) == ((a + b) + c) + d
  {
  }

  /** Assembling the deltas by index gives back exactly the upstream calls in order, numbered from
      zero without gaps or clashes, however they were spread over the lines. */
  lemma {:induction false} CallsSurvive(g: UrlGuard, chunks: seq<Chunk>)
    ensures AssembleAll(Emitted(g, chunks)) == Numbered(CallsOf(chunks))
  {
    if chunks != [] {
      var front := chunks[..|chunks| - 1];
      CallsSurvive(g, front);
      AssembleLineDeltas(g, Emitted(g, front), front, chunks[|chunks| - 1]);
    }
  }

  /** The text a client shows. */
  function ShownText(deltas: seq<Delta>): string {
    if deltas == [] then ""
    else
      ShownText(deltas[..|deltas| - 1])
      + (if deltas[|deltas| - 1].Content? then deltas[|deltas| - 1].text else "")
  }

  lemma ShownOneMore(a: seq<Delta>, d: Delta)
    ensures ShownText(a + [d]) == ShownText(a) + if d.Content? then d.text else ""
  {
    assert (a + [d])[..|a + [d]| - 1] == a;
  }

  lemma {:induction false} ShownConcat(a: seq<Delta>, b: seq<Delta>)
    ensures ShownText(a + b) == ShownText(a) + ShownText(b)
  {
    if b == [] {
      assert a + b == a;
    } else {
      hide ShownText;
      var front, last := b[..|b| - 1], b[|b| - 1];
      ShownConcat(a, front);
      assert a + b == (a + front) + [last] && b == front + [last];
      ShownOneMore(a + front, last);
      ShownOneMore(front, last);
      Prelude.Regroup(ShownText(a), ShownText(front), if last.Content? then last.text else "");
    }
  }

  lemma CallShowsNothing(index: nat, c: Call)
    ensures ShownText(CallDeltas(index, c)) == ""
  {
    hide ShownText;
    var start, args := CallStart(index, c.name), CallArguments(index, c.arguments);
    assert CallDeltas(index, c) == [start] + [args];
    ShownConcat([start], [args]);
    ShowsOne(start);
    ShowsOne(args);
  }

  lemma {:induction false} CallsShowNothing(base: nat, calls: seq<Call>, k: nat)
    requires k <= |calls|
    ensures ShownText(LineCalls(base, calls, k)) == ""
  {
    if k > 0 {
      hide ShownText;
      CallsShowNothing(base, calls, k - 1);
      ShownConcat(LineCalls(base, calls, k - 1), CallDeltas(base + k - 1, calls[k - 1]));
      CallShowsNothing(base + k - 1, calls[k - 1]);
    }
  }

  lemma ShowsOne(d: Delta)
    ensures ShownText([d]) == if d.Content? then d.text else ""
  {
    assert [d][..0] == [];
  }

  lemma ClosingShows(g: UrlGuard, c: Chunk, text: string, anyCalls: bool)
    ensures ShownText(Closing(g, c, text, anyCalls)) == if WarningDue(g, c, text, anyCalls) then g.warning else ""
  {
    var finish := Finish(if anyCalls then "tool_calls" else c.doneReason);
    var warn: seq<Delta> := if WarningDue(g, c, text, anyCalls) then [Content(g.warning)] else [];
    ShownConcat(warn, [finish]);
    ShowsOne(finish);
    ShowsOne(Content(g.warning));
  }

  function Shows(g: UrlGuard, before: seq<Chunk>, c: Chunk): string {
    c.content + (if WarningDue(g, c, TextOf(before) + c.content, CallsOf(before) + c.calls != []) then g.warning else "")
  }

  /** A line shows its content and, if one is due, the warning after it. */
  lemma LineShows(g: UrlGuard, before: seq<Chunk>, c: Chunk)
    ensures ShownText(LineDeltas(g, before, c)) == Shows(g, before, c)
  {
    var text, line := ContentDelta(c.content), LineCalls(|CallsOf(before)|, c.calls, |c.calls|);
    ShowsOne(Content(c.content));
    ShownConcat(text, line);
    CallsShowNothing(|CallsOf(before)|, c.calls, |c.calls|);
    ShownConcat(text + line, Closing(g, c, TextOf(before) + c.content, CallsOf(before) + c.calls != []));
    ClosingShows(g, c, TextOf(before) + c.content, CallsOf(before) + c.calls != []);
  }

  /** While no line is marked done the shown text is the upstream text. */
  lemma {:induction false} TextBeforeDone(g: UrlGuard, chunks: seq<Chunk>)
    requires forall i :: 0 <= i < |chunks| ==> !chunks[i].done
    ensures ShownText(Emitted(g, chunks)) == TextOf(chunks)
  {
    if chunks != [] {
      var front, c := chunks[..|chunks| - 1], chunks[|chunks| - 1];
      TextBeforeDone(g, front);
      ShownStep(g, front, c);
      assert Shows(g, front, c) == c.content;
    }
  }

  lemma ShownStep(g: UrlGuard, front: seq<Chunk>, c: Chunk)
    ensures ShownText(Emitted(g, front) + LineDeltas(g, front, c))
         == ShownText(Emitted(g, front)) + Shows(g, front, c)
  {
    LineShows(g, front, c);
    ShownConcat(Emitted(g, front), LineDeltas(g, front, c));
  }

  /** A line up to i carries a tool call. */
  predicate CalledBy(chunks: seq<Chunk>, i: nat) {
    exists j :: 0 <= j <= i && j < |chunks| && chunks[j].calls != []
  }

  lemma {:induction false} SomeCall(chunks: seq<Chunk>)
    ensures CallsOf(chunks) != [] <==> CalledBy(chunks, |chunks|)
  {
    if chunks != [] {
      var front := chunks[..|chunks| - 1];
      SomeCall(front);
      if CalledBy(chunks, |chunks|) {
        var j :| 0 <= j < |chunks| && chunks[j].calls != [];
        assert j < |front| ==> front[j].calls != [];
      }
      if CalledBy(front, |front|) {
        var j :| 0 <= j < |front| && front[j].calls != [];
        assert chunks[j].calls != [];
      }
    }
  }

  /** The reason of the finish that done line i brings. */
  function ReasonAt(chunks: seq<Chunk>, i: nat): string
    requires i < |chunks|
  {
    if CalledBy(chunks, i) then "tool_calls" else chunks[i].doneReason
  }

  function Finishes(deltas: seq<Delta>): seq<Delta> { Filter((d: Delta) => d.Finish?, deltas) }

  lemma {:induction false} NoFinishInCalls(base: nat, calls: seq<Call>, k: nat)
    requires k <= |calls|
    ensures Finishes(LineCalls(base, calls, k)) == []
  {
    if k > 0 {
      NoFinishInCalls(base, calls, k - 1);
      FilterConcat((d: Delta) => d.Finish?, LineCalls(base, calls, k - 1), CallDeltas(base + k - 1, calls[k - 1]));
      FilterNone((d: Delta) => d.Finish?, CallDeltas(base + k - 1, calls[k - 1]));
    }
  }

  lemma FinishesOfLine(g: UrlGuard, before: seq<Chunk>, c: Chunk)
    ensures Finishes(LineDeltas(g, before, c))
         == if c.done then [Finish(if CallsOf(before) + c.calls != [] then "tool_calls" else c.doneReason)] else []
  {
    var text, line := ContentDelta(c.content), LineCalls(|CallsOf(before)|, c.calls, |c.calls|);
    var called := CallsOf(before) + c.calls != [];
    NoFinishInCalls(|CallsOf(before)|, c.calls, |c.calls|);
    FinishOfClosing(g, c, TextOf(before) + c.content, called);
    FinishesOfThree(text, line, Closing(g, c, TextOf(before) + c.content, called));
  }

  lemma FinishesOfThree(text: seq<Delta>, line: seq<Delta>, close: seq<Delta>)
    requires (forall i :: 0 <= i < |text| ==> !text[i].Finish?) && Finishes(line) == []
    ensures Finishes(text + line + close) == Finishes(close)
  {
    var isFinish := (d: Delta) => d.Finish?;
    FilterConcat(isFinish, text + line, close);
    FilterConcat(isFinish, text, line);
    FilterNone(isFinish, text);
  }

  lemma LineEnds(g: UrlGuard, before: seq<Chunk>, c: Chunk)
    requires c.done
    ensures var line := LineDeltas(g, before, c);
            line != [] && line[|line| - 1] == Finish(if CallsOf(before) + c.calls != [] then "tool_calls" else c.doneReason)
  {
    hide Closing, LineCalls, ContentDelta;
    ClosingEnds(g, c, TextOf(before) + c.content, CallsOf(before) + c.calls != []);
  }

  lemma FinishOfClosing(g: UrlGuard, c: Chunk, text: string, anyCalls: bool)
    ensures Finishes(Closing(g, c, text, anyCalls))
         == if c.done then [Finish(if anyCalls then "tool_calls" else c.doneReason)] else []
  {
    var isFinish := (d: Delta) => d.Finish?;
    var finish := Finish(if anyCalls then "tool_calls" else c.doneReason);
    var warn: seq<Delta> := if WarningDue(g, c, text, anyCalls) then [Content(g.warning)] else [];
    FilterConcat(isFinish, warn, [finish]);
    FilterNone(isFinish, warn);
    FilterAll(isFinish, [finish]);
  }

  lemma ClosingEnds(g: UrlGuard, c: Chunk, text: string, anyCalls: bool)
    ensures c.done ==>
              var close := Closing(g, c, text, anyCalls);
              close != [] && close[|close| - 1] == Finish(if anyCalls then "tool_calls" else c.doneReason)
  {
  }

  lemma ReasonOfFront(front: seq<Chunk>, c: Chunk, i: nat)
    requires i < |front|
    ensures ReasonAt(front + [c], i) == ReasonAt(front, i)
  {
    var chunks := front + [c];
    if CalledBy(chunks, i) {
      var j :| 0 <= j <= i && j < |chunks| && chunks[j].calls != [];
      assert front[j].calls != [];
    }
    if CalledBy(front, i) {
      var j :| 0 <= j <= i && j < |front| && front[j].calls != [];
      assert chunks[j].calls != [];
    }
  }

  lemma ReasonOfLast(front: seq<Chunk>, c: Chunk)
    ensures ReasonAt(front + [c], |front|)
         == if CallsOf(front) + c.calls != [] then "tool_calls" else c.doneReason
  {
    LastCalled(front, c);
  }

  /** `at` names exactly the lines marked done, and each of them brings one finish: for tool calls
      exactly when this line or one before carries a call, and otherwise with the line's own reason. */
  ghost predicate FinishesAt(chunks: seq<Chunk>, finishes: seq<Delta>, at: seq<nat>) {
    && |finishes| == |at| && Ascending(at)
    && (forall x :: 0 <= x < |at| ==>
          at[x] < |chunks| && chunks[at[x]].done && finishes[x] == Finish(ReasonAt(chunks, at[x])))
    && forall i: nat :: i < |chunks| && chunks[i].done ==> Has(at, i)
  }

  lemma FinishesOneMore(front: seq<Chunk>, c: Chunk, finishes: seq<Delta>, before: seq<nat>)
    requires FinishesAt(front, finishes, before)
    ensures if c.done
            then FinishesAt(front + [c], finishes + [Finish(ReasonAt(front + [c], |front|))], before + [|front|])
            else FinishesAt(front + [c], finishes, before)
  {
    hide ReasonAt;
    forall i: nat | i < |front| ensures ReasonAt(front + [c], i) == ReasonAt(front, i) {
      ReasonOfFront(front, c, i);
    }
    forall i: nat ensures Has(before + [|front|], i) <==> Has(before, i) || i == |front| {
      HasConcat(before, [|front|], i);
      HasOne(|front|, i);
    }
  }

  lemma NoFinishes(g: UrlGuard)
    ensures FinishesAt([], Finishes(Emitted(g, [])), [])
  {
  }

  lemma FinishesStep(g: UrlGuard, front: seq<Chunk>, c: Chunk)
    ensures Finishes(Emitted(g, front + [c]))
         == if c.done then Finishes(Emitted(g, front)) + [Finish(ReasonAt(front + [c], |front|))]
            else Finishes(Emitted(g, front))
  {
    hide LineDeltas, ReasonAt;
    var chunks := front + [c];
    assert chunks[..|chunks| - 1] == front;
    FilterConcat((d: Delta) => d.Finish?, Emitted(g, front), LineDeltas(g, front, c));
    FinishesOfLine(g, front, c);
    ReasonOfLast(front, c);
    assert Finishes(Emitted(g, front)) + [] == Finishes(Emitted(g, front));
  }

  lemma {:induction false} FinishesAreExact(g: UrlGuard, chunks: seq<Chunk>) returns (at: seq<nat>)
    ensures FinishesAt(chunks, Finishes(Emitted(g, chunks)), at)
  {
    hide FinishesAt, Finishes, Emitted, ReasonAt;
    if chunks == [] {
      NoFinishes(g);
      at := [];
    } else {
      var front, c := chunks[..|chunks| - 1], chunks[|chunks| - 1];
      assert chunks == front + [c];
      var before := FinishesAreExact(g, front);
      FinishesStep(g, front, c);
      FinishesOneMore(front, c, Finishes(Emitted(g, front)), before);
      at := if c.done then before + [|front|] else before;
    }
  }

  /** A stream that ends with a line marked done ends with its finish. */
  lemma FinishIsLast(g: UrlGuard, chunks: seq<Chunk>)
    requires chunks != [] && chunks[|chunks| - 1].done
    ensures var e := Emitted(g, chunks); e != [] && e[|e| - 1] == Finish(ReasonAt(chunks, |chunks| - 1))
  {
    hide LineDeltas, ReasonAt;
    var front, c := chunks[..|chunks| - 1], chunks[|chunks| - 1];
    assert chunks == front + [c];
    LineEnds(g, front, c);
    ReasonOfLast(front, c);
  }

  /** A last line marked done adds its content and then the warning, exactly when no line carries a
      call, tools were offered, and there is a text and it is suspicious. */
  lemma TextSurvives(g: UrlGuard, front: seq<Chunk>, last: Chunk)
    requires forall i :: 0 <= i < |front| ==> !front[i].done
    ensures var chunks, text := front + [last], TextOf(front) + last.content;
            ShownText(Emitted(g, chunks))
              == if last.done && !CalledBy(chunks, |front|) && text != "" && g.toolsOffered && g.suspicious(text)
                 then text + g.warning else text
  {
    hide ShownText, Emitted, TextOf, CallsOf, CalledBy;
    LastShows(g, front, last);
    LastCalled(front, last);
    var text := TextOf(front) + last.content;
    assert TextOf(front) + (last.content + g.warning) == text + g.warning;
    assert TextOf(front) + (last.content + "") == text;
  }

  lemma LastCalled(front: seq<Chunk>, last: Chunk)
    ensures CallsOf(front) + last.calls != [] <==> CalledBy(front + [last], |front|)
  {
    var chunks := front + [last];
    SomeCall(chunks);
    assert chunks[..|chunks| - 1] == front;
    assert CalledBy(chunks, |chunks|) <==> CalledBy(chunks, |front|);
  }

  lemma LastShows(g: UrlGuard, front: seq<Chunk>, last: Chunk)
    requires forall i :: 0 <= i < |front| ==> !front[i].done
    ensures ShownText(Emitted(g, front + [last])) == TextOf(front) + Shows(g, front, last)
  {
    var chunks := front + [last];
    assert chunks[..|chunks| - 1] == front;
    TextBeforeDone(g, front);
    ShownStep(g, front, last);
  }
}
