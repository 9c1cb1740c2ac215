/** Conversation history cut to a number of rounds and a number of characters: old assistant
    answers are compressed first, then the newest messages are kept while they fit. */
module HistoryTruncation {
  import opened Prelude
  import opened ContextCompressor

  /** Content is a string or, for multimodal messages, a list of blocks. */
  datatype Content = Text(text: string) | Blocks(blocks: seq<string>)

  datatype Message = Message(role: string, content: Content)

  /** `len(content)`: characters of a string, entries of a list. */
  function Size(c: Content): nat { if c.Text? then |c.text| else |c.blocks| }

  const DEFAULT_MAX_TURNS := 4

  const DEFAULT_MAX_CHARS := 3000

  const PLACEHOLDER := "[…]"

  /** A message may be cut only if more than this many characters of it can stay. */
  const MIN_CUT := 100

  predicate Spoken(m: Message) { m.role == "user" || m.role == "assistant" }

  function Chars(h: seq<Message>): nat {
    if h == [] then 0 else Size(h[0].content) + Chars(h[1..])
  }

  lemma {:induction false} CharsConcat(g: seq<Message>, h: seq<Message>)
    ensures Chars(g + h) == Chars(g) + Chars(h)
  {
    if g == [] {
      assert g + h == h;
    } else {
      CharsConcat(g[1..], h);
      assert (g + h)[1..] == g[1..] + h;
    }
  }

  /** The spoken messages, limited to the last rounds; zero or a negative count is no limit. */
  function TurnLimited(messages: seq<Message>, maxTurns: int): seq<Message> {
    var h := Filter(Spoken, messages);
    if maxTurns > 0 then LastN(h, maxTurns * 2) else h
  }

  // ------------------------------------------------------------ compressing old answers

  /** An assistant message that is not among the newest two. */
  predicate OldAnswer(h: seq<Message>, i: nat)
    requires i < |h|
  {
    h[i].role == "assistant" && i < |h| - 2
  }

  function CountOldAnswers(h: seq<Message>, n: nat): nat
    requires n <= |h|
  {
    if n == 0 then 0 else CountOldAnswers(h, n - 1) + (if OldAnswer(h, n - 1) then 1 else 0)
  }

  function AnswerBudget(h: seq<Message>, maxChars: int): int {
    Max(120, maxChars / Max(CountOldAnswers(h, |h|), 1))
  }

  /** A string is compressed, a list of blocks gives way to the placeholder. */
  function CompressAnswer(t: Tools, m: Message, budget: int): Message {
    match m.content
    case Blocks(_) => Message("assistant", Text(PLACEHOLDER))
    case Text(text) =>
      var shrunk := CompressMessage(t, text, budget);
      Message("assistant", Text(if shrunk != "" then shrunk else PLACEHOLDER))
  }

  /** Old answers are compressed once the history exceeds two thirds of the limit. */
  function Compressed(t: Tools, h: seq<Message>, maxChars: int): (r: seq<Message>)
    ensures |r| == |h|
  {
    if Chars(h) > maxChars * 2 / 3 then
      var budget := AnswerBudget(h, maxChars);
      seq(|h|, i requires 0 <= i < |h| => if OldAnswer(h, i) then CompressAnswer(t, h[i], budget) else h[i])
    else h
  }

  // ------------------------------------------------------------ keeping the newest

  /** The index from which all messages are kept, having kept those from i on. */
  function KeepFrom(h: seq<Message>, max: int, i: nat): (k: nat)
    requires i <= |h|
    ensures k <= i
    decreases i
  {
    if i == 0 || Chars(h[i..]) + Size(h[i - 1].content) > max then i else KeepFrom(h, max, i - 1)
  }

  /** The first message that did not fit whole is cut, not dropped. */
  predicate Cuts(h: seq<Message>, max: int) {
    var k := KeepFrom(h, max, |h|);
    0 < k && max - Chars(h[k..]) > MIN_CUT
  }

  /** The message that is cut is a list of blocks, to which no ellipsis can be appended. */
  predicate Crashes(h: seq<Message>, max: int) {
    Cuts(h, max) && h[KeepFrom(h, max, |h|) - 1].content.Blocks?
  }

  function CutMessage(m: Message, remaining: nat): Message
    requires m.content.Text?
  {
    Message(m.role, Text(Head(m.content.text, remaining) + ELLIPSIS))
  }

  /** What is kept; None stands for the type error. */
  function KeepNewest(h: seq<Message>, max: int): Option<seq<Message>> {
    var k := KeepFrom(h, max, |h|);
    if Crashes(h, max) then None
    else if Cuts(h, max) then Some([CutMessage(h[k - 1], max - Chars(h[k..]))] + h[k..])
    else Some(h[k..])
  }

  method KeepNewestLoop(h: seq<Message>, max: int) returns (r: Option<seq<Message>>)
    ensures r == KeepNewest(h, max)
  {
    hide Chars;
    EmptyEnding(h);
    var total := 0;
    var result: seq<Message> := [];
    var i := |h|;
    while i > 0
      invariant 0 <= i <= |h|
      invariant result == h[i..] && total == Chars(h[i..])
      invariant KeepFrom(h, max, |h|) == KeepFrom(h, max, i)
      decreases i
    {
      var content := h[i - 1].content;
      if total + Size(content) > max {
        var remaining := max - total;
        if remaining > MIN_CUT {
          if content.Blocks? {
            return None;
          }
          result := [Message(h[i - 1].role, Text(Head(content.text, remaining) + ELLIPSIS))] + result;
        }
        return Some(result);
      }
      assert h[i - 1..] == [h[i - 1]] + h[i..];
      CharsFrom(h, i);
      result := [h[i - 1]] + result;
      total := total + Size(content);
      i := i - 1;
    }
    return Some(result);
  }

  /** The whole truncation; a limit of -1 switches that limit off. */
  function Truncate(t: Tools, messages: seq<Message>, maxTurns: Option<int>, maxChars: Option<int>,
                    defaultTurns: int := DEFAULT_MAX_TURNS, defaultChars: int := DEFAULT_MAX_CHARS)
    : Option<seq<Message>>
  {
    var turns := if maxTurns.Some? then maxTurns.value else defaultTurns;
    var chars := if maxChars.Some? then maxChars.value else defaultChars;
    var h := TurnLimited(messages, turns);
    if chars == -1 then Some(h) else KeepNewest(Compressed(t, h, chars), chars)
  }

  method TruncateHistory(t: Tools, messages: seq<Message>, maxTurns: Option<int>, maxChars: Option<int>,
                         defaultTurns: int := DEFAULT_MAX_TURNS, defaultChars: int := DEFAULT_MAX_CHARS)
    returns (result: Option<seq<Message>>)
    ensures result == Truncate(t, messages, maxTurns, maxChars, defaultTurns, defaultChars)
  {
    var turns := if maxTurns.Some? then maxTurns.value else defaultTurns;
    var chars := if maxChars.Some? then maxChars.value else defaultChars;
    var history := Filter(Spoken, messages);
    if turns == -1 && chars == -1 {
      return Some(history);
    }
    if turns > 0 {
      history := LastN(history, turns * 2);
    }
    if chars == -1 {
      return Some(history);
    }
    if Chars(history) > chars * 2 / 3 {
      history := CompressLoop(t, history, chars);
    }
    result := KeepNewestLoop(history, chars);
  }

  method CompressLoop(t: Tools, h: seq<Message>, maxChars: int) returns (compressed: seq<Message>)
    requires Chars(h) > maxChars * 2 / 3
    ensures compressed == Compressed(t, h, maxChars)
  {
    var count := 0;
    for i := 0 to |h|
      invariant count == CountOldAnswers(h, i)
    {
      if h[i].role == "assistant" && i < |h| - 2 {
        count := count + 1;
      }
    }
    var budget := Max(120, maxChars / Max(count, 1));
    compressed := [];
    for i := 0 to |h|
      invariant compressed == Compressed(t, h, maxChars)[..i]
    {
      if h[i].role == "assistant" && i < |h| - 2 {
        compressed := compressed + [CompressAnswer(t, h[i], budget)];
      } else {
        compressed := compressed + [h[i]];
      }
    }
  }

  // ------------------------------------------------------------ what truncation promises

  lemma {:induction false} CharsShrink(h: seq<Message>, j: nat, k: nat)
    requires j <= k <= |h|
    ensures Chars(h[j..]) >= Chars(h[k..])
  {
    CharsConcat(h[j..k], h[k..]);
    assert h[j..] == h[j..k] + h[k..];
  }

  lemma {:induction false} KeepFromStops(h: seq<Message>, max: int, i: nat)
    requires i <= |h| && (0 <= max ==> Chars(h[i..]) <= max)
    ensures var k := KeepFrom(h, max, i);
            && (0 <= max ==> Chars(h[k..]) <= max)
            && (k == 0 || Chars(h[k - 1..]) > max)
    decreases i
  {
    hide Chars;
    if i > 0 {
      CharsFrom(h, i);
      if Chars(h[i..]) + Size(h[i - 1].content) <= max {
        KeepFromStops(h, max, i - 1);
      }
    }
  }

  /** The messages kept whole are the longest ending of the history that fits the limit. */
  lemma KeepsLongestEnding(h: seq<Message>, max: nat, j: nat)
    requires j <= |h|
    ensures Chars(h[j..]) <= max <==> KeepFrom(h, max, |h|) <= j
  {
    assert h[|h|..] == [];
    KeepFromStops(h, max, |h|);
    var k := KeepFrom(h, max, |h|);
    if k <= j {
      CharsShrink(h, k, j);
    } else {
      CharsShrink(h, j, k - 1);
    }
  }

  lemma EmptyEnding(h: seq<Message>)
    ensures h[|h|..] == [] && Chars(h[|h|..]) == 0
  {
  }

  lemma CharsFrom(h: seq<Message>, k: nat)
    requires 0 < k <= |h|
    ensures Chars(h[k - 1..]) == Size(h[k - 1].content) + Chars(h[k..])
  {
    assert h[k - 1..][0] == h[k - 1] && h[k - 1..][1..] == h[k..];
  }

  lemma CutTotal(m: Message, rest: seq<Message>, max: int)
    requires m.content.Text? && Chars(rest) <= max < Size(m.content) + Chars(rest)
    ensures Chars([CutMessage(m, max - Chars(rest))] + rest) == max + 1
  {
    var cut := [CutMessage(m, max - Chars(rest))];
    CharsConcat(cut, rest);
    assert cut[1..] == [];
  }

  /** The total is within the limit, except that it is one more exactly when a message was cut: that
      one takes all the room that is left, plus the ellipsis. */
  lemma KeepNewestBound(h: seq<Message>, max: int)
    requires !Crashes(h, max)
    ensures var r := KeepNewest(h, max).value;
            if max < 0 then r == [] else if Cuts(h, max) then Chars(r) == max + 1 else Chars(r) <= max
  {
    hide KeepFrom, CutMessage, Chars;
    EmptyEnding(h);
    KeepFromStops(h, max, |h|);
    var k := KeepFrom(h, max, |h|);
    if max < 0 {
      NothingFits(h, max);
    } else if Cuts(h, max) {
      CharsFrom(h, k);
      CutTotal(h[k - 1], h[k..], max);
    }
  }

  lemma NothingFits(h: seq<Message>, max: int)
    requires max < 0
    ensures KeepNewest(h, max) == Some([])
  {
    assert h[|h|..] == [];
    assert KeepFrom(h, max, |h|) == |h|;
  }

  /** `r` is the ending of `h` from k on, except that a cut version of the message just before may
      stand in front of it. */
  ghost predicate EndingAt(r: seq<Message>, h: seq<Message>, k: nat) {
    && k <= |h|
    && (|| r == h[k..]
        || (0 < k && |r| == |h| - k + 1 && r[1..] == h[k..] && CutVersion(r[0], h[k - 1])))
  }

  ghost predicate CutVersion(c: Message, m: Message) {
    && c.role == m.role && c.content.Text? && m.content.Text?
    && |c.content.text| >= MIN_CUT + 2
    && c.content.text[..|c.content.text| - 1] < m.content.text
    && c.content.text[|c.content.text| - 1] == '…'
  }

  ghost predicate EndingOf(r: seq<Message>, h: seq<Message>) {
    exists k :: EndingAt(r, h, k)
  }

  lemma CutIsVersion(m: Message, remaining: int)
    requires m.content.Text? && MIN_CUT < remaining < |m.content.text|
    ensures CutVersion(CutMessage(m, remaining), m)
  {
    var kept := Head(m.content.text, remaining);
    assert (kept + ELLIPSIS)[..|kept + ELLIPSIS| - 1] == kept;
  }

  lemma CutBeforeEnding(c: Message, h: seq<Message>, k: nat)
    requires 0 < k <= |h| && CutVersion(c, h[k - 1])
    ensures EndingAt([c] + h[k..], h, k)
  {
    hide CutVersion;
    var r := [c] + h[k..];
    assert r[0] == c && r[1..] == h[k..];
  }

  lemma KeepNewestIsEnding(h: seq<Message>, max: int)
    requires !Crashes(h, max)
    ensures EndingAt(KeepNewest(h, max).value, h, KeepFrom(h, max, |h|))
  {
    hide KeepFrom, CutMessage, CutVersion, Chars;
    EmptyEnding(h);
    KeepFromStops(h, max, |h|);
    var k := KeepFrom(h, max, |h|);
    if Cuts(h, max) {
      CharsFrom(h, k);
      CutIsVersion(h[k - 1], max - Chars(h[k..]));
      CutBeforeEnding(CutMessage(h[k - 1], max - Chars(h[k..])), h, k);
    }
  }

  /** How many messages of the user or the assistant follow position i. */
  ghost function SpokenAfter(messages: seq<Message>, i: nat): set<nat> {
    set j: nat | i < j < |messages| && (messages[j].role == "user" || messages[j].role == "assistant")
  }

  ghost function SpokenBehind(messages: seq<Message>, i: nat): nat { |SpokenAfter(messages, i)| }

  lemma BehindPlace(messages: seq<Message>, all: seq<nat>, x: nat)
    requires x < |all| && Selects(Spoken, messages, all) && forall y :: 0 <= y < |all| ==> all[y] < |messages|
    ensures SpokenBehind(messages, all[x]) == |all| - 1 - x
  {
    hide Selects;
    var later := all[x + 1..];
    AscendingTail(messages, all, x);
    PlacesCount(later, SpokenAfter(messages, all[x]));
  }

  lemma AscendingTail(messages: seq<Message>, all: seq<nat>, x: nat)
    requires x < |all| && Selects(Spoken, messages, all) && forall y :: 0 <= y < |all| ==> all[y] < |messages|
    ensures Ascending(all[x + 1..])
    ensures forall j: nat :: j in SpokenAfter(messages, all[x]) <==> Has(all[x + 1..], j)
  {
    var later := all[x + 1..];
    forall j: nat ensures j in SpokenAfter(messages, all[x]) <==> Has(later, j) {
      if Has(later, j) {
        var y :| 0 <= y < |later| && later[y] == j;
        assert all[x + 1 + y] == j;
        assert Has(all, j);
      }
      if j in SpokenAfter(messages, all[x]) {
        assert Has(all, j) <==> Spoken(messages[j]);
        var y :| 0 <= y < |all| && all[y] == j;
        assert y > x;
        assert later[y - x - 1] == j;
      }
    }
  }

  /** The limited history: the messages of user and assistant in order and, with a positive number
      of rounds, those with fewer than two per round behind them. */
  lemma TurnLimitedIsExact(messages: seq<Message>, maxTurns: int) returns (at: seq<nat>)
    ensures TakenAt(TurnLimited(messages, maxTurns), messages, at) && Ascending(at)
    ensures forall i: nat :: i < |messages| ==>
              (Has(at, i) <==> (messages[i].role == "user" || messages[i].role == "assistant")
                               && (maxTurns > 0 ==> SpokenBehind(messages, i) < maxTurns * 2))
  {
    hide SpokenBehind, LastN, TakenAt, Has;
    var all := FilterAt(Spoken, messages);
    at := if maxTurns > 0 then LastN(all, maxTurns * 2) else all;
    PlacesInside(Filter(Spoken, messages), messages, all);
    if maxTurns > 0 {
      TakenLast(Filter(Spoken, messages), messages, all, maxTurns * 2);
    }
    forall i: nat | i < |messages|
      ensures Has(at, i) <==> (messages[i].role == "user" || messages[i].role == "assistant")
                              && (maxTurns > 0 ==> SpokenBehind(messages, i) < maxTurns * 2)
    {
      assert Has(all, i) <==> Spoken(messages[i]);
      if maxTurns > 0 {
        LastPlaces(messages, all, maxTurns * 2, i);
      }
    }
  }

  lemma PlacesInside(r: seq<Message>, s: seq<Message>, at: seq<nat>)
    requires TakenAt(r, s, at)
    ensures forall y :: 0 <= y < |at| ==> at[y] < |s|
  {
  }

  lemma TakenLast(r: seq<Message>, s: seq<Message>, at: seq<nat>, m: nat)
    requires TakenAt(r, s, at) && Ascending(at)
    ensures TakenAt(LastN(r, m), s, LastN(at, m)) && Ascending(LastN(at, m))
  {
  }

  lemma LastPlaces(messages: seq<Message>, all: seq<nat>, m: nat, i: nat)
    requires Selects(Spoken, messages, all) && forall y :: 0 <= y < |all| ==> all[y] < |messages|
    ensures Has(LastN(all, m), i) <==> Has(all, i) && SpokenBehind(messages, i) < m
  {
    var last := LastN(all, m);
    var cut := |all| - |last|;
    if Has(all, i) {
      var x :| 0 <= x < |all| && all[x] == i;
      BehindPlace(messages, all, x);
      if x >= cut {
        assert last[x - cut] == i;
      }
    }
    if Has(last, i) {
      var y :| 0 <= y < |last| && last[y] == i;
      assert all[cut + y] == i;
      BehindPlace(messages, all, cut + y);
    }
  }

  /** Old answers, counted. */
  ghost function OldAnswers(h: seq<Message>, n: nat): set<nat>
    requires n <= |h|
  {
    set i: nat | i < n && h[i].role == "assistant" && i < |h| - 2
  }

  lemma OneMoreAnswer(h: seq<Message>, n: nat)
    requires n < |h|
    ensures |OldAnswers(h, n + 1)| == |OldAnswers(h, n)| + if OldAnswer(h, n) then 1 else 0
  {
    if OldAnswer(h, n) {
      assert OldAnswers(h, n + 1) == OldAnswers(h, n) + {n};
    } else {
      assert OldAnswers(h, n + 1) == OldAnswers(h, n);
    }
  }

  lemma {:induction false} OldAnswersCounted(h: seq<Message>, n: nat)
    requires n <= |h|
    ensures CountOldAnswers(h, n) == |OldAnswers(h, n)|
  {
    if n > 0 {
      OldAnswersCounted(h, n - 1);
      OneMoreAnswer(h, n - 1);
    }
  }

  /** The answer is the compressed text within the budget; a placeholder stands for what is empty and
      for a list of blocks. */
  predicate IsShortAnswer(t: Tools, was: Content, now: Message, budget: int) {
    && now.role == "assistant" && now.content.Text?
    && if was.Blocks? || CompressMessage(t, was.text, budget) == "" then now.content.text == "[…]"
       else now.content.text == CompressMessage(t, was.text, budget)
  }

  lemma CrashIsNone(h: seq<Message>, max: int)
    ensures KeepNewest(h, max).None? <==> Crashes(h, max)
  {
  }

  lemma CompressedIsExact(t: Tools, h: seq<Message>, chars: int, i: nat)
    requires i < |h|
    ensures var c := Compressed(t, h, chars);
            if Chars(h) > chars * 2 / 3 && h[i].role == "assistant" && i < |h| - 2
            then IsShortAnswer(t, h[i].content, c[i], Max(120, chars / Max(|OldAnswers(h, |h|)|, 1)))
            else c[i] == h[i]
  {
    hide OldAnswers, CompressMessage, Chars;
    OldAnswersCounted(h, |h|);
  }

  /** A limit that is not given is the default, and a character limit of -1 keeps the whole limited
      history. Otherwise truncation fails exactly when the message to be cut is a list of blocks; the
      total exceeds the limit exactly when a message was cut, and then by one; the result is an
      ending of the compressed history, and that history differs from the limited one exactly in the
      old answers, once the total exceeds two thirds of the limit. */
  lemma TruncateMeaning(t: Tools, messages: seq<Message>, maxTurns: Option<int>, maxChars: Option<int>,
                        defaultTurns: int, defaultChars: int)
    ensures var turns := if maxTurns.Some? then maxTurns.value else defaultTurns;
            var chars := if maxChars.Some? then maxChars.value else defaultChars;
            var r := Truncate(t, messages, maxTurns, maxChars, defaultTurns, defaultChars);
            var h := TurnLimited(messages, turns);
            var c := Compressed(t, h, chars);
            if chars == -1 then r == Some(h)
            else
              && (r.None? <==> Crashes(c, chars))
              && (r.Some? ==>
                    && EndingOf(r.value, c)
                    && (if chars < 0 then r.value == []
                        else if Cuts(c, chars) then Chars(r.value) == chars + 1
                        else Chars(r.value) <= chars))
              && |c| == |h|
              && forall i :: 0 <= i < |h| ==>
                   if Chars(h) > chars * 2 / 3 && h[i].role == "assistant" && i < |h| - 2
                   then IsShortAnswer(t, h[i].content, c[i], Max(120, chars / Max(|OldAnswers(h, |h|)|, 1)))
                   else c[i] == h[i]
  {
    var turns := if maxTurns.Some? then maxTurns.value else defaultTurns;
    var chars := if maxChars.Some? then maxChars.value else defaultChars;
    hide Compressed, TurnLimited, IsShortAnswer, Crashes, Cuts, EndingAt;
    var h := TurnLimited(messages, turns);
    var c := Compressed(t, h, chars);
    CrashIsNone(c, chars);
    forall i | 0 <= i < |h|
      ensures if Chars(h) > chars * 2 / 3 && h[i].role == "assistant" && i < |h| - 2
              then IsShortAnswer(t, h[i].content, c[i], Max(120, chars / Max(|OldAnswers(h, |h|)|, 1)))
              else c[i] == h[i]
    {
      CompressedIsExact(t, h, chars, i);
    }
    if chars != -1 && !Crashes(c, chars) {
      KeepNewestBound(c, chars);
      KeepNewestIsEnding(c, chars);
    }
  }

  lemma CompressedKeepsNewest(t: Tools, h: seq<Message>, chars: int)
    ensures LastN(Compressed(t, h, chars), 2) == LastN(h, 2)
  {
  }

  /** Whatever ending of the history fits the limit also ends the result. */
  lemma FittingEndingIsKept(h: seq<Message>, max: nat, n: nat)
    requires Chars(LastN(h, n)) <= max
    ensures |h| <= n ==> KeepNewest(h, max) == Some(h)
    ensures |h| > n && KeepNewest(h, max).Some? ==> LastN(KeepNewest(h, max).value, n) == LastN(h, n)
  {
    hide Chars, KeepFrom, CutMessage;
    var j := |h| - Min(n, |h|);
    assert h[j..] == LastN(h, n);
    KeepsLongestEnding(h, max, j);
    var k := KeepFrom(h, max, |h|);
    if |h| <= n {
      assert k == 0 && h[0..] == h;
    } else if KeepNewest(h, max).Some? {
      var cut := if Cuts(h, max) then [CutMessage(h[k - 1], max - Chars(h[k..]))] else [];
      assert KeepNewest(h, max).value == cut + h[k..];
      EndsAlike(cut, h, k, n);
    }
  }

  lemma EndsAlike(cut: seq<Message>, h: seq<Message>, k: nat, n: nat)
    requires k <= |h| && n <= |h| - k
    ensures LastN(cut + h[k..], n) == LastN(h, n)
  {
    var rest := h[k..];
    assert h == h[..k] + rest;
    LastNBehind(cut, rest, n);
    LastNBehind(h[..k], rest, n);
  }

  /** The two newest spoken messages are never compressed: if they fit the limit together, they end
      the result unchanged. */
  lemma NewestSurvive(t: Tools, messages: seq<Message>, turns: int, chars: int)
    requires 0 <= chars && Chars(LastN(TurnLimited(messages, turns), 2)) <= chars
    ensures var h, r := TurnLimited(messages, turns), Truncate(t, messages, Some(turns), Some(chars));
            && (|h| <= 2 ==> r == Some(h))
            && (r.Some? && |h| > 2 ==> LastN(r.value, 2) == LastN(h, 2))
  {
    var h := TurnLimited(messages, turns);
    CompressedKeepsNewest(t, h, chars);
    FewAreKept(t, h, chars);
    FittingEndingIsKept(Compressed(t, h, chars), chars, 2);
  }

  lemma FewAreKept(t: Tools, h: seq<Message>, chars: int)
    ensures |h| <= 2 ==> Compressed(t, h, chars) == h
  {
  }

  /** An old answer is replaced by at most its budget plus the longest note. */
  lemma OldAnswersAreBounded(t: Tools, h: seq<Message>, maxChars: int, i: nat)
    requires i < |h| && Chars(h) > maxChars * 2 / 3 && OldAnswer(h, i)
    ensures var c := Compressed(t, h, maxChars)[i].content;
            c.Text? && |c.text| <= Max(120, maxChars / Max(|OldAnswers(h, |h|)|, 1)) + |CODE_NOTE|
  {
    OldAnswersCounted(h, |h|);
    if h[i].content.Text? {
      CompressMessageBound(t, h[i].content.text, AnswerBudget(h, maxChars));
    }
  }
}
