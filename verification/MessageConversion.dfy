/** Translation of a conversation from the Anthropic message format to the OpenAI one. All system
    text ends up in one leading message; tool calls and tool results become messages of their own. */
module MessageConversion {
  import opened Prelude

  // ------------------------------------------------------------ both formats

  datatype Block =
    | TextBlock(text: string)
    | ToolUse(id: string, name: string, arguments: string)
    | ToolResult(toolUseId: string, text: string)
    | Image(base64: bool, mediaType: string, data: string)
    | OtherBlock

  /** Content is a string, a list of blocks, or some other value with its printed form. */
  datatype Content = Plain(text: string) | Blocks(blocks: seq<Block>) | Other(printed: string, truthy: bool)

  datatype Message = Message(role: string, content: Content)

  datatype Call = Call(id: string, name: string, arguments: string)

  datatype Part = TextPart(text: string) | ImagePart(url: string)

  datatype Body = Text(text: string) | Parts(parts: seq<Part>)

  datatype Out =
    | Chat(role: string, body: Body)
    | ToolCalls(text: string, calls: seq<Call>)
    | ToolReply(callId: string, text: string)

  const SYSTEM := "system"

  function RoleOf(o: Out): string {
    match o
    case Chat(role, _) => role
    case ToolCalls(_, _) => "assistant"
    case ToolReply(_, _) => "tool"
  }

  function JoinTexts(sep: string, texts: seq<string>): string {
    if texts == [] then ""
    else if |texts| == 1 then texts[0]
    else JoinTexts(sep, texts[..|texts| - 1]) + sep + texts[|texts| - 1]
  }

  function TextsOf(blocks: seq<Block>): seq<string> {
    if blocks == [] then []
    else (if blocks[0].TextBlock? then [blocks[0].text] else []) + TextsOf(blocks[1..])
  }

  function CallsOf(blocks: seq<Block>): seq<Call> {
    if blocks == [] then []
    else
      (if blocks[0].ToolUse? then [Call(blocks[0].id, blocks[0].name, blocks[0].arguments)] else [])
      + CallsOf(blocks[1..])
  }

  function RepliesOf(blocks: seq<Block>): seq<Out> {
    if blocks == [] then []
    else
      (if blocks[0].ToolResult? then [ToolReply(blocks[0].toolUseId, blocks[0].text)] else []) + RepliesOf(blocks[1..])
  }

  function ImagesOf(blocks: seq<Block>): seq<Part> {
    if blocks == [] then []
    else
      (if blocks[0].Image? && blocks[0].base64
       then [ImagePart("data:" + blocks[0].mediaType + ";base64," + blocks[0].data)] else [])
      + ImagesOf(blocks[1..])
  }

  function TextParts(texts: seq<string>): seq<Part> {
    seq(|texts|, i requires 0 <= i < |texts| => TextPart(texts[i]))
  }

  // ------------------------------------------------------------ one message

  /** The text of a system-role message or of the top-level system field. */
  function SystemText(c: Content): string {
    match c
    case Plain(text) => text
    case Blocks(blocks) => JoinTexts("\n", TextsOf(blocks))
    case Other(printed, truthy) => if truthy then printed else ""
  }

  /** What a message of any other role becomes. */
  function ConvertOne(m: Message): seq<Out> {
    match m.content
    case Plain(text) => [Chat(m.role, Text(text))]
    case Other(printed, _) => [Chat(m.role, Text(printed))]
    case Blocks(blocks) =>
      if CallsOf(blocks) != [] then [ToolCalls(JoinTexts(" ", TextsOf(blocks)), CallsOf(blocks))]
      else if RepliesOf(blocks) != [] then RepliesOf(blocks)
      else
        var parts := TextParts(TextsOf(blocks)) + ImagesOf(blocks);
        if |parts| == 1 && parts[0].TextPart? then [Chat(m.role, Text(parts[0].text))]
        else if parts != [] then [Chat(m.role, Parts(parts))]
        else [Chat(m.role, Text(""))]
  }

  /** Adds system text to the leading system message, creating it if there is none. */
  function MergeSystem(result: seq<Out>, text: string): seq<Out> {
    if text == "" then result
    else if result != [] && RoleOf(result[0]) == SYSTEM && result[0].Chat? && result[0].body.Text?
    then [Chat(SYSTEM, Text(result[0].body.text + "\n\n" + text))] + result[1..]
    else [Chat(SYSTEM, Text(text))] + result
  }

  // ------------------------------------------------------------ the specification

  /** The non-empty system texts in order: the top-level field first. */
  function SystemTexts(messages: seq<Message>, system: Option<Content>): seq<string> {
    if messages == [] then
      (if system.Some? && SystemText(system.value) != "" then [SystemText(system.value)] else [])
    else
      var front, m := SystemTexts(messages[..|messages| - 1], system), messages[|messages| - 1];
      if m.role == SYSTEM && SystemText(m.content) != "" then front + [SystemText(m.content)] else front
  }

  /** The other messages, converted one by one in order. */
  function Converted(messages: seq<Message>): seq<Out> {
    if messages == [] then []
    else
      var front, m := Converted(messages[..|messages| - 1]), messages[|messages| - 1];
      if m.role == SYSTEM then front else front + ConvertOne(m)
  }

  /** The leading system message, if there is any system text. */
  function Leading(texts: seq<string>): seq<Out> {
    if texts == [] then [] else [Chat(SYSTEM, Text(JoinTexts("\n\n", texts)))]
  }

  lemma {:induction false} RepliesAreReplies(blocks: seq<Block>)
    ensures forall i :: 0 <= i < |RepliesOf(blocks)| ==> RepliesOf(blocks)[i].ToolReply?
  {
    if blocks != [] {
      RepliesAreReplies(blocks[1..]);
    }
  }

  lemma ConvertOneHasNoSystem(m: Message)
    requires m.role != SYSTEM
    ensures forall i :: 0 <= i < |ConvertOne(m)| ==> RoleOf(ConvertOne(m)[i]) != SYSTEM
  {
    if m.content.Blocks? {
      RepliesAreReplies(m.content.blocks);
    }
  }

  lemma {:induction false} ConvertedHasNoSystem(messages: seq<Message>)
    ensures forall i :: 0 <= i < |Converted(messages)| ==> RoleOf(Converted(messages)[i]) != SYSTEM
  {
    if messages != [] {
      ConvertedHasNoSystem(messages[..|messages| - 1]);
      var m := messages[|messages| - 1];
      if m.role != SYSTEM {
        ConvertOneHasNoSystem(m);
      }
    }
  }

  lemma {:induction false} SystemTextsNonEmpty(messages: seq<Message>, system: Option<Content>)
    ensures forall i :: 0 <= i < |SystemTexts(messages, system)| ==> SystemTexts(messages, system)[i] != ""
  {
    if messages != [] {
      SystemTextsNonEmpty(messages[..|messages| - 1], system);
    }
  }

  lemma MergeIntoLeading(texts: seq<string>, rest: seq<Out>, text: string)
    requires forall i :: 0 <= i < |rest| ==> RoleOf(rest[i]) != SYSTEM
    ensures MergeSystem(Leading(texts) + rest, text)
         == Leading(if text == "" then texts else texts + [text]) + rest
  {
    if text != "" {
      if texts == [] {
        assert Leading(texts) + rest == rest;
        assert texts + [text] == [text];
      } else {
        assert (texts + [text])[..|texts|] == texts;
        assert (Leading(texts) + rest)[1..] == rest;
      }
    }
  }

  /** The result of a conversion. */
  function ConvertAll(messages: seq<Message>, system: Option<Content>): seq<Out> {
    Leading(SystemTexts(messages, system)) + Converted(messages)
  }

  lemma ConvertStep(messages: seq<Message>, i: nat, system: Option<Content>)
    requires i < |messages|
    ensures ConvertAll(messages[..i + 1], system)
         == if messages[i].role == SYSTEM
            then MergeSystem(ConvertAll(messages[..i], system), SystemText(messages[i].content))
            else ConvertAll(messages[..i], system) + ConvertOne(messages[i])
  {
    var before := messages[..i];
    assert messages[..i + 1][..i] == before;
    if messages[i].role == SYSTEM {
      ConvertedHasNoSystem(before);
      MergeIntoLeading(SystemTexts(before, system), Converted(before), SystemText(messages[i].content));
    }
  }

  lemma ConvertNothing(system: Option<Content>)
    ensures ConvertAll([], system)
         == if system.Some? && SystemText(system.value) != "" then [Chat(SYSTEM, Text(SystemText(system.value)))] else []
  {
    hide SystemText;
  }

  // ------------------------------------------------------------ what a conversation becomes, field by field

  /** `at` names exactly the blocks of one kind, in order, and the fields agree. */
  ghost predicate TextsAt(blocks: seq<Block>, texts: seq<string>, at: seq<nat>) {
    && |at| == |texts| && Ascending(at)
    && (forall x :: 0 <= x < |at| ==> at[x] < |blocks| && blocks[at[x]].TextBlock? && blocks[at[x]].text == texts[x])
    && forall i: nat :: i < |blocks| && blocks[i].TextBlock? ==> Has(at, i)
  }

  ghost predicate CallsAt(blocks: seq<Block>, calls: seq<Call>, at: seq<nat>) {
    && |at| == |calls| && Ascending(at)
    && (forall x :: 0 <= x < |at| ==>
          && at[x] < |blocks| && blocks[at[x]].ToolUse?
          && calls[x].id == blocks[at[x]].id && calls[x].name == blocks[at[x]].name
          && calls[x].arguments == blocks[at[x]].arguments)
    && forall i: nat :: i < |blocks| && blocks[i].ToolUse? ==> Has(at, i)
  }

  ghost predicate RepliesAt(blocks: seq<Block>, replies: seq<Out>, at: seq<nat>) {
    && |at| == |replies| && Ascending(at)
    && (forall x :: 0 <= x < |at| ==>
          && at[x] < |blocks| && blocks[at[x]].ToolResult? && replies[x].ToolReply?
          && replies[x].callId == blocks[at[x]].toolUseId && replies[x].text == blocks[at[x]].text)
    && forall i: nat :: i < |blocks| && blocks[i].ToolResult? ==> Has(at, i)
  }

  ghost predicate ImagesAt(blocks: seq<Block>, images: seq<Part>, at: seq<nat>) {
    && |at| == |images| && Ascending(at)
    && (forall x :: 0 <= x < |at| ==>
          && at[x] < |blocks| && blocks[at[x]].Image? && blocks[at[x]].base64
          && images[x] == ImagePart("data:" + blocks[at[x]].mediaType + ";base64," + blocks[at[x]].data))
    && forall i: nat :: i < |blocks| && blocks[i].Image? && blocks[i].base64 ==> Has(at, i)
  }

  lemma {:induction false} TextsAreFiltered(blocks: seq<Block>)
    ensures var kept := Filter((b: Block) => b.TextBlock?, blocks);
            |kept| == |TextsOf(blocks)| && forall x :: 0 <= x < |kept| ==> TextsOf(blocks)[x] == kept[x].text
  {
    if blocks != [] {
      TextsAreFiltered(blocks[1..]);
    }
  }

  lemma {:induction false} CallsAreFiltered(blocks: seq<Block>)
    ensures var kept := Filter((b: Block) => b.ToolUse?, blocks);
            |kept| == |CallsOf(blocks)| && forall x :: 0 <= x < |kept| ==>
              CallsOf(blocks)[x] == Call(kept[x].id, kept[x].name, kept[x].arguments)
  {
    if blocks != [] {
      CallsAreFiltered(blocks[1..]);
    }
  }

  lemma {:induction false} RepliesAreFiltered(blocks: seq<Block>)
    ensures var kept := Filter((b: Block) => b.ToolResult?, blocks);
            |kept| == |RepliesOf(blocks)| && forall x :: 0 <= x < |kept| ==>
              RepliesOf(blocks)[x] == ToolReply(kept[x].toolUseId, kept[x].text)
  {
    if blocks != [] {
      RepliesAreFiltered(blocks[1..]);
    }
  }

  lemma {:induction false} ImagesAreFiltered(blocks: seq<Block>)
    ensures var kept := Filter((b: Block) => b.Image? && b.base64, blocks);
            |kept| == |ImagesOf(blocks)| && forall x :: 0 <= x < |kept| ==>
              ImagesOf(blocks)[x] == ImagePart("data:" + kept[x].mediaType + ";base64," + kept[x].data)
  {
    if blocks != [] {
      ImagesAreFiltered(blocks[1..]);
    }
  }

  lemma TextsAreExact(blocks: seq<Block>) returns (at: seq<nat>)
    ensures TextsAt(blocks, TextsOf(blocks), at)
  {
    TextsAreFiltered(blocks);
    at := FilterAt((b: Block) => b.TextBlock?, blocks);
  }

  lemma CallsAreExact(blocks: seq<Block>) returns (at: seq<nat>)
    ensures CallsAt(blocks, CallsOf(blocks), at)
  {
    CallsAreFiltered(blocks);
    at := FilterAt((b: Block) => b.ToolUse?, blocks);
  }

  lemma RepliesAreExact(blocks: seq<Block>) returns (at: seq<nat>)
    ensures RepliesAt(blocks, RepliesOf(blocks), at)
  {
    RepliesAreFiltered(blocks);
    at := FilterAt((b: Block) => b.ToolResult?, blocks);
  }

  lemma ImagesAreExact(blocks: seq<Block>) returns (at: seq<nat>)
    ensures ImagesAt(blocks, ImagesOf(blocks), at)
  {
    ImagesAreFiltered(blocks);
    at := FilterAt((b: Block) => b.Image? && b.base64, blocks);
  }

  lemma JoinLast(sep: string, a: seq<string>, t: string)
    requires a != []
    ensures JoinTexts(sep, a + [t]) == JoinTexts(sep, a) + sep + t
  {
    assert (a + [t])[..|a + [t]| - 1] == a;
  }

  lemma JoinEnds(sep: string)
    ensures JoinTexts(sep, []) == "" && forall t :: JoinTexts(sep, [t]) == t
  {
  }

  /** Joining puts the separator between the texts and nothing else. */
  lemma {:induction false} JoinLaw(sep: string, a: seq<string>, b: seq<string>)
    ensures JoinTexts(sep, []) == "" && (|a| == 1 ==> JoinTexts(sep, a) == a[0])
    ensures a != [] && b != [] ==> JoinTexts(sep, a + b) == JoinTexts(sep, a) + sep + JoinTexts(sep, b)
  {
    if a != [] && |b| == 1 {
      JoinLast(sep, a, b[0]);
      assert a + b == a + [b[0]];
    } else if a != [] && b != [] {
      hide JoinTexts;
      var front, last := b[..|b| - 1], b[|b| - 1];
      JoinLaw(sep, a, front);
      JoinLast(sep, a + front, last);
      JoinLast(sep, front, last);
      assert a + b == (a + front) + [last] && b == front + [last];
      Glue(JoinTexts(sep, a) + sep, JoinTexts(sep, front), sep, last);
      Regroup(JoinTexts(sep, front), sep, last);
      JoinEnds(sep);
    }
  }

  /** The single message that blocks without tool traffic become: the texts and then the images, or
      just the text if there is nothing else. */
  ghost predicate PlainBody(blocks: seq<Block>, body: Body, texts: seq<string>, images: seq<Part>) {
    if |texts| == 1 && images == [] then body == Text(texts[0])
    else if texts == [] && images == [] then body == Text("")
    else
      && body.Parts? && |body.parts| == |texts| + |images| && body.parts[|texts|..] == images
      && forall x :: 0 <= x < |texts| ==> body.parts[x] == TextPart(texts[x])
  }

  /** What one message of another role than system becomes. */
  ghost predicate Emits(m: Message, outs: seq<Out>) {
    match m.content
    case Plain(text) => outs == [Chat(m.role, Text(text))]
    case Other(printed, _) => outs == [Chat(m.role, Text(printed))]
    case Blocks(blocks) =>
      if exists i :: 0 <= i < |blocks| && blocks[i].ToolUse? then
        && |outs| == 1 && outs[0].ToolCalls? && (exists at :: CallsAt(blocks, outs[0].calls, at))
        && exists texts, at :: TextsAt(blocks, texts, at) && outs[0].text == JoinTexts(" ", texts)
      else if exists i :: 0 <= i < |blocks| && blocks[i].ToolResult? then
        exists at :: RepliesAt(blocks, outs, at)
      else
        && |outs| == 1 && outs[0].Chat? && outs[0].role == m.role
        && exists texts, at, images, at' :: TextsAt(blocks, texts, at) && ImagesAt(blocks, images, at')
             && PlainBody(blocks, outs[0].body, texts, images)
  }

  lemma SomeCall(blocks: seq<Block>, at: seq<nat>)
    requires CallsAt(blocks, CallsOf(blocks), at)
    ensures CallsOf(blocks) != [] <==> exists i :: 0 <= i < |blocks| && blocks[i].ToolUse?
  {
    if CallsOf(blocks) != [] {
      assert blocks[at[0]].ToolUse?;
    }
    if i :| 0 <= i < |blocks| && blocks[i].ToolUse? {
      assert Has(at, i);
    }
  }

  lemma SomeReply(blocks: seq<Block>, at: seq<nat>)
    requires RepliesAt(blocks, RepliesOf(blocks), at)
    ensures RepliesOf(blocks) != [] <==> exists i :: 0 <= i < |blocks| && blocks[i].ToolResult?
  {
    if RepliesOf(blocks) != [] {
      assert blocks[at[0]].ToolResult?;
    }
    if i :| 0 <= i < |blocks| && blocks[i].ToolResult? {
      assert Has(at, i);
    }
  }

  lemma PlainBodyOfParts(blocks: seq<Block>)
    ensures var parts := TextParts(TextsOf(blocks)) + ImagesOf(blocks);
            var body := if |parts| == 1 && parts[0].TextPart? then Text(parts[0].text)
                        else if parts != [] then Parts(parts) else Text("");
            PlainBody(blocks, body, TextsOf(blocks), ImagesOf(blocks))
  {
    var texts, images := TextsOf(blocks), ImagesOf(blocks);
    var parts := TextParts(texts) + images;
    ImagesAreImages(blocks);
    assert parts[|texts|..] == images;
    assert forall x :: 0 <= x < |texts| ==> parts[x] == TextPart(texts[x]);
  }

  lemma CallsEmitted(m: Message, blocks: seq<Block>, texts: seq<string>, at: seq<nat>, calls: seq<Call>, at': seq<nat>)
    requires m.content == Blocks(blocks) && TextsAt(blocks, texts, at) && CallsAt(blocks, calls, at')
    requires exists i :: 0 <= i < |blocks| && blocks[i].ToolUse?
    ensures Emits(m, [ToolCalls(JoinTexts(" ", texts), calls)])
  {
    hide CallsAt, TextsAt, JoinTexts;
    var outs := [ToolCalls(JoinTexts(" ", texts), calls)];
    assert CallsAt(blocks, outs[0].calls, at');
    assert TextsAt(blocks, texts, at) && outs[0].text == JoinTexts(" ", texts);
  }

  lemma BodyEmitted(m: Message, blocks: seq<Block>, texts: seq<string>, at: seq<nat>, images: seq<Part>, at': seq<nat>,
                    body: Body)
    requires m.content == Blocks(blocks) && TextsAt(blocks, texts, at) && ImagesAt(blocks, images, at')
    requires PlainBody(blocks, body, texts, images)
    requires !exists i :: 0 <= i < |blocks| && blocks[i].ToolUse?
    requires !exists i :: 0 <= i < |blocks| && blocks[i].ToolResult?
    ensures Emits(m, [Chat(m.role, body)])
  {
    hide TextsAt, ImagesAt, PlainBody;
    var outs := [Chat(m.role, body)];
    assert PlainBody(blocks, outs[0].body, texts, images);
  }

  lemma ConvertOneIsExact(m: Message)
    ensures Emits(m, ConvertOne(m))
  {
    if m.content.Blocks? {
      hide Emits, CallsAt, RepliesAt, TextsAt, ImagesAt, PlainBody, CallsOf, RepliesOf, TextsOf, ImagesOf, JoinTexts;
      var blocks := m.content.blocks;
      var calls := CallsAreExact(blocks);
      var replies := RepliesAreExact(blocks);
      var texts := TextsAreExact(blocks);
      var images := ImagesAreExact(blocks);
      SomeCall(blocks, calls);
      SomeReply(blocks, replies);
      if CallsOf(blocks) != [] {
        CallsEmitted(m, blocks, TextsOf(blocks), texts, CallsOf(blocks), calls);
      } else if RepliesOf(blocks) != [] {
        RepliesEmitted(m, blocks, RepliesOf(blocks), replies);
      } else {
        var parts := TextParts(TextsOf(blocks)) + ImagesOf(blocks);
        var body := if |parts| == 1 && parts[0].TextPart? then Text(parts[0].text)
                    else if parts != [] then Parts(parts) else Text("");
        PlainBodyOfParts(blocks);
        BodyEmitted(m, blocks, TextsOf(blocks), texts, ImagesOf(blocks), images, body);
      }
    }
  }

  lemma RepliesEmitted(m: Message, blocks: seq<Block>, replies: seq<Out>, at: seq<nat>)
    requires m.content == Blocks(blocks) && RepliesAt(blocks, replies, at)
    requires !exists i :: 0 <= i < |blocks| && blocks[i].ToolUse?
    requires exists i :: 0 <= i < |blocks| && blocks[i].ToolResult?
    ensures Emits(m, replies)
  {
    hide RepliesAt;
  }

  /** A system message leaves nothing behind, and every other message what it becomes. */
  ghost predicate IsPiece(m: Message, outs: seq<Out>) {
    if m.role == SYSTEM then outs == [] else Emits(m, outs)
  }

  /** The outputs fall into consecutive pieces, one per message. */
  ghost predicate Layout(messages: seq<Message>, outs: seq<Out>, pieces: seq<seq<Out>>) {
    && |pieces| == |messages| && outs == Joined(pieces)
    && forall i :: 0 <= i < |messages| ==> IsPiece(messages[i], pieces[i])
  }

  lemma {:induction false} ConvertedIsExact(messages: seq<Message>) returns (pieces: seq<seq<Out>>)
    ensures Layout(messages, Converted(messages), pieces)
  {
    if messages == [] {
      pieces := [];
    } else {
      hide Emits, ConvertOne;
      var front, m := messages[..|messages| - 1], messages[|messages| - 1];
      var before := ConvertedIsExact(front);
      ConvertOneIsExact(m);
      var more := if m.role == SYSTEM then [] else ConvertOne(m);
      pieces := before + [more];
      assert pieces[..|pieces| - 1] == before;
      assert Converted(front) + [] == Converted(front);
      assert IsPiece(m, more);
    }
  }

  /** The text of a system message or field: blocks are joined line by line, and a value that is
      neither a string nor a list counts by its printed form unless it is empty. */
  ghost predicate IsSystemText(c: Content, text: string) {
    match c
    case Plain(t) => text == t
    case Blocks(blocks) => exists texts, at :: TextsAt(blocks, texts, at) && text == JoinTexts("\n", texts)
    case Other(printed, truthy) => text == if truthy then printed else ""
  }

  lemma SystemTextIsExact(c: Content)
    ensures IsSystemText(c, SystemText(c))
  {
    if c.Blocks? {
      var at := TextsAreExact(c.blocks);
    }
  }

  /** The texts are the non-empty ones of the system messages, in order, where `at` says. */
  ghost predicate SystemTextsAt(messages: seq<Message>, texts: seq<string>, at: seq<nat>) {
    && |at| == |texts| && Ascending(at)
    && (forall x :: 0 <= x < |at| ==>
          && at[x] < |messages| && messages[at[x]].role == SYSTEM
          && texts[x] != "" && IsSystemText(messages[at[x]].content, texts[x]))
    && forall i: nat :: i < |messages| && messages[i].role == SYSTEM && SystemText(messages[i].content) != "" ==> Has(at, i)
  }

  /** The same, with the text of the top-level field in front if there is one. */
  ghost predicate SystemTextsAre(messages: seq<Message>, system: Option<Content>, texts: seq<string>, at: seq<nat>) {
    if system.Some? && SystemText(system.value) != "" then
      texts != [] && IsSystemText(system.value, texts[0]) && SystemTextsAt(messages, texts[1..], at)
    else SystemTextsAt(messages, texts, at)
  }

  lemma SystemTextsOneMore(messages: seq<Message>, texts: seq<string>, at: seq<nat>, m: Message)
    requires SystemTextsAt(messages, texts, at)
    ensures if m.role == SYSTEM && SystemText(m.content) != ""
            then SystemTextsAt(messages + [m], texts + [SystemText(m.content)], at + [|messages|])
            else SystemTextsAt(messages + [m], texts, at)
  {
    hide SystemText, IsSystemText;
    SystemTextIsExact(m.content);
    forall i: nat ensures Has(at + [|messages|], i) <==> Has(at, i) || i == |messages| {
      HasConcat(at, [|messages|], i);
      HasOne(|messages|, i);
    }
  }

  lemma {:induction false} SystemTextsSplit(messages: seq<Message>, system: Option<Content>)
    ensures SystemTexts(messages, system) == SystemTexts([], system) + SystemTexts(messages, None)
  {
    if messages != [] {
      hide SystemText;
      SystemTextsSplit(messages[..|messages| - 1], system);
    }
  }

  lemma {:induction false} MessageTextsAreExact(messages: seq<Message>) returns (at: seq<nat>)
    ensures SystemTextsAt(messages, SystemTexts(messages, None), at)
  {
    if messages == [] {
      at := [];
    } else {
      hide SystemText, SystemTextsAt;
      var front, m := messages[..|messages| - 1], messages[|messages| - 1];
      var before := MessageTextsAreExact(front);
      assert messages == front + [m];
      SystemTextsOneMore(front, SystemTexts(front, None), before, m);
      at := if m.role == SYSTEM && SystemText(m.content) != "" then before + [|front|] else before;
    }
  }

  lemma SystemTextsAreExact(messages: seq<Message>, system: Option<Content>) returns (at: seq<nat>)
    ensures SystemTextsAre(messages, system, SystemTexts(messages, system), at)
  {
    hide SystemText, SystemTextsAt, IsSystemText;
    at := MessageTextsAreExact(messages);
    SystemTextsSplit(messages, system);
    var own := SystemTexts(messages, None);
    if system.Some? && SystemText(system.value) != "" {
      SystemTextIsExact(system.value);
      assert SystemTexts([], system) == [SystemText(system.value)];
      assert ([SystemText(system.value)] + own)[1..] == own;
    } else {
      assert SystemTexts([], system) == [] && [] + own == own;
    }
  }

  /** `texts` are the system texts and `at` the system messages they stand in; `pieces` are the
      outputs of the messages, one by one. */
  method Convert(messages: seq<Message>, system: Option<Content>)
    returns (result: seq<Out>, ghost texts: seq<string>, ghost at: seq<nat>, ghost pieces: seq<seq<Out>>)
    requires system.Some? ==> !system.value.Other?
    ensures SystemTextsAre(messages, system, texts, at)
    ensures if texts == [] then Layout(messages, result, pieces)
            else result != [] && result[0] == Chat(SYSTEM, Text(JoinTexts("\n\n", texts)))
                 && Layout(messages, result[1..], pieces)
    ensures result == ConvertAll(messages, system)
  {
    hide ConvertOne, MergeSystem, SystemText, SystemTextsAre, Layout, Converted;
    result := [];
    if system.Some? {
      var text := SystemText(system.value);
      if text != "" {
        result := [Chat(SYSTEM, Text(text))];
      }
    }
    ConvertNothing(system);
    assert messages[..0] == [];
    var i := 0;
    while i < |messages|
      invariant 0 <= i <= |messages|
      invariant result == ConvertAll(messages[..i], system)
    {
      ConvertStep(messages, i, system);
      if messages[i].role == SYSTEM {
        result := MergeSystem(result, SystemText(messages[i].content));
      } else {
        result := result + ConvertOne(messages[i]);
      }
      i := i + 1;
    }
    assert messages[..i] == messages;
    texts := SystemTexts(messages, system);
    at := SystemTextsAreExact(messages, system);
    pieces := ConvertedIsExact(messages);
    LeadingThenRest(texts, Converted(messages));
  }

  lemma LeadingThenRest(texts: seq<string>, rest: seq<Out>)
    ensures texts == [] ==> Leading(texts) + rest == rest
    ensures texts != [] ==>
              var all := Leading(texts) + rest;
              all != [] && all[0] == Chat(SYSTEM, Text(JoinTexts("\n\n", texts))) && all[1..] == rest
  {
  }

  /** At most one system message, at the front, there exactly when some system text is not empty,
      holding all of it in order; everything behind it is the other messages in order. */
  lemma OneLeadingSystemMessage(messages: seq<Message>, system: Option<Content>)
    ensures var r, texts := ConvertAll(messages, system), SystemTexts(messages, system);
            && (forall i :: 0 <= i < |r| && RoleOf(r[i]) == SYSTEM ==> i == 0)
            && ((r != [] && RoleOf(r[0]) == SYSTEM) <==> texts != [])
            && (texts != [] ==> r[0] == Chat(SYSTEM, Text(JoinTexts("\n\n", texts))) && r[1..] == Converted(messages))
            && (texts == [] ==> r == Converted(messages))
  {
    ConvertedHasNoSystem(messages);
  }

  // ------------------------------------------------------------ tools survive

  function EmittedCalls(outs: seq<Out>): seq<Call> {
    if outs == [] then []
    else EmittedCalls(outs[..|outs| - 1]) + (if outs[|outs| - 1].ToolCalls? then outs[|outs| - 1].calls else [])
  }

  function EmittedReplies(outs: seq<Out>): seq<Out> { Filter((o: Out) => o.ToolReply?, outs) }

  /** The tool calls of the non-system messages, in order. */
  function RequestedCalls(messages: seq<Message>): seq<Call> {
    if messages == [] then []
    else
      var m := messages[|messages| - 1];
      RequestedCalls(messages[..|messages| - 1])
      + (if m.role != SYSTEM && m.content.Blocks? then CallsOf(m.content.blocks) else [])
  }

  /** The tool results of the non-system messages that carry no tool call, in order. */
  function DeliverableReplies(messages: seq<Message>): seq<Out> {
    if messages == [] then []
    else
      var m := messages[|messages| - 1];
      DeliverableReplies(messages[..|messages| - 1])
      + (if m.role != SYSTEM && m.content.Blocks? && CallsOf(m.content.blocks) == []
         then RepliesOf(m.content.blocks) else [])
  }

  lemma {:induction false} EmittedCallsConcat(a: seq<Out>, b: seq<Out>)
    ensures EmittedCalls(a + b) == EmittedCalls(a) + EmittedCalls(b)
  {
    if b == [] {
      assert a + b == a;
    } else {
      EmittedCallsConcat(a, b[..|b| - 1]);
      assert (a + b)[..|a + b| - 1] == a + b[..|b| - 1];
    }
  }

  lemma {:induction false} NoCallsInReplies(outs: seq<Out>)
    requires forall i :: 0 <= i < |outs| ==> !outs[i].ToolCalls?
    ensures EmittedCalls(outs) == []
  {
    if outs != [] {
      NoCallsInReplies(outs[..|outs| - 1]);
    }
  }

  lemma CallsOfOne(m: Message)
    ensures EmittedCalls(ConvertOne(m)) == if m.content.Blocks? then CallsOf(m.content.blocks) else []
  {
    if m.content.Blocks? {
      var blocks := m.content.blocks;
      if CallsOf(blocks) != [] {
        var out := [ToolCalls(JoinTexts(" ", TextsOf(blocks)), CallsOf(blocks))];
        assert ConvertOne(m) == out && out[..0] == [];
        assert EmittedCalls(out) == [] + CallsOf(blocks);
      } else {
        RepliesAreReplies(blocks);
        NoCallsInReplies(ConvertOne(m));
      }
    } else {
      NoCallsInReplies(ConvertOne(m));
    }
  }

  lemma RepliesOfOne(m: Message)
    ensures EmittedReplies(ConvertOne(m))
         == if m.content.Blocks? && CallsOf(m.content.blocks) == [] then RepliesOf(m.content.blocks) else []
  {
    var isReply := (o: Out) => o.ToolReply?;
    if m.content.Blocks? && CallsOf(m.content.blocks) == [] && RepliesOf(m.content.blocks) != [] {
      RepliesAreReplies(m.content.blocks);
      FilterAll(isReply, RepliesOf(m.content.blocks));
    } else {
      FilterNone(isReply, ConvertOne(m));
    }
  }

  /** Every tool call of a non-system message is emitted exactly once and in order. */
  lemma {:induction false} ToolCallsSurvive(messages: seq<Message>)
    ensures EmittedCalls(Converted(messages)) == RequestedCalls(messages)
  {
    if messages != [] {
      var front, m := messages[..|messages| - 1], messages[|messages| - 1];
      ToolCallsSurvive(front);
      EmittedCallsConcat(Converted(front), ConvertOne(m));
      CallsOfOne(m);
    }
  }

  /** Of the tool results exactly those in messages without a tool call are emitted, in order; a
      message that carries both loses its results. */
  lemma {:induction false} ToolResultsSurvive(messages: seq<Message>)
    ensures EmittedReplies(Converted(messages)) == DeliverableReplies(messages)
  {
    if messages != [] {
      var front, m := messages[..|messages| - 1], messages[|messages| - 1];
      ToolResultsSurvive(front);
      FilterConcat((o: Out) => o.ToolReply?, Converted(front), ConvertOne(m));
      RepliesOfOne(m);
    }
  }

  /** The leading system message adds no tool traffic, so both results hold for the whole output. */
  lemma ToolsSurvive(messages: seq<Message>, system: Option<Content>)
    ensures EmittedCalls(ConvertAll(messages, system)) == RequestedCalls(messages)
    ensures EmittedReplies(ConvertAll(messages, system)) == DeliverableReplies(messages)
  {
    var lead := Leading(SystemTexts(messages, system));
    EmittedCallsConcat(lead, Converted(messages));
    NoCallsInReplies(lead);
    FilterConcat((o: Out) => o.ToolReply?, lead, Converted(messages));
    FilterNone((o: Out) => o.ToolReply?, lead);
    ToolCallsSurvive(messages);
    ToolResultsSurvive(messages);
  }

  // ------------------------------------------------------------ texts and images

  predicate IsImage(p: Part) { p.ImagePart? }

  function PartTexts(parts: seq<Part>): seq<string> {
    if parts == [] then [] else (if parts[0].TextPart? then [parts[0].text] else []) + PartTexts(parts[1..])
  }

  function NonEmpty(texts: seq<string>): seq<string> { Filter((t: string) => t != "", texts) }

  /** The non-empty texts an output message shows; tool replies are counted on their own. */
  function ShownTexts(o: Out): seq<string> {
    match o
    case Chat(_, Text(text)) => NonEmpty([text])
    case Chat(_, Parts(parts)) => NonEmpty(PartTexts(parts))
    case ToolCalls(text, _) => NonEmpty([text])
    case ToolReply(_, _) => []
  }

  function ShownImages(o: Out): seq<Part> {
    if o.Chat? && o.body.Parts? then Filter(IsImage, o.body.parts) else []
  }

  function EmittedTexts(outs: seq<Out>): seq<string> {
    if outs == [] then [] else ShownTexts(outs[0]) + EmittedTexts(outs[1..])
  }

  function EmittedImages(outs: seq<Out>): seq<Part> {
    if outs == [] then [] else ShownImages(outs[0]) + EmittedImages(outs[1..])
  }

  /** What is left of a message's texts: all of them, joined into one beside tool calls, and none
      beside tool results without a call. */
  function KeptTexts(m: Message): seq<string> {
    match m.content
    case Plain(text) => NonEmpty([text])
    case Other(printed, _) => NonEmpty([printed])
    case Blocks(blocks) =>
      if CallsOf(blocks) != [] then NonEmpty([JoinTexts(" ", TextsOf(blocks))])
      else if RepliesOf(blocks) != [] then []
      else NonEmpty(TextsOf(blocks))
  }

  /** Images survive only in messages without any tool traffic. */
  function KeptImages(m: Message): seq<Part> {
    if m.content.Blocks? && CallsOf(m.content.blocks) == [] && RepliesOf(m.content.blocks) == []
    then ImagesOf(m.content.blocks) else []
  }

  function SurvivingTexts(messages: seq<Message>): seq<string> {
    if messages == [] then []
    else
      var m := messages[|messages| - 1];
      SurvivingTexts(messages[..|messages| - 1]) + (if m.role == SYSTEM then [] else KeptTexts(m))
  }

  function SurvivingImages(messages: seq<Message>): seq<Part> {
    if messages == [] then []
    else
      var m := messages[|messages| - 1];
      SurvivingImages(messages[..|messages| - 1]) + (if m.role == SYSTEM then [] else KeptImages(m))
  }

  lemma EmittedFirst(o: Out, rest: seq<Out>)
    ensures EmittedTexts([o] + rest) == ShownTexts(o) + EmittedTexts(rest)
    ensures EmittedImages([o] + rest) == ShownImages(o) + EmittedImages(rest)
  {
    hide ShownTexts, ShownImages;
    assert ([o] + rest)[1..] == rest;
  }

  lemma {:induction false} EmittedConcat(a: seq<Out>, b: seq<Out>)
    ensures EmittedTexts(a + b) == EmittedTexts(a) + EmittedTexts(b)
    ensures EmittedImages(a + b) == EmittedImages(a) + EmittedImages(b)
  {
    if a == [] {
      assert a + b == b;
    } else {
      hide EmittedTexts, EmittedImages, ShownTexts, ShownImages;
      var o, rest := a[0], a[1..];
      assert a == [o] + rest && a + b == [o] + (rest + b);
      EmittedConcat(rest, b);
      EmittedFirst(o, rest);
      EmittedFirst(o, rest + b);
      Regroup(ShownTexts(o), EmittedTexts(rest), EmittedTexts(b));
      Regroup(ShownImages(o), EmittedImages(rest), EmittedImages(b));
    }
  }

  lemma EmittedByOne(o: Out)
    ensures EmittedTexts([o]) == ShownTexts(o) && EmittedImages([o]) == ShownImages(o)
  {
    assert [o][1..] == [];
  }

  lemma {:induction false} RepliesShowNothing(outs: seq<Out>)
    requires forall i :: 0 <= i < |outs| ==> outs[i].ToolReply?
    ensures EmittedTexts(outs) == [] && EmittedImages(outs) == []
  {
    if outs != [] {
      RepliesShowNothing(outs[1..]);
    }
  }

  lemma {:induction false} PartTextsSplit(texts: seq<string>, images: seq<Part>)
    requires forall i :: 0 <= i < |images| ==> images[i].ImagePart?
    ensures PartTexts(TextParts(texts) + images) == texts
    decreases |texts| + |images|
  {
    var parts := TextParts(texts) + images;
    if texts != [] {
      assert parts[1..] == TextParts(texts[1..]) + images;
      PartTextsSplit(texts[1..], images);
    } else if images != [] {
      assert parts == images && parts[1..] == TextParts([]) + images[1..];
      PartTextsSplit([], images[1..]);
    }
  }

  lemma {:induction false} ImagesAreImages(blocks: seq<Block>)
    ensures forall i :: 0 <= i < |ImagesOf(blocks)| ==> ImagesOf(blocks)[i].ImagePart?
  {
    if blocks != [] {
      ImagesAreImages(blocks[1..]);
    }
  }

  lemma PartsKept(blocks: seq<Block>)
    ensures var parts := TextParts(TextsOf(blocks)) + ImagesOf(blocks);
            PartTexts(parts) == TextsOf(blocks) && Filter(IsImage, parts) == ImagesOf(blocks)
  {
    ImagesAreImages(blocks);
    PartTextsSplit(TextsOf(blocks), ImagesOf(blocks));
    FilterConcat(IsImage, TextParts(TextsOf(blocks)), ImagesOf(blocks));
    FilterNone(IsImage, TextParts(TextsOf(blocks)));
    FilterAll(IsImage, ImagesOf(blocks));
  }

  lemma OneTextShown(role: string, text: string)
    ensures EmittedTexts([Chat(role, Text(text))]) == NonEmpty([text])
    ensures EmittedImages([Chat(role, Text(text))]) == []
  {
    EmittedByOne(Chat(role, Text(text)));
  }

  lemma PlainPartsShown(role: string, parts: seq<Part>)
    ensures var out := if |parts| == 1 && parts[0].TextPart? then [Chat(role, Text(parts[0].text))]
                       else if parts != [] then [Chat(role, Parts(parts))]
                       else [Chat(role, Text(""))];
            EmittedTexts(out) == NonEmpty(PartTexts(parts)) && EmittedImages(out) == Filter(IsImage, parts)
  {
    if |parts| == 1 && parts[0].TextPart? {
      OneTextShown(role, parts[0].text);
      OneTextPart(parts);
    } else if parts != [] {
      EmittedByOne(Chat(role, Parts(parts)));
    } else {
      OneTextShown(role, "");
      assert NonEmpty([""]) == [];
    }
  }

  lemma OneTextPart(parts: seq<Part>)
    requires |parts| == 1 && parts[0].TextPart?
    ensures PartTexts(parts) == [parts[0].text] && Filter(IsImage, parts) == []
  {
    assert parts[1..] == [];
    FilterNone(IsImage, parts);
  }

  lemma KeptByOne(m: Message)
    ensures EmittedTexts(ConvertOne(m)) == KeptTexts(m) && EmittedImages(ConvertOne(m)) == KeptImages(m)
  {
    match m.content
    case Plain(text) => EmittedByOne(Chat(m.role, Text(text)));
    case Other(printed, _) => EmittedByOne(Chat(m.role, Text(printed)));
    case Blocks(blocks) =>
      if CallsOf(blocks) != [] {
        EmittedByOne(ToolCalls(JoinTexts(" ", TextsOf(blocks)), CallsOf(blocks)));
      } else if RepliesOf(blocks) != [] {
        RepliesAreReplies(blocks);
        RepliesShowNothing(RepliesOf(blocks));
      } else {
        PartsKept(blocks);
        PlainPartsShown(m.role, TextParts(TextsOf(blocks)) + ImagesOf(blocks));
      }
  }

  /** Of the texts and images of the non-system messages exactly the kept ones are emitted, in
      order: a message with tool results and no call loses both, one with calls its images. */
  lemma {:induction false} TextsAndImagesSurvive(messages: seq<Message>)
    ensures EmittedTexts(Converted(messages)) == SurvivingTexts(messages)
    ensures EmittedImages(Converted(messages)) == SurvivingImages(messages)
  {
    if messages != [] {
      var front, m := messages[..|messages| - 1], messages[|messages| - 1];
      TextsAndImagesSurvive(front);
      EmittedConcat(Converted(front), ConvertOne(m));
      KeptByOne(m);
    }
  }
}
