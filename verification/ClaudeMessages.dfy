// backend/ai/client.py, _to_claude_messages: OpenAI-format messages to Claude format.
module ClaudeMessages {
  import opened Wrappers

  /** A parsed JSON value, kept as its canonical text. */
  type Json = string

  datatype Arguments = Raw(text: string) | Parsed(value: Json)

  datatype ToolCall = ToolCall(id: string, name: string, arguments: Arguments)

  /** Message content is a string or a list of blocks; a text block carries whatever content it was given. */
  datatype Content = Str(s: string) | List(blocks: seq<Block>)

  datatype Block =
    | Text(text: Content)
    | ImageUrl(url: string)
    | Image(source: string)
    | ToolUse(id: string, name: string, input: Json)
    | ToolResult(callId: string, result: Content)
    | OtherBlock(data: string)

  datatype Message = Message(role: string, content: Content, toolCalls: seq<ToolCall>, toolCallId: string)

  datatype Claude = Claude(role: string, content: Content)

  predicate Truthy(c: Content) {
    match c
    case Str(s) => s != ""
    case List(bs) => bs != []
  }

  // ---------------------------------------------------------------- converting one message

  function ConvertBlock(b: Block): Block {
    if b.ImageUrl? then Image(b.url) else b
  }

  function ConvertBlocks(bs: seq<Block>): (r: seq<Block>)
    ensures |r| == |bs| && forall i :: 0 <= i < |bs| ==> r[i] == ConvertBlock(bs[i])
  {
    seq(|bs|, i requires 0 <= i < |bs| => ConvertBlock(bs[i]))
  }

  /** `json.loads` of string arguments; None when it raises. */
  type Loads = string -> Option<Json>

  function Input(loads: Loads, a: Arguments): Option<Json> {
    match a
    case Parsed(v) => Some(v)
    case Raw(t) => loads(t)
  }

  predicate Loadable(loads: Loads, m: Message) {
    m.role == "assistant" ==> forall i :: 0 <= i < |m.toolCalls| ==> Input(loads, m.toolCalls[i].arguments).Some?
  }

  function ToolUses(loads: Loads, calls: seq<ToolCall>): seq<Block>
    requires forall i :: 0 <= i < |calls| ==> Input(loads, calls[i].arguments).Some?
  {
    seq(|calls|, i requires 0 <= i < |calls| => ToolUse(calls[i].id, calls[i].name, Input(loads, calls[i].arguments).value))
  }

  predicate CallsTools(m: Message) { m.role == "assistant" && m.toolCalls != [] }

  /** What one message means to Claude on its own. */
  function Converted(loads: Loads, m: Message): Claude
    requires Loadable(loads, m)
  {
    if m.role == "tool" then
      Claude("user", List([ToolResult(m.toolCallId, if Truthy(m.content) then m.content else Str(""))]))
    else if CallsTools(m) then
      Claude("assistant", List((if Truthy(m.content) then [Text(m.content)] else []) + ToolUses(loads, m.toolCalls)))
    else
      match m.content
      case List(bs) => Claude(m.role, List(ConvertBlocks(bs)))
      case Str(_) => Claude(m.role, m.content)
  }

  // ---------------------------------------------------------------- the stream of blocks

  function ToBlocks(c: Content): seq<Block> {
    match c
    case Str(s) => if s == "" then [] else [Text(c)]
    case List(bs) => bs
  }

  type Stream = seq<(string, Block)>

  function Tagged(role: string, bs: seq<Block>): (r: Stream)
    ensures |r| == |bs|
  {
    seq(|bs|, i requires 0 <= i < |bs| => (role, bs[i]))
  }

  /** Each block with the role that says it; system messages say nothing, empty text has no block. */
  function Said(m: Claude): Stream {
    if m.role == "system" then [] else Tagged(m.role, ToBlocks(m.content))
  }

  function Flatten(ms: seq<Claude>): Stream {
    if ms == [] then [] else Flatten(ms[..|ms| - 1]) + Said(ms[|ms| - 1])
  }

  predicate AllLoadable(loads: Loads, ms: seq<Message>) { forall i :: 0 <= i < |ms| ==> Loadable(loads, ms[i]) }

  lemma LoadableConcat(loads: Loads, a: seq<Message>, b: seq<Message>)
    ensures AllLoadable(loads, a + b) <==> AllLoadable(loads, a) && AllLoadable(loads, b)
  {
    hide Loadable;
    if AllLoadable(loads, a + b) {
      forall i | 0 <= i < |a| ensures Loadable(loads, a[i]) {
        assert (a + b)[i] == a[i];
      }
      forall i | 0 <= i < |b| ensures Loadable(loads, b[i]) {
        assert (a + b)[|a| + i] == b[i];
      }
    }
  }

  /** The per-message conversion, in order. */
  function Meaning(loads: Loads, ms: seq<Message>): Stream
    requires AllLoadable(loads, ms)
  {
    if ms == [] then [] else Meaning(loads, ms[..|ms| - 1]) + Said(Converted(loads, ms[|ms| - 1]))
  }

  lemma TaggedConcat(role: string, a: seq<Block>, b: seq<Block>)
    ensures Tagged(role, a + b) == Tagged(role, a) + Tagged(role, b)
  {
  }

  lemma FlattenSnoc(ms: seq<Claude>, m: Claude)
    ensures Flatten(ms + [m]) == Flatten(ms) + Said(m)
  {
    assert (ms + [m])[..|ms|] == ms;
  }

  /** Appending blocks to the last message, under its own role, says them behind everything else. */
  lemma FlattenExtend(ms: seq<Claude>, extra: seq<Block>)
    requires ms != []
    ensures var last := ms[|ms| - 1];
            Flatten(ms[|ms| - 1 := Claude(last.role, List(ToBlocks(last.content) + extra))])
            == Flatten(ms) + Said(Claude(last.role, List(extra)))
  {
    var n := |ms| - 1;
    var last := ms[n];
    var ms' := ms[n := Claude(last.role, List(ToBlocks(last.content) + extra))];
    assert ms'[..n] == ms[..n];
    TaggedConcat(last.role, ToBlocks(last.content), extra);
    hide Tagged, ToBlocks;
    assert Flatten(ms') == Flatten(ms[..n]) + Said(ms'[n]);
    assert Flatten(ms) == Flatten(ms[..n]) + Said(last);
  }

  // ---------------------------------------------------------------- first pass

  /** Tool results join a preceding user message whose content is a list. */
  predicate JoinsLast(raw: seq<Claude>) {
    raw != [] && raw[|raw| - 1].role == "user" && raw[|raw| - 1].content.List?
  }

  method ConvertAll(loads: Loads, messages: seq<Message>) returns (raw: Option<seq<Claude>>)
    ensures raw.Some? <==> AllLoadable(loads, messages)
    ensures raw.Some? ==> Flatten(raw.value) == Meaning(loads, messages)
  {
    hide Flatten, Converted, Said;
    var out: seq<Claude> := [];
    FlattenNil();
    for k := 0 to |messages|
      invariant forall i :: 0 <= i < k ==> Loadable(loads, messages[i])
      invariant Flatten(out) == Meaning(loads, messages[..k])
    {
      var m := messages[k];
      assert messages[..k + 1][..k] == messages[..k];
      var c := ConvertOne(loads, m);
      if c.None? {
        return None;
      }
      if m.role == "tool" && JoinsLast(out) {
        ToolSays(loads, m);
        FlattenExtend(out, c.value.content.blocks);
        var last := out[|out| - 1];
        out := out[|out| - 1 := Claude("user", List(last.content.blocks + c.value.content.blocks))];
      } else {
        FlattenSnoc(out, c.value);
        out := out + [c.value];
      }
    }
    assert messages[..|messages|] == messages;
    raw := Some(out);
  }

  lemma FlattenNil()
    ensures Flatten([]) == []
  {
  }

  lemma ToolSays(loads: Loads, m: Message)
    requires m.role == "tool"
    ensures Converted(loads, m).role == "user" && Converted(loads, m).content.List?
  {
  }

  method ConvertOne(loads: Loads, m: Message) returns (c: Option<Claude>)
    ensures c.Some? <==> Loadable(loads, m)
    ensures c.Some? ==> c.value == Converted(loads, m)
  {
    hide Input, Truthy;
    if m.role == "tool" {
      var result := if Truthy(m.content) then m.content else Str("");
      return Some(Claude("user", List([ToolResult(m.toolCallId, result)])));
    }
    if CallsTools(m) {
      var head: seq<Block> := [];
      if Truthy(m.content) {
        head := [Text(m.content)];
      }
      var uses: seq<Block> := [];
      for i := 0 to |m.toolCalls|
        invariant forall k :: 0 <= k < i ==> Input(loads, m.toolCalls[k].arguments).Some?
        invariant |uses| == i
        invariant forall k :: 0 <= k < i ==>
          uses[k] == ToolUse(m.toolCalls[k].id, m.toolCalls[k].name, Input(loads, m.toolCalls[k].arguments).value)
      {
        var call := m.toolCalls[i];
        var input := Input(loads, call.arguments);
        if input.None? {
          return None;
        }
        uses := uses + [ToolUse(call.id, call.name, input.value)];
      }
      assert uses == ToolUses(loads, m.toolCalls);
      return Some(Claude("assistant", List(head + uses)));
    }
    match m.content {
      case Str(_) => c := Some(Claude(m.role, m.content));
      case List(bs) =>
        var converted: seq<Block> := [];
        for i := 0 to |bs|
          invariant converted == ConvertBlocks(bs)[..i]
        {
          converted := converted + [ConvertBlock(bs[i])];
        }
        assert ConvertBlocks(bs)[..|bs|] == ConvertBlocks(bs);
        c := Some(Claude(m.role, List(converted)));
    }
  }

  // ---------------------------------------------------------------- second pass

  /** No system message is left and neighbours differ in role. */
  predicate Alternating(ms: seq<Claude>) {
    && (forall i :: 0 <= i < |ms| ==> ms[i].role != "system")
    && (forall i :: 0 < i < |ms| ==> ms[i - 1].role != ms[i].role)
  }

  method MergeRoles(raw: seq<Claude>) returns (merged: seq<Claude>)
    ensures Alternating(merged) && Flatten(merged) == Flatten(raw)
  {
    hide Flatten, Tagged, ToBlocks;
    merged := [];
    FlattenNil();
    for k := 0 to |raw|
      invariant Alternating(merged) && Flatten(merged) == Flatten(raw[..k])
    {
      var m := raw[k];
      assert raw[..k + 1] == raw[..k] + [m];
      FlattenSnoc(raw[..k], m);
      if m.role == "system" {
        continue;
      }
      if merged != [] && merged[|merged| - 1].role == m.role {
        var prev := merged[|merged| - 1];
        SaidBlocks(m);
        FlattenExtend(merged, ToBlocks(m.content));
        merged := merged[|merged| - 1 := Claude(prev.role, List(ToBlocks(prev.content) + ToBlocks(m.content)))];
      } else {
        FlattenSnoc(merged, m);
        merged := merged + [m];
      }
    }
    assert raw[..|raw|] == raw;
  }

  lemma SaidBlocks(m: Claude)
    ensures Said(Claude(m.role, List(ToBlocks(m.content)))) == Said(m)
  {
  }

  /** The whole conversion: it fails exactly when some call's arguments do not parse; otherwise no
      system message remains, neighbours differ in role, and the blocks and their speakers are those
      of the messages one by one, in order. */
  method ToClaudeMessages(loads: Loads, messages: seq<Message>) returns (r: Option<seq<Claude>>)
    ensures r.Some? <==> AllLoadable(loads, messages)
    ensures r.Some? ==> Alternating(r.value) && Flatten(r.value) == Meaning(loads, messages)
  {
    var raw := ConvertAll(loads, messages);
    if raw.None? {
      return None;
    }
    var merged := MergeRoles(raw.value);
    r := Some(merged);
  }

  // ---------------------------------------------------------------- what the stream says

  lemma {:induction false} MeaningConcat(loads: Loads, a: seq<Message>, b: seq<Message>)
    requires AllLoadable(loads, a) && AllLoadable(loads, b)
    ensures AllLoadable(loads, a + b)
    ensures Meaning(loads, a + b) == Meaning(loads, a) + Meaning(loads, b)
    decreases |b|
  {
    hide Meaning;
    LoadableConcat(loads, a, b);
    if b == [] {
      assert a + b == a;
      NothingSaid(loads);
    } else {
      hide Loadable, AllLoadable, Converted, Said;
      var front, m := b[..|b| - 1], b[|b| - 1];
      Associates(a, front, [m]);
      assert b == front + [m];
      LoadableConcat(loads, front, [m]);
      MeaningConcat(loads, a, front);
      MeaningSnoc(loads, front, m);
      MeaningSnoc(loads, a + front, m);
      Associates(Meaning(loads, a), Meaning(loads, front), Said(Converted(loads, m)));
    }
  }

  lemma NothingSaid(loads: Loads)
    ensures Meaning(loads, []) == []
  {
  }

  lemma Associates<T>(a: seq<T>, b: seq<T>, c: seq<T>)
    ensures a + b + c == a + (b + c)
  {
  }

  lemma MeaningSnoc(loads: Loads, ms: seq<Message>, m: Message)
    requires AllLoadable(loads, ms) && AllLoadable(loads, [m])
    ensures Loadable(loads, m) && AllLoadable(loads, ms + [m])
    ensures Meaning(loads, ms + [m]) == Meaning(loads, ms) + Said(Converted(loads, m))
  {
    hide Loadable, Converted, Said;
    LoadableConcat(loads, ms, [m]);
    assert [m][0] == m;
    assert (ms + [m])[..|ms|] == ms;
  }

  lemma MeaningOne(loads: Loads, m: Message)
    requires Loadable(loads, m)
    ensures Meaning(loads, [m]) == Said(Converted(loads, m))
  {
    hide Said, Converted, Loadable;
    assert [m][..0] == [];
  }

  /** Each message speaks in its own place, whatever surrounds it. */
  lemma MeaningMiddle(loads: Loads, before: seq<Message>, m: Message, after: seq<Message>)
    requires AllLoadable(loads, before)
    requires AllLoadable(loads, after)
    requires Loadable(loads, m)
    ensures AllLoadable(loads, before + [m] + after)
    ensures Meaning(loads, before + [m] + after)
            == Meaning(loads, before) + Said(Converted(loads, m)) + Meaning(loads, after)
  {
    hide Said, Converted, Loadable, Meaning;
    MeaningConcat(loads, before, [m]);
    MeaningConcat(loads, before + [m], after);
    MeaningOne(loads, m);
  }

  // ---------------------------------------------------------------- what a message says, by its fields

  predicate Falsy(c: Content) { c == Str("") || c == List([]) }

  /** What a call passes on: its parsed arguments, or what its argument text parses to. */
  predicate Passes(loads: Loads, call: ToolCall, b: Block) {
    && b.ToolUse? && b.id == call.id && b.name == call.name
    && match call.arguments
       case Parsed(v) => b.input == v
       case Raw(t) => loads(t) == Some(b.input)
  }

  /** `says` is what message `m` contributes. A tool message is a user's result under its call id. An
      assistant message with calls says its text, if it has any, and then each call in order. System
      messages say nothing. Any other message says its text, if it has any, or its blocks, of which only
      image links change form. */
  predicate SpeaksFor(loads: Loads, m: Message, says: Stream) {
    if m.role == "tool" then says == [("user", ToolResult(m.toolCallId, if Falsy(m.content) then Str("") else m.content))]
    else if m.role == "assistant" && m.toolCalls != [] then
      var k := if Falsy(m.content) then 0 else 1;
      && |says| == k + |m.toolCalls|
      && (k == 1 ==> says[0] == ("assistant", Text(m.content)))
      && forall i :: 0 <= i < |m.toolCalls| ==> says[k + i].0 == "assistant" && Passes(loads, m.toolCalls[i], says[k + i].1)
    else if m.role == "system" then says == []
    else
      match m.content
      case Str(t) => says == if t == "" then [] else [(m.role, Text(Str(t)))]
      case List(bs) =>
        |says| == |bs| && forall i :: 0 <= i < |bs| ==>
          says[i] == (m.role, match bs[i] case ImageUrl(url) => Image(url) case b => b)
  }

  lemma ConvertedSpeaks(loads: Loads, m: Message)
    requires Loadable(loads, m)
    ensures SpeaksFor(loads, m, Said(Converted(loads, m)))
  {
    hide Passes;
    if CallsTools(m) {
      CallsSpeak(loads, m);
    }
  }

  lemma CallsSpeak(loads: Loads, m: Message)
    requires Loadable(loads, m) && CallsTools(m)
    ensures SpeaksFor(loads, m, Said(Converted(loads, m)))
  {
    var says := Said(Converted(loads, m));
    var k := if Falsy(m.content) then 0 else 1;
    forall i | 0 <= i < |m.toolCalls| ensures says[k + i].0 == "assistant" && Passes(loads, m.toolCalls[i], says[k + i].1) {
      assert says[k + i].1 == ToolUses(loads, m.toolCalls)[i];
    }
  }

  /** In the stream of the converted messages each message speaks for itself, between what the messages
      before it and behind it say. */
  lemma EachSpeaks(loads: Loads, before: seq<Message>, m: Message, after: seq<Message>) returns (says: Stream)
    requires AllLoadable(loads, before) && Loadable(loads, m) && AllLoadable(loads, after)
    ensures AllLoadable(loads, before + [m] + after) && Meaning(loads, []) == []
    ensures Meaning(loads, before + [m] + after) == Meaning(loads, before) + says + Meaning(loads, after)
    ensures SpeaksFor(loads, m, says)
  {
    hide Said, Converted, Loadable, AllLoadable, Meaning, SpeaksFor;
    MeaningMiddle(loads, before, m, after);
    ConvertedSpeaks(loads, m);
    NothingSaid(loads);
    says := Said(Converted(loads, m));
  }

  /** Only an argument text that does not parse stops the conversion. */
  lemma LoadableIff(loads: Loads, ms: seq<Message>)
    ensures AllLoadable(loads, ms)
            <==> !exists i, k, t :: 0 <= i < |ms| && ms[i].role == "assistant" && 0 <= k < |ms[i].toolCalls|
                                    && ms[i].toolCalls[k].arguments == Raw(t) && loads(t) == None
  {
    if AllLoadable(loads, ms) {
      forall i, k, t | 0 <= i < |ms| && ms[i].role == "assistant" && 0 <= k < |ms[i].toolCalls|
                       && ms[i].toolCalls[k].arguments == Raw(t)
        ensures loads(t) != None
      {
        assert Loadable(loads, ms[i]) && Input(loads, ms[i].toolCalls[k].arguments).Some?;
      }
    } else {
      var i :| 0 <= i < |ms| && !Loadable(loads, ms[i]);
      var k :| 0 <= k < |ms[i].toolCalls| && Input(loads, ms[i].toolCalls[k].arguments).None?;
      assert ms[i].toolCalls[k].arguments == Raw(ms[i].toolCalls[k].arguments.text);
    }
  }

  /** The result of a tool message is a user block carrying its call id and its content. */
  lemma ToolSaysResult(loads: Loads, m: Message)
    requires m.role == "tool"
    ensures Loadable(loads, m)
    ensures Said(Converted(loads, m))
            == [("user", ToolResult(m.toolCallId, if Truthy(m.content) then m.content else Str("")))]
  {
    hide Truthy;
  }

  /** System messages and plain messages with empty text contribute nothing. */
  lemma SilentMessages(loads: Loads, m: Message)
    requires Loadable(loads, m)
    requires m.role == "system" || (m.role != "tool" && !CallsTools(m) && m.content == Str(""))
    ensures Said(Converted(loads, m)) == []
  {
    hide ToolUses, Truthy;
  }
}
