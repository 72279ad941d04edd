// backend/executors/compact.py and compact_retry.py: how much is dropped, cleared, cut out and put back.
module CompactionLaws {
  import opened Wrappers
  import Text
  import opened Compaction

  // ---------------------------------------------------------------- the workspace context

  /** The first message of the result carries the context, cut at 25000 characters, in front of what it
      said; without messages or without any context but whitespace nothing happens. */
  lemma ContextAppears(ms: seq<Message>, context: string)
    ensures var r := Injected(ms, context);
            if ms == [] || forall i :: 0 <= i < |context| ==> Text.IsSpace(context[i]) then r == ms
            else
              var snippet, n := if |context| > 25000 then context[..25000] else context, |CONTEXT_HEADING|;
              var text := r[0].content;
              && |r| == |ms| && r[1..] == ms[1..] && r[0] == ms[0].(content := text)
              && |text| >= n + |snippet| + |ms[0].content| && text[n..n + |snippet|] == snippet
              && text[|text| - |ms[0].content|..] == ms[0].content
              && (|context| <= 25000 ==>
                    text[n + |snippet|..] == if ms[0].content == "" then "" else "\n\n" + ms[0].content)
  {
    hide Text.IsSpace;
    if ms != [] && !Text.Blank(context) {
      HeaderHolds(context);
      var header, said := ContextHeader(context), ms[0].content;
      var text := Injected(ms, context)[0].content;
      assert header <= text;
      assert said == "" ==> text[|header|..] == "";
      assert said != "" ==> text[|header|..] == "\n\n" + said;
    }
  }

  lemma HeaderHolds(context: string)
    ensures var snippet, n := if |context| > 25000 then context[..25000] else context, |CONTEXT_HEADING|;
            && |ContextHeader(context)| >= n + |snippet| && ContextHeader(context)[n..n + |snippet|] == snippet
            && (|context| <= 25000 ==> |ContextHeader(context)| == n + |snippet|)
  {
  }

  // ---------------------------------------------------------------- retrying with less

  /** What a retry drops: three tenths of the messages rounded down, but one at least, and then the tool
      results that would come first; a last message is always left. */
  lemma DropExact(ms: seq<Message>) returns (t: nat)
    requires |ms| > 1
    ensures 10 * t <= 3 * |ms| < 10 * (t + 1) || (t == 1 && 3 * |ms| < 10)
    ensures t <= DropCount(ms) < |ms|
    ensures forall k :: t <= k < DropCount(ms) ==> ms[k].role == Tool
    ensures ms[DropCount(ms)].role == Tool ==> DropCount(ms) == |ms| - 1
  {
    var tenths := |ms| * 3 / 10;
    t := if tenths < 1 then 1 else tenths;
    HeadSkips(ms, t);
  }

  lemma {:induction false} HeadSkips(ms: seq<Message>, head: nat)
    requires head <= |ms|
    ensures forall k :: head <= k < DropHead(ms, head) ==> ms[k].role == Tool
    decreases |ms| - head
  {
    if head < |ms| && ms[head].role == Tool {
      HeadSkips(ms, head + 1);
    }
  }

  /** Call `i` overflowed and could be shortened, and the next one was given what dropping left of it. */
  predicate Retried(reply: nat -> Reply, k: nat, calls: seq<Call>, i: nat)
    requires i + 1 < |calls|
  {
    && reply(k + i) == Overflow && |calls[i].working| > 1
    && calls[i + 1].dropped == calls[i].dropped + DropCount(calls[i].working)
    && calls[i + 1].working == calls[i].working[DropCount(calls[i].working)..]
  }

  lemma RetriedLater(reply: nat -> Reply, k: nat, first: Call, rest: seq<Call>, i: nat)
    requires i + 1 < |rest| && Retried(reply, k + 1, rest, i)
    ensures Retried(reply, k, [first] + rest, i + 1)
  {
    hide DropCount;
    assert k + 1 + i == k + (i + 1);
  }

  lemma RetriedFirst(reply: nat -> Reply, k: nat, first: Call, rest: seq<Call>)
    requires reply(k) == Overflow && DropCount(first.working) > 0 && rest != []
    requires rest[0] == Call(first.dropped + DropCount(first.working), first.working[DropCount(first.working)..])
    ensures Retried(reply, k, [first] + rest, 0)
  {
  }

  /** The calls made from attempt `k` on follow one another by overflows, each on what the one before has
      left, until one does not overflow, nothing more can be dropped, or four have been made. */
  lemma {:induction false} RetriesExact(reply: nat -> Reply, k: nat, dropped: nat, working: seq<Message>)
    requires k <= 3
    ensures var calls := Calls(reply, k, dropped, working);
            && 1 <= |calls| <= 4 - k && calls[0] == Call(dropped, working)
            && (forall i: nat :: i + 1 < |calls| ==> Retried(reply, k, calls, i))
            && (reply(k + |calls| - 1) != Overflow || |calls[|calls| - 1].working| <= 1 || |calls| == 4 - k)
    decreases 4 - k
  {
    hide Calls, DropCount, Retried;
    CallsStep(reply, k, dropped, working);
    var n := DropCount(working);
    if reply(k) == Overflow && n > 0 {
      if k == 3 {
        CallsEnd(reply, dropped + n, working[n..]);
      } else {
        RetriesExact(reply, k + 1, dropped + n, working[n..]);
        var first, rest := Call(dropped, working), Calls(reply, k + 1, dropped + n, working[n..]);
        RetriedFirst(reply, k, first, rest);
        forall i: nat | i + 1 < |[first] + rest| ensures Retried(reply, k, [first] + rest, i) {
          if i > 0 {
            RetriedLater(reply, k, first, rest, i - 1);
          }
        }
        assert ([first] + rest)[|rest|] == rest[|rest| - 1];
      }
    }
  }

  /** The summary is what the last of these calls came back with, unless it is empty. */
  lemma SummaryIsLast(ms: seq<Message>, reply: nat -> Reply)
    ensures var calls := Calls(reply, 0, 0, ms);
            && |calls| >= 1
            && forall raw :: Outcome(reply, calls) == Some(raw) <==> reply(|calls| - 1) == Summary(raw) && raw != ""
  {
    hide Calls;
    RetriesExact(reply, 0, 0, ms);
  }

  // ---------------------------------------------------------------- clearing

  /** A result of one of the five tools whose results are cleared. */
  predicate Clearable(m: Message) {
    m.role == Tool && (m.name == "run_shell" || m.name == "read_file" || m.name == "read_local_file"
                       || m.name == "list_workspace" || m.name == "run_skill")
  }

  function ClearableFrom(ms: seq<Message>, i: nat): set<nat> { set j: nat | i <= j < |ms| && Clearable(ms[j]) }

  lemma {:induction false} ClearableCount(ms: seq<Message>, i: nat)
    requires i <= |ms|
    ensures CompactableFrom(ms, i) == |ClearableFrom(ms, i)|
    decreases |ms| - i
  {
    if i == |ms| {
      assert ClearableFrom(ms, i) == {};
    } else {
      ClearableCount(ms, i + 1);
      assert Compactable(ms[i]) <==> Clearable(ms[i]);
      var rest := ClearableFrom(ms, i + 1);
      assert i !in rest;
      assert ClearableFrom(ms, i) == if Clearable(ms[i]) then rest + {i} else rest;
    }
  }

  /** A result of these tools is replaced by the marker exactly when at least five of them come later;
      no other message changes, and nothing but the content does. */
  lemma ClearedExactly(ms: seq<Message>, i: nat)
    requires i < |ms|
    ensures |Microcompacted(ms)| == |ms|
    ensures Microcompacted(ms)[i]
            == if Clearable(ms[i]) && |ClearableFrom(ms, i + 1)| >= 5
               then ms[i].(content := "[\U{65E7}\U{5DE5}\U{5177}\U{7ED3}\U{679C}\U{5DF2}\U{6E05}\U{9664}]")
               else ms[i]
  {
    hide CompactableFrom, ClearableFrom;
    ClearableCount(ms, i + 1);
    assert Compactable(ms[i]) <==> Clearable(ms[i]);
  }

  // ---------------------------------------------------------------- exchanges

  /** An assistant message whose nearest user or assistant message before it is a user's. */
  predicate Replies(ms: seq<Message>, i: nat) {
    i < |ms| && ms[i].role == Assistant && LastIsUser(ms, i)
  }

  predicate LastIsUser(ms: seq<Message>, i: nat)
    requires i <= |ms|
  {
    exists u :: 0 <= u < i && ms[u].role == User && forall k :: u < k < i ==> ms[k].role != User && ms[k].role != Assistant
  }

  function RepliesFrom(ms: seq<Message>, i: nat): set<nat> { set j: nat | i <= j < |ms| && Replies(ms, j) }

  lemma LastIsUserStep(ms: seq<Message>, i: nat)
    requires i < |ms|
    ensures LastIsUser(ms, i + 1) <==> ms[i].role == User || (ms[i].role != Assistant && LastIsUser(ms, i))
  {
    if ms[i].role != User && ms[i].role != Assistant && LastIsUser(ms, i) {
      var u :| 0 <= u < i && ms[u].role == User && forall k :: u < k < i ==> ms[k].role != User && ms[k].role != Assistant;
      assert forall k :: u < k < i + 1 ==> ms[k].role != User && ms[k].role != Assistant;
    }
  }

  lemma {:induction false} PairsCount(ms: seq<Message>, i: nat)
    requires i <= |ms|
    ensures PairsFrom(ms, i, LastIsUser(ms, i)) == |RepliesFrom(ms, i)|
    decreases |ms| - i
  {
    hide LastIsUser;
    if i == |ms| {
      assert RepliesFrom(ms, i) == {};
    } else {
      PairsCount(ms, i + 1);
      LastIsUserStep(ms, i);
      var rest := RepliesFrom(ms, i + 1);
      assert i !in rest;
      assert RepliesFrom(ms, i) == if Replies(ms, i) then rest + {i} else rest;
    }
  }

  /** The exchanges are the assistant messages that reply to a user's. */
  lemma PairsAreReplies(ms: seq<Message>)
    ensures Pairs(ms) == |RepliesFrom(ms, 0)|
  {
    hide RepliesFrom, PairsFrom;
    PairsCount(ms, 0);
  }

  /** The first user message and the first assistant message behind it, with no tool message between
      them, in a history of more than four exchanges. */
  predicate SnipsAt(ms: seq<Message>, u: nat, a: nat) {
    && |RepliesFrom(ms, 0)| > 4
    && u < a < |ms| && ms[u].role == User && ms[a].role == Assistant
    && (forall k :: 0 <= k < u ==> ms[k].role != User)
    && forall k :: u < k < a ==> ms[k].role != Assistant && ms[k].role != Tool
  }

  /** Over the threshold such a pair is cut out with all that stands between; otherwise nothing is. */
  lemma SnippedExactly(ms: seq<Message>)
    ensures forall u: nat, a: nat :: SnipsAt(ms, u, a) ==> Snipped(ms, true) == ms[..u] + ms[a + 1..]
    ensures (forall u: nat, a: nat :: !SnipsAt(ms, u, a)) ==> Snipped(ms, true) == ms
    ensures Snipped(ms, false) == ms
  {
    hide RepliesFrom, PairsFrom;
    PairsAreReplies(ms);
    forall u: nat, a: nat | SnipsAt(ms, u, a) ensures SnipRange(ms) == Some((u, a)) {
      assert FirstWith(ms, User, 0) == u;
      assert FirstWith(ms, Assistant, u + 1) == a;
    }
    if SnipRange(ms).Some? {
      var (u, a) := SnipRange(ms).value;
      assert SnipsAt(ms, u, a);
    }
  }
}
