// backend/executors/compact.py and compact_retry.py: shrinking a conversation without breaking it.
module Compaction {
  import opened Wrappers
  import Text

  datatype Role = System | User | Assistant | Tool

  /** `calls` are the tool-call ids an assistant message issues; `callId` is the one a tool message answers. */
  datatype Message = Message(role: Role, name: string, content: string, calls: set<string>, callId: string)

  // ---------------------------------------------------------------- the split point

  function Walk(ms: seq<Message>, i: int): (r: int)
    requires i <= |ms|
    ensures r <= i && (0 <= i ==> 0 <= r)
    ensures r <= 0 || r == |ms| || ms[r].role != Tool
    ensures forall j :: r < j <= i ==> 0 < j < |ms| && ms[j].role == Tool
    decreases i
  {
    if 0 < i < |ms| && ms[i].role == Tool then Walk(ms, i - 1) else i
  }

  /** Where the history is cut when `keep` recent messages are to stay; None when compaction stops. */
  function SplitPoint(ms: seq<Message>, keep: nat): Option<nat> {
    if |ms| <= keep then None
    else
      var i := Walk(ms, |ms| - keep);
      if i <= 0 then None else Some(i)
  }

  method FindSplit(ms: seq<Message>, keep: nat) returns (r: Option<nat>)
    ensures r == SplitPoint(ms, keep)
  {
    if |ms| <= keep {
      return None;
    }
    var split := |ms| - keep;
    while 0 < split < |ms| && ms[split].role == Tool
      invariant 0 <= split <= |ms| && Walk(ms, split) == Walk(ms, |ms| - keep)
      decreases split
    {
      split := split - 1;
    }
    r := if split <= 0 then None else Some(split);
  }

  /** Cutting at `i` leaves every tool message on the side of the message before it. */
  predicate KeepsGroups(ms: seq<Message>, i: nat) {
    forall j :: 0 < j < |ms| && ms[j].role == Tool ==> (j < i <==> j - 1 < i)
  }

  /** The cut keeps at least `keep` messages, starts the kept part with a non-tool message, splits no
      tool group, and is the latest cut that does. */
  lemma SplitIsSafeAndLatest(ms: seq<Message>, keep: nat)
    requires SplitPoint(ms, keep).Some?
    ensures var i := SplitPoint(ms, keep).value;
            && 0 < i <= |ms| && |ms[i..]| >= keep
            && (ms[i..] == [] || ms[i..][0].role != Tool)
            && KeepsGroups(ms, i)
            && forall j: nat :: i < j <= |ms| - keep ==> !KeepsGroups(ms, j)
  {
    var i := SplitPoint(ms, keep).value;
    forall j: nat | i < j <= |ms| - keep ensures !KeepsGroups(ms, j) {
      assert ms[j].role == Tool;
    }
  }

  /** Compaction stops exactly when there is nothing to drop or every earlier cut falls into a tool run. */
  lemma SplitStops(ms: seq<Message>, keep: nat)
    ensures SplitPoint(ms, keep).None? <==>
            |ms| <= keep || forall j :: 0 < j <= |ms| - keep ==> j < |ms| && ms[j].role == Tool
  {
    if |ms| > keep && SplitPoint(ms, keep).Some? {
      var i := Walk(ms, |ms| - keep);
      assert 0 < i <= |ms| - keep;
    }
  }

  // ---------------------------------------------------------------- tool results keep their calls

  /** The nearest message before `j` that is not a tool message; -1 when there is none. */
  function Owner(ms: seq<Message>, j: nat): (r: int)
    requires j <= |ms|
    ensures -1 <= r < j && (0 <= r ==> ms[r].role != Tool)
    ensures forall k :: r < k < j ==> ms[k].role == Tool
  {
    if j == 0 then -1 else if ms[j - 1].role != Tool then j - 1 else Owner(ms, j - 1)
  }

  /** The tool message at `j` answers a call of the assistant message its group follows. */
  predicate Answered(ms: seq<Message>, j: nat)
    requires j < |ms|
  {
    var o := Owner(ms, j);
    o >= 0 && ms[o].role == Assistant && ms[j].callId in ms[o].calls
  }

  predicate WellPaired(ms: seq<Message>) {
    forall j :: 0 <= j < |ms| && ms[j].role == Tool ==> Answered(ms, j)
  }

  lemma {:induction false} OwnerIs(ms: seq<Message>, j: nat, o: int)
    requires j <= |ms| && -1 <= o < j && (0 <= o ==> ms[o].role != Tool)
    requires forall k :: o < k < j ==> ms[k].role == Tool
    ensures Owner(ms, j) == o
  {
    if o < j - 1 {
      OwnerIs(ms, j - 1, o);
    }
  }

  lemma PrefixWellPaired(ms: seq<Message>, i: nat)
    requires i <= |ms| && WellPaired(ms)
    ensures WellPaired(ms[..i])
  {
    forall j | 0 <= j < i && ms[..i][j].role == Tool ensures Answered(ms[..i], j) {
      assert Answered(ms, j);
      OwnerIs(ms[..i], j, Owner(ms, j));
    }
  }

  /** A part that does not start inside a tool group stays well paired behind anything. */
  lemma SuffixWellPaired(ms: seq<Message>, i: nat, front: seq<Message>)
    requires i <= |ms| && WellPaired(ms) && WellPaired(front)
    requires i == |ms| || ms[i].role != Tool
    ensures WellPaired(front + ms[i..])
  {
    var r := front + ms[i..];
    forall j | 0 <= j < |r| && r[j].role == Tool ensures Answered(r, j) {
      if j < |front| {
        assert Answered(front, j);
        OwnerIs(r, j, Owner(front, j));
      } else {
        var k := j - |front| + i;
        assert r[j] == ms[k] && Answered(ms, k);
        var o := Owner(ms, k);
        assert o >= i;
        forall m | o - i + |front| < m < j ensures r[m].role == Tool {
          assert r[m] == ms[m - |front| + i];
        }
        OwnerIs(r, j, o - i + |front|);
      }
    }
  }

  /** The single message that stands for the compacted part. */
  function SummaryMessage(content: string): Message { Message(User, "", content, {}, "") }

  /** `compact_conversation`: a summary, or a marker when the model failed, in place of the head. */
  function Compacted(ms: seq<Message>, keep: nat, head: string): seq<Message> {
    match SplitPoint(ms, keep)
    case None => ms
    case Some(i) => [SummaryMessage(head)] + ms[i..]
  }

  /** Compaction never separates a tool result from its call, whatever the summary says. */
  lemma CompactionKeepsPairs(ms: seq<Message>, keep: nat, head: string)
    requires WellPaired(ms)
    ensures WellPaired(Compacted(ms, keep, head))
    ensures SplitPoint(ms, keep).Some? ==> WellPaired(ms[..SplitPoint(ms, keep).value])
  {
    hide WellPaired;
    if SplitPoint(ms, keep).Some? {
      var i := SplitPoint(ms, keep).value;
      SplitIsSafeAndLatest(ms, keep);
      SummaryWellPaired(head);
      SuffixWellPaired(ms, i, [SummaryMessage(head)]);
      PrefixWellPaired(ms, i);
    }
  }

  lemma SummaryWellPaired(head: string)
    ensures WellPaired([SummaryMessage(head)])
  {
  }

  // ---------------------------------------------------------------- clearing stale tool results

  const MC_KEEP_RECENT_TOOL_RESULTS := 5
  const MC_CLEARED_MARKER := "[\U{65E7}\U{5DE5}\U{5177}\U{7ED3}\U{679C}\U{5DF2}\U{6E05}\U{9664}]"
  const MICROCOMPACT_TOOLS := {"run_shell", "read_file", "read_local_file", "list_workspace", "run_skill"}

  predicate Compactable(m: Message) { m.role == Tool && m.name in MICROCOMPACT_TOOLS }

  /** The indices below `n` of compactable tool results, ascending. */
  function CompactableIndices(ms: seq<Message>, n: nat): seq<nat>
    requires n <= |ms|
  {
    if n == 0 then []
    else if Compactable(ms[n - 1]) then CompactableIndices(ms, n - 1) + [n - 1]
    else CompactableIndices(ms, n - 1)
  }

  /** How many compactable tool results come at or after `i`. */
  function CompactableFrom(ms: seq<Message>, i: nat): nat
    requires i <= |ms|
    decreases |ms| - i
  {
    if i == |ms| then 0 else CompactableFrom(ms, i + 1) + if Compactable(ms[i]) then 1 else 0
  }

  /** A compactable result with at least five later ones is stale. */
  predicate StaleAt(ms: seq<Message>, i: nat)
    requires i < |ms|
  {
    Compactable(ms[i]) && CompactableFrom(ms, i + 1) >= MC_KEEP_RECENT_TOOL_RESULTS
  }

  function ClearedAt(ms: seq<Message>, i: nat): Message
    requires i < |ms|
  {
    if StaleAt(ms, i) then ms[i].(content := MC_CLEARED_MARKER) else ms[i]
  }

  /** Stale results lose their content; everything else, and the structure, stays. */
  function Microcompacted(ms: seq<Message>): (r: seq<Message>)
    ensures |r| == |ms|
  {
    seq(|ms|, i requires 0 <= i < |ms| => ClearedAt(ms, i))
  }

  lemma {:induction false} IndicesCounted(ms: seq<Message>, n: nat)
    requires n <= |ms|
    ensures |CompactableIndices(ms, n)| + CompactableFrom(ms, n) == CompactableFrom(ms, 0)
  {
    if n > 0 {
      IndicesCounted(ms, n - 1);
    }
  }

  /** The p-th compactable index has exactly p compactable ones before it. */
  lemma {:induction false} IndexAt(ms: seq<Message>, n: nat, p: nat)
    requires n <= |ms| && p < |CompactableIndices(ms, n)|
    ensures CompactableIndices(ms, n)[p] < n && Compactable(ms[CompactableIndices(ms, n)[p]])
    ensures CompactableFrom(ms, CompactableIndices(ms, n)[p] + 1) == CompactableFrom(ms, 0) - p - 1
  {
    hide Compactable;
    if p < |CompactableIndices(ms, n - 1)| {
      IndexAt(ms, n - 1, p);
    } else {
      IndicesCounted(ms, n);
    }
  }

  lemma {:induction false} IndexOf(ms: seq<Message>, n: nat, i: nat) returns (p: nat)
    requires i < n <= |ms| && Compactable(ms[i])
    ensures p < |CompactableIndices(ms, n)| && CompactableIndices(ms, n)[p] == i
  {
    hide Compactable;
    if i == n - 1 {
      p := |CompactableIndices(ms, n - 1)|;
    } else {
      p := IndexOf(ms, n - 1, i);
    }
  }

  method ApplyToolResultMicrocompact(ms: seq<Message>) returns (result: seq<Message>)
    ensures result == Microcompacted(ms)
  {
    hide CompactableIndices, CompactableFrom, Compactable;
    var idxs := CompactableIndices(ms, |ms|);
    IndicesCounted(ms, |ms|);
    TotalCompactable(ms);
    forall p | 0 <= p < |idxs|
      ensures idxs[p] < |ms| && Compactable(ms[idxs[p]]) && CompactableFrom(ms, idxs[p] + 1) == |idxs| - p - 1
    {
      IndexAt(ms, |ms|, p);
    }
    var clear := if |idxs| > MC_KEEP_RECENT_TOOL_RESULTS then |idxs| - MC_KEEP_RECENT_TOOL_RESULTS else 0;
    result := ms;
    for p := 0 to clear
      invariant |result| == |ms|
      invariant forall q :: 0 <= q < p ==> result[idxs[q]] == ms[idxs[q]].(content := MC_CLEARED_MARKER)
      invariant forall i :: 0 <= i < |ms| && (forall q :: 0 <= q < p ==> idxs[q] != i) ==> result[i] == ms[i]
    {
      var m := result[idxs[p]];
      if m.content != MC_CLEARED_MARKER {
        result := result[idxs[p] := m.(content := MC_CLEARED_MARKER)];
      }
    }
    forall i | 0 <= i < |ms| ensures result[i] == ClearedAt(ms, i) {
      if Compactable(ms[i]) {
        var q := IndexOf(ms, |ms|, i);
      }
    }
  }

  lemma TotalCompactable(ms: seq<Message>)
    ensures CompactableFrom(ms, |ms|) == 0
  {
  }

  /** Two histories whose messages agree in role and name have the same stale positions. */
  predicate SameShape(a: seq<Message>, b: seq<Message>) {
    |a| == |b| && forall i :: 0 <= i < |a| ==> a[i].role == b[i].role && a[i].name == b[i].name
  }

  lemma {:induction false} CompactableSame(a: seq<Message>, b: seq<Message>, i: nat)
    requires SameShape(a, b) && i <= |a|
    ensures CompactableFrom(a, i) == CompactableFrom(b, i)
    decreases |a| - i
  {
    if i < |a| {
      CompactableSame(a, b, i + 1);
    }
  }

  lemma {:induction false} CompactableGrows(a: seq<Message>, b: seq<Message>, i: nat)
    requires i <= |a|
    ensures CompactableFrom(a + b, i) >= CompactableFrom(a, i)
    decreases |a| - i
  {
    if i < |a| {
      CompactableGrows(a, b, i + 1);
    }
  }

  /** Clearing after every round is clearing once at the end: nothing already cleared matters later. */
  lemma MicrocompactIncremental(a: seq<Message>, b: seq<Message>)
    ensures Microcompacted(Microcompacted(a) + b) == Microcompacted(a + b)
  {
    hide CompactableFrom;
    var once, twice := a + b, Microcompacted(a) + b;
    assert SameShape(twice, once);
    forall i | 0 <= i < |once| ensures Microcompacted(twice)[i] == Microcompacted(once)[i] {
      CompactableSame(twice, once, i + 1);
      if i < |a| {
        CompactableGrows(a, b, i + 1);
      }
    }
  }

  // ---------------------------------------------------------------- snipping the oldest pair

  const SNIP_KEEP_PAIRS := 4

  /** Complete user-then-assistant exchanges from message `i` on, given the last role of the two seen before. */
  function PairsFrom(ms: seq<Message>, i: nat, lastUser: bool): nat
    requires i <= |ms|
    decreases |ms| - i
  {
    if i == |ms| then 0
    else if ms[i].role == User then PairsFrom(ms, i + 1, true)
    else if ms[i].role == Assistant then PairsFrom(ms, i + 1, false) + if lastUser then 1 else 0
    else PairsFrom(ms, i + 1, lastUser)
  }

  function Pairs(ms: seq<Message>): nat { PairsFrom(ms, 0, false) }

  method CountConversationPairs(ms: seq<Message>) returns (pairs: nat)
    ensures pairs == Pairs(ms)
  {
    pairs := 0;
    var last: Option<Role> := None;
    for i := 0 to |ms|
      invariant pairs + PairsFrom(ms, i, last == Some(User)) == Pairs(ms)
    {
      var role := ms[i].role;
      if role == User || role == Assistant {
        if role == Assistant && last == Some(User) {
          pairs := pairs + 1;
        }
        last := Some(role);
      }
    }
  }

  function FirstWith(ms: seq<Message>, role: Role, i: nat): (r: nat)
    requires i <= |ms|
    ensures i <= r <= |ms| && (r < |ms| ==> ms[r].role == role)
    ensures forall k :: i <= k < r ==> ms[k].role != role
    decreases |ms| - i
  {
    if i == |ms| || ms[i].role == role then i else FirstWith(ms, role, i + 1)
  }

  /** The pair that is cut out: the first user message and the first assistant message behind it, when
      there are pairs to spare and no tool message stands between the two. */
  function SnipRange(ms: seq<Message>): Option<(nat, nat)> {
    if Pairs(ms) <= SNIP_KEEP_PAIRS then None
    else
      var u := FirstWith(ms, User, 0);
      if u == |ms| then None
      else
        var a := FirstWith(ms, Assistant, u + 1);
        if a == |ms| || exists k :: u < k < a && ms[k].role == Tool then None else Some((u, a))
  }

  function Snipped(ms: seq<Message>, overThreshold: bool): seq<Message> {
    if !overThreshold || SnipRange(ms).None? then ms
    else
      var (u, a) := SnipRange(ms).value;
      ms[..u] + ms[a + 1..]
  }

  lemma {:induction false} PairsSkip(ms: seq<Message>, i: nat, j: nat, lastUser: bool)
    requires i <= j <= |ms| && forall k :: i <= k < j ==> ms[k].role != User && ms[k].role != Assistant
    ensures PairsFrom(ms, i, lastUser) == PairsFrom(ms, j, lastUser)
    decreases j - i
  {
    if i < j {
      PairsSkip(ms, i + 1, j, lastUser);
    }
  }

  /** Without users there is no pair, and what follows starts afresh. */
  lemma {:induction false} PairsWithoutUser(ms: seq<Message>, i: nat, j: nat)
    requires i <= j <= |ms| && forall k :: i <= k < j ==> ms[k].role != User
    ensures PairsFrom(ms, i, false) == PairsFrom(ms, j, false)
    decreases j - i
  {
    if i < j {
      PairsWithoutUser(ms, i + 1, j);
    }
  }

  lemma {:induction false} PairsWithoutAssistant(ms: seq<Message>, i: nat, j: nat)
    requires i <= j <= |ms| && forall k :: i <= k < j ==> ms[k].role != Assistant
    ensures PairsFrom(ms, i, true) == PairsFrom(ms, j, true)
    decreases j - i
  {
    if i < j {
      PairsWithoutAssistant(ms, i + 1, j);
    }
  }

  lemma {:induction false} PairsSame(a: seq<Message>, b: seq<Message>, i: nat, j: nat, lastUser: bool)
    requires i <= |a| && j <= |b| && a[i..] == b[j..]
    ensures PairsFrom(a, i, lastUser) == PairsFrom(b, j, lastUser)
    decreases |a| - i
  {
    assert |a| - i == |b| - j;
    if i < |a| {
      assert a[i] == a[i..][0] == b[j..][0] == b[j];
      assert a[i + 1..] == a[i..][1..] && b[j + 1..] == b[j..][1..];
      PairsSame(a, b, i + 1, j + 1, if a[i].role == User then true else if a[i].role == Assistant then false else lastUser);
    }
  }

  /** Snipping removes exactly one exchange, so at least four remain. */
  lemma SnipRemovesOnePair(ms: seq<Message>)
    requires SnipRange(ms).Some?
    ensures Pairs(Snipped(ms, true)) == Pairs(ms) - 1 >= SNIP_KEEP_PAIRS
  {
    hide PairsFrom;
    var (u, a) := SnipRange(ms).value;
    var r := Snipped(ms, true);
    PairsWithoutUser(ms, 0, u);
    PairStep(ms, u, false);
    PairsWithoutAssistant(ms, u + 1, a);
    PairStep(ms, a, true);
    assert forall k :: 0 <= k < u ==> r[k] == ms[k];
    PairsWithoutUser(r, 0, u);
    assert r[u..] == ms[a + 1..];
    PairsSame(r, ms, u, a + 1, false);
  }

  lemma PairStep(ms: seq<Message>, i: nat, lastUser: bool)
    requires i < |ms|
    ensures ms[i].role == User ==> PairsFrom(ms, i, lastUser) == PairsFrom(ms, i + 1, true)
    ensures ms[i].role == Assistant ==> PairsFrom(ms, i, lastUser) == PairsFrom(ms, i + 1, false) + if lastUser then 1 else 0
  {
  }

  /** No call id is issued by two messages. */
  predicate CallsDistinct(ms: seq<Message>) {
    forall i, j :: 0 <= i < j < |ms| ==> ms[i].calls !! ms[j].calls
  }

  /** The tool message at `j` answers a call of the assistant message that `u` stands behind. */
  predicate AnswersBefore(ms: seq<Message>, u: nat, j: nat)
    requires u <= |ms| && j < |ms|
  {
    var o := Owner(ms, u);
    o >= 0 && ms[o].role == Assistant && ms[j].callId in ms[o].calls
  }

  /** Every result that follows the removed assistant message answers a call of the assistant message
      that then comes to stand before it. */
  predicate AnsweredEarlier(ms: seq<Message>, u: nat, a: nat)
    requires u <= a < |ms|
  {
    forall j :: a < j < |ms| && ms[j].role == Tool && Owner(ms, j) == a ==> AnswersBefore(ms, u, j)
  }

  /** Where a message behind the removed range finds the one its group follows. */
  lemma OwnerSnipped(ms: seq<Message>, u: nat, a: nat, j: nat)
    requires u <= a < j < |ms| && ms[a].role != Tool
    ensures var r := ms[..u] + ms[a + 1..];
            Owner(r, u + j - a - 1) == if Owner(ms, j) == a then Owner(ms, u) else Owner(ms, j) - (a + 1 - u)
    ensures Owner(ms, j) >= a
  {
    var r, o := ms[..u] + ms[a + 1..], Owner(ms, j);
    forall k | u <= k < |r| ensures r[k] == ms[k + a + 1 - u] {
    }
    OwnerIs(r, u + j - a - 1, if o == a then Owner(ms, u) else o - (a + 1 - u));
  }

  lemma AnsweredSnipped(ms: seq<Message>, u: nat, a: nat, j: nat)
    requires u <= a < j < |ms| && ms[a].role != Tool
    ensures var r := ms[..u] + ms[a + 1..];
            && r[u + j - a - 1] == ms[j]
            && (Answered(r, u + j - a - 1) <==> if Owner(ms, j) == a then AnswersBefore(ms, u, j) else Answered(ms, j))
  {
    hide Owner;
    OwnerSnipped(ms, u, a, j);
  }

  /** Only the messages between the two are checked for tool results: snipping keeps every result with
      its call exactly when those behind the removed assistant message have another one to answer. */
  lemma SnipOrphansIff(ms: seq<Message>)
    requires WellPaired(ms) && SnipRange(ms).Some?
    ensures var (u, a) := SnipRange(ms).value;
            WellPaired(Snipped(ms, true)) <==> AnsweredEarlier(ms, u, a)
  {
    hide *;
    var u, a := SnipRemoves(ms);
    PairsSurviveIff(ms, u, a);
  }

  lemma PairsSurviveIff(ms: seq<Message>, u: nat, a: nat)
    requires WellPaired(ms) && u < a < |ms| && ms[a].role != Tool
    ensures WellPaired(ms[..u] + ms[a + 1..]) <==> AnsweredEarlier(ms, u, a)
  {
    hide Owner, Answered, AnswersBefore;
    var r := ms[..u] + ms[a + 1..];
    PrefixWellPaired(ms, u);
    forall k | 0 <= k < u && r[k].role == Tool ensures Answered(r, k) {
      AnsweredInFront(ms[..u], ms[a + 1..], k);
    }
    forall k | u <= k < |r| && r[k].role == Tool
      ensures Answered(r, k) <==> Owner(ms, k - u + a + 1) == a ==> AnswersBefore(ms, u, k - u + a + 1)
    {
      var j := k - u + a + 1;
      AnsweredSnipped(ms, u, a, j);
      assert Answered(ms, j);
    }
    if WellPaired(r) {
      forall j | a < j < |ms| && ms[j].role == Tool && Owner(ms, j) == a ensures AnswersBefore(ms, u, j) {
        AnsweredSnipped(ms, u, a, j);
        assert Answered(r, u + j - a - 1);
      }
    }
  }

  lemma AnsweredInFront(front: seq<Message>, rest: seq<Message>, k: nat)
    requires k < |front| && Answered(front, k)
    ensures Answered(front + rest, k)
  {
    OwnerIs(front + rest, k, Owner(front, k));
  }

  lemma SnipRemoves(ms: seq<Message>) returns (u: nat, a: nat)
    requires SnipRange(ms).Some?
    ensures (u, a) == SnipRange(ms).value && u < a < |ms| && ms[a].role != Tool
    ensures Snipped(ms, true) == ms[..u] + ms[a + 1..]
  {
    var (first, last) := SnipRange(ms).value;
    u, a := first, last;
  }

  /** Where no id is issued twice, exactly when no tool result follows the removed assistant message. */
  lemma SnipOrphansFollowing(ms: seq<Message>)
    requires WellPaired(ms) && CallsDistinct(ms) && SnipRange(ms).Some?
    ensures var a := SnipRange(ms).value.1;
            WellPaired(Snipped(ms, true)) <==> a + 1 == |ms| || ms[a + 1].role != Tool
  {
    hide PairsFrom;
    var (u, a) := SnipRange(ms).value;
    SnipOrphansIff(ms);
    if a + 1 < |ms| && ms[a + 1].role == Tool {
      OwnerIs(ms, a + 1, a);
      assert Answered(ms, a + 1);
      var o := Owner(ms, u);
      assert o >= 0 ==> ms[o].calls !! ms[a].calls;
      assert !AnswersBefore(ms, u, a + 1);
    } else {
      forall j | a < j < |ms| && ms[j].role == Tool ensures Owner(ms, j) != a {
      }
    }
  }

  function Plain(role: Role): Message { Message(role, "", "", {}, "") }

  /** `n` plain exchanges. */
  function Rounds(n: nat): seq<Message> {
    if n == 0 then [] else [Plain(User), Plain(Assistant)] + Rounds(n - 1)
  }

  function CallThenRounds(n: nat): seq<Message> {
    [Plain(User), Message(Assistant, "", "", {"c"}, ""), Message(Tool, "", "", {}, "c")] + Rounds(n)
  }

  lemma {:induction false} RoundsPairs(ms: seq<Message>, i: nat, n: nat)
    requires i <= |ms| && ms[i..] == Rounds(n)
    ensures PairsFrom(ms, i, false) == n
    decreases n
  {
    if n > 0 {
      assert ms[i] == ms[i..][0] && ms[i + 1] == ms[i..][1];
      assert ms[i + 2..] == ms[i..][2..] == Rounds(n - 1);
      RoundsPairs(ms, i + 2, n - 1);
    }
  }

  lemma {:induction false} RoundsPlain(n: nat, k: nat)
    requires k < |Rounds(n)|
    ensures Rounds(n)[k].role != Tool && Rounds(n)[k].calls == {}
  {
    if k >= 2 {
      RoundsPlain(n - 1, k - 2);
    }
  }

  /** A history that snipping breaks: the first answer issues a call whose result follows it. */
  lemma SnipOrphansExample()
    ensures var ms := CallThenRounds(4);
            WellPaired(ms) && SnipRange(ms) == Some((0, 1)) && !WellPaired(Snipped(ms, true))
  {
    hide Rounds;
    var ms := CallThenRounds(4);
    assert ms[3..] == Rounds(4);
    RoundsPairs(ms, 3, 4);
    PairStep(ms, 0, false);
    PairStep(ms, 1, true);
    PairsSkip(ms, 2, 3, false);
    forall k | 3 <= k < |ms| ensures ms[k].role != Tool && ms[k].calls == {} {
      assert ms[k] == Rounds(4)[k - 3];
      RoundsPlain(4, k - 3);
    }
    OwnerIs(ms, 2, 1);
    assert FirstWith(ms, User, 0) == 0 && FirstWith(ms, Assistant, 1) == 1;
    SnipOrphansFollowing(ms);
  }

  // ---------------------------------------------------------------- retrying an overflowing summary call

  /** Drops the oldest 30 percent, then any tool results left in front, but keeps at least one message. */
  function DropHead(ms: seq<Message>, head: nat): (r: nat)
    requires head <= |ms|
    ensures head <= r <= |ms| && (r < |ms| ==> ms[r].role != Tool)
    decreases |ms| - head
  {
    if head < |ms| && ms[head].role == Tool then DropHead(ms, head + 1) else head
  }

  function DropCount(ms: seq<Message>): (n: nat)
    ensures |ms| <= 1 ==> n == 0
    ensures |ms| > 1 ==> 1 <= n < |ms|
  {
    if |ms| <= 1 then 0
    else
      var tenths := |ms| * 3 / 10;
      var head := DropHead(ms, if tenths < 1 then 1 else tenths);
      if head >= |ms| then |ms| - 1 else head
  }

  method DropOldestRounds(ms: seq<Message>) returns (r: seq<Message>)
    ensures r == ms[DropCount(ms)..]
  {
    if |ms| <= 1 {
      return ms;
    }
    var tenths := |ms| * 3 / 10;
    var start := if tenths < 1 then 1 else tenths;
    var head := start;
    while head < |ms| && ms[head].role == Tool
      invariant start <= head <= |ms| && DropHead(ms, head) == DropHead(ms, start)
    {
      head := head + 1;
    }
    if head >= |ms| {
      head := |ms| - 1;
    }
    r := ms[head..];
  }

  const PTL_MAX_RETRIES := 3

  /** What one summary call comes back with. */
  datatype Reply = Summary(raw: string) | Overflow | OtherError

  /** One summary call: the history it was given and how many messages it was told are missing. */
  datatype Call = Call(dropped: nat, working: seq<Message>)

  /** The calls made from attempt `k` on, when attempt `i` is answered by `reply(i)`. */
  function Calls(reply: nat -> Reply, k: nat, dropped: nat, working: seq<Message>): seq<Call>
    requires k <= PTL_MAX_RETRIES + 1
    decreases PTL_MAX_RETRIES + 1 - k
  {
    if k == PTL_MAX_RETRIES + 1 then []
    else
      var n := DropCount(working);
      [Call(dropped, working)]
      + if reply(k) == Overflow && n > 0 then Calls(reply, k + 1, dropped + n, working[n..]) else []
  }

  /** The summary the loop ends with, if any; an empty one counts as a failure. */
  function Outcome(reply: nat -> Reply, calls: seq<Call>): Option<string> {
    if calls == [] then None
    else
      match reply(|calls| - 1)
      case Summary(raw) => if raw == "" then None else Some(raw)
      case _ => None
  }

  lemma CallsStep(reply: nat -> Reply, k: nat, dropped: nat, working: seq<Message>)
    requires k <= PTL_MAX_RETRIES
    ensures var n := DropCount(working);
            Calls(reply, k, dropped, working)
            == if reply(k) == Overflow && n > 0
               then [Call(dropped, working)] + Calls(reply, k + 1, dropped + n, working[n..])
               else [Call(dropped, working)]
  {
    hide DropCount;
  }

  method AiCompact(ms: seq<Message>, reply: nat -> Reply) returns (r: Option<string>, calls: seq<Call>)
    ensures calls == Calls(reply, 0, 0, ms) && r == Outcome(reply, calls)
  {
    hide Calls, DropCount, Outcome;
    var working, dropped: nat := ms, 0;
    calls := [];
    for attempt := 0 to PTL_MAX_RETRIES + 1
      invariant |calls| == attempt && (attempt > 0 ==> reply(attempt - 1) == Overflow)
      invariant calls + Calls(reply, attempt, dropped, working) == Calls(reply, 0, 0, ms)
    {
      CallsStep(reply, attempt, dropped, working);
      ghost var rest := Calls(reply, attempt + 1, dropped + DropCount(working), working[DropCount(working)..]);
      OneMoreCall(calls, Call(dropped, working), rest);
      calls := calls + [Call(dropped, working)];
      OutcomeOfLast(reply, calls);
      match reply(attempt) {
        case Summary(raw) =>
          return if raw == "" then None else Some(raw), calls;
        case OtherError =>
          return None, calls;
        case Overflow =>
          var shorter := DropOldestRounds(working);
          if |shorter| >= |working| {
            return None, calls;
          }
          dropped := dropped + (|working| - |shorter|);
          working := shorter;
      }
    }
    CallsEnd(reply, dropped, working);
    OutcomeOfLast(reply, calls);
    r := None;
  }

  lemma OneMoreCall(calls: seq<Call>, c: Call, rest: seq<Call>)
    ensures calls + ([c] + rest) == (calls + [c]) + rest && calls + [c] == (calls + [c]) + []
  {
  }

  lemma OutcomeOfLast(reply: nat -> Reply, calls: seq<Call>)
    requires calls != []
    ensures Outcome(reply, calls)
            == match reply(|calls| - 1) case Summary(raw) => (if raw == "" then None else Some(raw)) case _ => None
  {
  }

  lemma CallsEnd(reply: nat -> Reply, dropped: nat, working: seq<Message>)
    ensures Calls(reply, PTL_MAX_RETRIES + 1, dropped, working) == []
  {
  }

  /** At most four calls are made; each is given a non-empty suffix of the history together with the
      number of messages in front of it, strictly shorter than the one before, and never starting
      with a dangling tool result unless it is the last message alone. */
  lemma {:induction false} CallsShrink(reply: nat -> Reply, k: nat, dropped: nat, ms: seq<Message>)
    requires k <= PTL_MAX_RETRIES + 1 && dropped < |ms|
    ensures var calls := Calls(reply, k, dropped, ms[dropped..]);
            && |calls| <= PTL_MAX_RETRIES + 1 - k
            && (forall i :: 0 <= i < |calls| ==>
                  calls[i].dropped < |ms| && calls[i].working == ms[calls[i].dropped..])
            && (forall i, j :: 0 <= i < j < |calls| ==> calls[i].dropped < calls[j].dropped)
            && (calls != [] ==> calls[0] == Call(dropped, ms[dropped..]))
            && (forall i :: 1 <= i < |calls| ==> calls[i].working[0].role != Tool || |calls[i].working| == 1)
    decreases PTL_MAX_RETRIES + 1 - k
  {
    hide Calls, DropCount;
    if k == PTL_MAX_RETRIES + 1 {
      CallsEnd(reply, dropped, ms[dropped..]);
    } else {
      var working := ms[dropped..];
      var n := DropCount(working);
      CallsStep(reply, k, dropped, working);
      if reply(k) == Overflow && n > 0 {
        CallsShrink(reply, k + 1, dropped + n, ms);
        DropLeavesHead(working);
        assert working[n..] == ms[dropped + n..];
      }
    }
  }

  lemma DropLeavesHead(ms: seq<Message>)
    requires |ms| > 1
    ensures |ms[DropCount(ms)..]| >= 1
    ensures ms[DropCount(ms)..][0].role != Tool || |ms[DropCount(ms)..]| == 1
  {
  }

  // ---------------------------------------------------------------- the workspace context

  const REINJECT_CONTEXT_BUDGET := 25000

  const CONTEXT_HEADING := "\U{3010}\U{5DE5}\U{4F5C}\U{533A}\U{6587}\U{4EF6}\U{FF08}\U{538B}\U{7F29}\U{540E}\U{5237}\U{65B0}\U{FF09}\U{3011}\n"
  const CONTEXT_CUT := "\n\n[...\U{5DE5}\U{4F5C}\U{533A}\U{6587}\U{4EF6}\U{5DF2}\U{622A}\U{65AD}\U{81F3} 25,000 \U{5B57}\U{7B26}]"

  /** The context up to the budget, under its heading; what is cut is said to be cut. */
  function ContextHeader(context: string): string {
    CONTEXT_HEADING + (if |context| > REINJECT_CONTEXT_BUDGET then context[..REINJECT_CONTEXT_BUDGET] + CONTEXT_CUT else context)
  }

  /** `inject_context_after_compact`: the context goes in front of the first message's text. */
  function Injected(ms: seq<Message>, context: string): seq<Message> {
    if ms == [] || Text.Blank(context) then ms
    else
      var header := ContextHeader(context);
      var head := ms[0].(content := if ms[0].content == "" then header else header + "\n\n" + ms[0].content);
      [head] + ms[1..]
  }

  /** Injecting touches the text of the first message only, which still ends with what it said, and
      neither makes nor breaks a pairing. */
  lemma InjectedKeepsPairs(ms: seq<Message>, context: string)
    ensures var r := Injected(ms, context);
            && |r| == |ms| && (ms != [] ==> r[1..] == ms[1..])
            && (ms != [] ==> |r[0].content| >= |ms[0].content| && r[0].content[|r[0].content| - |ms[0].content|..] == ms[0].content)
            && (WellPaired(ms) <==> WellPaired(r))
  {
    hide Text.Blank, ContextHeader;
    var r := Injected(ms, context);
    forall i | 0 <= i < |ms| ensures SameButContent(ms[i], r[i]) {
    }
    if WellPaired(ms) {
      PairsIgnoreContent(ms, r);
    }
    if WellPaired(r) {
      PairsIgnoreContent(r, ms);
    }
  }

  predicate EndsWith(s: string, t: string) { |s| >= |t| && s[|s| - |t|..] == t }

  lemma InjectedHead(ms: seq<Message>, context: string)
    requires ms != []
    ensures var r := Injected(ms, context); r != [] && r[0] == ms[0].(content := r[0].content) && EndsWith(r[0].content, ms[0].content)
  {
    hide Text.Blank, ContextHeader;
  }

  predicate SameButContent(a: Message, b: Message) {
    a.role == b.role && a.name == b.name && a.calls == b.calls && a.callId == b.callId
  }

  lemma {:induction false} OwnerIgnoresContent(a: seq<Message>, b: seq<Message>, j: nat)
    requires |a| == |b| && j < |a| && forall i :: 0 <= i < |a| ==> SameButContent(a[i], b[i])
    ensures Owner(a, j) == Owner(b, j)
  {
    if j > 0 {
      assert SameButContent(a[j - 1], b[j - 1]);
      OwnerIgnoresContent(a, b, j - 1);
    }
  }

  lemma PairsIgnoreContent(a: seq<Message>, b: seq<Message>)
    requires |a| == |b| && forall i :: 0 <= i < |a| ==> SameButContent(a[i], b[i])
    requires WellPaired(a)
    ensures WellPaired(b)
  {
    hide Owner;
    forall j | 0 <= j < |b| && b[j].role == Tool ensures Answered(b, j) {
      assert SameButContent(a[j], b[j]) && Answered(a, j);
      OwnerIgnoresContent(a, b, j);
    }
  }

  /** `compact_conversation`: whatever the model answers, the kept tail is untouched and every tool
      result keeps its call. `summarized` and `truncated` build the text of the leading message. */
  method CompactConversation(ms: seq<Message>, keep: nat, reply: nat -> Reply, context: string,
                             summarized: string -> string, truncated: nat -> string)
      returns (result: seq<Message>, head: string)
    ensures SplitPoint(ms, keep).None? ==> result == ms
    ensures SplitPoint(ms, keep).Some? ==>
              var i := SplitPoint(ms, keep).value;
              var raw := Outcome(reply, Calls(reply, 0, 0, ms[..i]));
              && head == (if raw.Some? then summarized(raw.value) else truncated(i))
              && result == Injected(Compacted(ms, keep, head), context)
              && |result| == 1 + |ms| - i && result[1..] == ms[i..]
              && result[0] == Message(User, "", result[0].content, {}, "") && EndsWith(result[0].content, head)
    ensures WellPaired(ms) ==> WellPaired(result)
  {
    hide Calls, Outcome, WellPaired, Injected;
    result, head := ms, "";
    if WellPaired(ms) {
      CompactionKeepsPairsFor(ms, keep);
    }
    var split := FindSplit(ms, keep);
    if split.None? {
      return;
    }
    var raw, _ := AiCompact(ms[..split.value], reply);
    head := if raw.Some? then summarized(raw.value) else truncated(split.value);
    var compacted := [SummaryMessage(head)] + ms[split.value..];
    InjectedKeepsPairs(compacted, context);
    InjectedHead(compacted, context);
    result := Injected(compacted, context);
  }

  lemma CompactionKeepsPairsFor(ms: seq<Message>, keep: nat)
    requires WellPaired(ms)
    ensures forall head :: WellPaired(Compacted(ms, keep, head))
  {
    forall head ensures WellPaired(Compacted(ms, keep, head)) {
      CompactionKeepsPairs(ms, keep, head);
    }
  }

  // ---------------------------------------------------------------- the circuit breaker

  const MAX_CONSECUTIVE_FAILURES := 3

  type Failures = map<int, nat>

  function FailureCount(f: Failures, g: int): nat { if g in f then f[g] else 0 }

  predicate CircuitOpen(f: Failures, g: int) { FailureCount(f, g) >= MAX_CONSECUTIVE_FAILURES }

  /** How the model calls of one auto_compact_if_needed end: with a summary, without one, or never. */
  datatype Ending = Succeeds | Fails | Cancelled

  function Recorded(f: Failures, g: int, ending: Ending): Failures {
    match ending
    case Succeeds => f - {g}
    case Fails => f[g := FailureCount(f, g) + 1]
    case Cancelled => f
  }

  /** The counters, and the two stretches of auto_compact_if_needed around the awaited model calls. */
  class Breaker {
    var failures: Failures

    constructor ()
      ensures failures == map[]
    {
      failures := map[];
    }

    method RecordFailure(g: int)
      modifies this
      ensures failures == old(failures)[g := FailureCount(old(failures), g) + 1]
    {
      failures := failures[g := FailureCount(failures, g) + 1];
    }

    method RecordSuccess(g: int)
      modifies this
      ensures failures == old(failures) - {g}
    {
      failures := failures - {g};
    }

    /** Up to the model call. `eligible`: the history is too long and can be split. Whatever run has led
        to these counters, the model is asked unless the last three recorded outcomes were failures. */
    method Begin(g: int, eligible: bool) returns (asks: bool)
      ensures forall es :: After(IDLE, es).failures == failures ==>
                (asks <==> eligible && TrailingFailures(History(IDLE, es, g)) < MAX_CONSECUTIVE_FAILURES)
      ensures forall s: Circuit :: s.failures == failures ==> (asks <==> Asks(s, Start(g, eligible)))
    {
      asks := eligible && !CircuitOpen(failures, g);
      forall es | After(IDLE, es).failures == failures
        ensures FailureCount(failures, g) == TrailingFailures(History(IDLE, es, g))
      {
        CounterIsTrailingFailures(es, g);
      }
    }

    /** From the end of the model calls on; a cancellation passes both handlers by. */
    method End(g: int, ending: Ending)
      modifies this
      ensures failures == Recorded(old(failures), g, ending)
      ensures forall s: Circuit :: s.failures == old(failures) && g in s.waiting ==> failures == Next(s, Finish(g, ending)).failures
    {
      match ending
      case Succeeds => RecordSuccess(g);
      case Fails => RecordFailure(g);
      case Cancelled =>
    }
  }

  /** The counters and, per group, how many calls are waiting for the model. */
  datatype Circuit = Circuit(failures: Failures, waiting: multiset<int>)

  const IDLE := Circuit(map[], multiset{})

  datatype CallEvent = Start(group: int, eligible: bool) | Finish(group: int, ending: Ending)

  predicate Asks(s: Circuit, e: CallEvent) { e.Start? && e.eligible && !CircuitOpen(s.failures, e.group) }

  function Next(s: Circuit, e: CallEvent): Circuit {
    if Asks(s, e) then Circuit(s.failures, s.waiting + multiset{e.group})
    else if e.Finish? && e.group in s.waiting then
      Circuit(Recorded(s.failures, e.group, e.ending), s.waiting - multiset{e.group})
    else s
  }

  /** Calls start and finish in any order, any number of them at a time. */
  function After(s: Circuit, es: seq<CallEvent>): Circuit {
    if es == [] then s else Next(After(s, es[..|es| - 1]), es[|es| - 1])
  }

  /** The outcomes recorded for group `g`, in order. */
  function History(s: Circuit, es: seq<CallEvent>, g: int): seq<bool> {
    if es == [] then []
    else
      var before, e := es[..|es| - 1], es[|es| - 1];
      if e.Finish? && e.group == g && g in After(s, before).waiting && e.ending != Cancelled
      then History(s, before, g) + [e.ending == Succeeds] else History(s, before, g)
  }

  /** How often the model was asked for group `g`. */
  function Asked(s: Circuit, es: seq<CallEvent>, g: int): nat {
    if es == [] then 0
    else
      var before, e := es[..|es| - 1], es[|es| - 1];
      Asked(s, before, g) + if Asks(After(s, before), e) && e.group == g then 1 else 0
  }

  /** The largest number of calls of group `g` that were waiting at a time. */
  function Peak(s: Circuit, es: seq<CallEvent>, g: int): nat {
    var now := After(s, es).waiting[g];
    if es == [] then now
    else
      var earlier := Peak(s, es[..|es| - 1], g);
      if now > earlier then now else earlier
  }

  /** How many failures the history ends with. */
  function TrailingFailures(h: seq<bool>): nat {
    if h == [] || h[|h| - 1] then 0 else 1 + TrailingFailures(h[..|h| - 1])
  }

  /** In every interleaving the counter is the number of failures recorded since the last success. */
  lemma {:induction false} CounterIsTrailingFailures(es: seq<CallEvent>, g: int)
    ensures FailureCount(After(IDLE, es).failures, g) == TrailingFailures(History(IDLE, es, g))
  {
    if es != [] {
      var before, e := es[..|es| - 1], es[|es| - 1];
      CounterIsTrailingFailures(before, g);
      var h := History(IDLE, before, g);
      if e.Finish? {
        assert (h + [e.ending == Succeeds])[..|h|] == h;
      }
    }
  }

  /** While the circuit is open, the calls still waiting count against the bound. */
  predicate WithinOverlap(s: Circuit, g: int, peak: nat) {
    && FailureCount(s.failures, g) <= MAX_CONSECUTIVE_FAILURES - 1 + peak
    && s.waiting[g] <= peak
    && (CircuitOpen(s.failures, g) ==> FailureCount(s.failures, g) + s.waiting[g] <= MAX_CONSECUTIVE_FAILURES - 1 + peak)
  }

  lemma StepWithinOverlap(s: Circuit, e: CallEvent, g: int, peak: nat)
    requires WithinOverlap(s, g, peak) && Next(s, e).waiting[g] <= peak
    ensures WithinOverlap(Next(s, e), g, peak)
  {
  }

  /** How far the counter can run past the threshold is how far the calls of the group overlap: it is
      at most two more than the largest number of calls that were waiting at a time. */
  lemma {:induction false} CounterWithinOverlap(es: seq<CallEvent>, g: int)
    ensures WithinOverlap(After(IDLE, es), g, Peak(IDLE, es, g))
  {
    if es != [] {
      var before, e := es[..|es| - 1], es[|es| - 1];
      CounterWithinOverlap(before, g);
      assert es == before + [e];
      OneMore(IDLE, before, e, g);
      hide Next, After, Peak;
      StepWithinOverlap(After(IDLE, before), e, g, Peak(IDLE, es, g));
    }
  }

  lemma {:induction false} AfterSplit(s: Circuit, a: seq<CallEvent>, b: seq<CallEvent>)
    ensures After(s, a + b) == After(After(s, a), b)
    decreases |b|
  {
    if b == [] {
      assert a + b == a;
    } else {
      AfterSplit(s, a, b[..|b| - 1]);
      assert (a + b)[..|a + b| - 1] == a + b[..|b| - 1];
    }
  }

  lemma {:induction false} PeakSplit(s: Circuit, a: seq<CallEvent>, b: seq<CallEvent>, g: int)
    ensures Peak(s, a + b, g) == if Peak(s, a, g) > Peak(After(s, a), b, g) then Peak(s, a, g) else Peak(After(s, a), b, g)
    decreases |b|
  {
    AfterSplit(s, a, b);
    if b == [] {
      assert a + b == a;
    } else {
      PeakSplit(s, a, b[..|b| - 1], g);
      assert (a + b)[..|a + b| - 1] == a + b[..|b| - 1];
    }
  }

  function Times(e: CallEvent, n: nat): (r: seq<CallEvent>)
    ensures |r| == n && forall i :: 0 <= i < n ==> r[i] == e
  {
    seq(n, _ => e)
  }

  lemma {:induction false} StartMany(s: Circuit, g: int, n: nat)
    requires !CircuitOpen(s.failures, g)
    ensures After(s, Times(Start(g, true), n)) == Circuit(s.failures, s.waiting[g := s.waiting[g] + n])
    ensures Peak(s, Times(Start(g, true), n), g) == s.waiting[g] + n
  {
    if n > 0 {
      StartMany(s, g, n - 1);
      assert Times(Start(g, true), n)[..n - 1] == Times(Start(g, true), n - 1);
    }
  }

  lemma OneMore(s: Circuit, es: seq<CallEvent>, e: CallEvent, g: int)
    ensures var last := Next(After(s, es), e);
            && After(s, es + [e]) == last
            && Peak(s, es + [e], g) == if last.waiting[g] > Peak(s, es, g) then last.waiting[g] else Peak(s, es, g)
  {
    hide Next;
    assert (es + [e])[..|es|] == es;
  }

  lemma {:induction false} FailMany(s: Circuit, g: int, n: nat)
    requires n <= s.waiting[g]
    ensures After(s, Times(Finish(g, Fails), n)).waiting == s.waiting[g := s.waiting[g] - n]
    ensures FailureCount(After(s, Times(Finish(g, Fails), n)).failures, g) == FailureCount(s.failures, g) + n
    ensures Peak(s, Times(Finish(g, Fails), n), g) == s.waiting[g]
  {
    var all := Times(Finish(g, Fails), n);
    if n == 0 {
      assert all == [];
    } else {
      hide After, Peak;
      FailMany(s, g, n - 1);
      OneMore(s, Times(Finish(g, Fails), n - 1), Finish(g, Fails), g);
      assert all == Times(Finish(g, Fails), n - 1) + [Finish(g, Fails)];
    }
  }

  /** `n` calls start together and then all fail. */
  function FailTogether(g: int, n: nat): seq<CallEvent> { Times(Start(g, true), n) + Times(Finish(g, Fails), n) }

  lemma FailedTogether(s: Circuit, g: int, n: nat)
    requires !CircuitOpen(s.failures, g) && s.waiting[g] == 0
    ensures var after := After(s, FailTogether(g, n));
            FailureCount(after.failures, g) == FailureCount(s.failures, g) + n && after.waiting[g] == 0
    ensures Peak(s, FailTogether(g, n), g) == n
  {
    hide After, Peak, Times;
    var starts, fails := Times(Start(g, true), n), Times(Finish(g, Fails), n);
    StartMany(s, g, n);
    FailMany(After(s, starts), g, n);
    AfterSplit(s, starts, fails);
    PeakSplit(s, starts, fails, g);
  }

  /** The bound is reached for every degree of overlap: with two failures on record, `n` calls waiting
      together and failing leave the counter at n + 2, so at four for two calls. */
  lemma OverlapReachesBound(g: int, n: nat) returns (es: seq<CallEvent>)
    requires n > 0
    ensures Peak(IDLE, es, g) == n
    ensures FailureCount(After(IDLE, es).failures, g) == MAX_CONSECUTIVE_FAILURES - 1 + n
  {
    hide After, Peak, FailTogether;
    var one := FailTogether(g, 1);
    FailedTogether(IDLE, g, 1);
    FailedTogether(After(IDLE, one), g, 1);
    AfterSplit(IDLE, one, one);
    PeakSplit(IDLE, one, one, g);
    FailedTogether(After(IDLE, one + one), g, n);
    es := one + one + FailTogether(g, n);
    AfterSplit(IDLE, one + one, FailTogether(g, n));
    PeakSplit(IDLE, one + one, FailTogether(g, n), g);
  }

  /** While no call of the group waits and its circuit is open, nothing about the group changes. */
  lemma {:induction false} OpenAndQuietStays(s: Circuit, more: seq<CallEvent>, g: int)
    requires CircuitOpen(s.failures, g) && s.waiting[g] == 0
    ensures FailureCount(After(s, more).failures, g) == FailureCount(s.failures, g)
    ensures After(s, more).waiting[g] == 0 && Asked(s, more, g) == 0
  {
    if more != [] {
      OpenAndQuietStays(s, more[..|more| - 1], g);
    }
  }

  lemma {:induction false} AskedSplit(s: Circuit, a: seq<CallEvent>, b: seq<CallEvent>, g: int)
    ensures Asked(s, a + b, g) == Asked(s, a, g) + Asked(After(s, a), b, g)
    decreases |b|
  {
    if b == [] {
      assert a + b == a;
    } else {
      AskedSplit(s, a, b[..|b| - 1], g);
      AfterSplit(s, a, b[..|b| - 1]);
      assert (a + b)[..|a + b| - 1] == a + b[..|b| - 1];
    }
  }

  lemma AfterOne(s: Circuit, e: CallEvent)
    ensures After(s, [e]) == Next(s, e)
    ensures forall g :: Asked(s, [e], g) == if Asks(s, e) && e.group == g then 1 else 0
  {
    assert [e][..0] == [];
  }

  /** An open circuit keeps the model from being asked again for the group, whatever happens next, if
      and only if no call of the group is still waiting: a late success closes it. */
  lemma OpenForGoodIff(s: Circuit, g: int)
    requires CircuitOpen(s.failures, g)
    ensures (forall more :: Asked(s, more, g) == 0) <==> s.waiting[g] == 0
    ensures (forall more :: CircuitOpen(After(s, more).failures, g)) <==> s.waiting[g] == 0
  {
    hide After, Asked;
    if s.waiting[g] == 0 {
      forall more ensures Asked(s, more, g) == 0 && CircuitOpen(After(s, more).failures, g) {
        OpenAndQuietStays(s, more, g);
      }
    } else {
      var late, again := Finish(g, Succeeds), Start(g, true);
      AfterOne(s, late);
      AfterOne(After(s, [late]), again);
      AskedSplit(s, [late], [again], g);
      assert !CircuitOpen(After(s, [late]).failures, g);
      assert Asked(s, [late] + [again], g) == 1;
    }
  }

  /** From a state on, the counter stays within three in every continuation if and only if it stands at
      three and no call of the group is waiting. */
  lemma BoundFromHereIff(s: Circuit, g: int)
    ensures (forall more :: FailureCount(After(s, more).failures, g) <= MAX_CONSECUTIVE_FAILURES)
            <==> FailureCount(s.failures, g) == MAX_CONSECUTIVE_FAILURES && s.waiting[g] == 0
  {
    hide Times;
    var count := FailureCount(s.failures, g);
    if count == MAX_CONSECUTIVE_FAILURES && s.waiting[g] == 0 {
      forall more ensures FailureCount(After(s, more).failures, g) <= MAX_CONSECUTIVE_FAILURES {
        OpenAndQuietStays(s, more, g);
      }
    } else {
      var more := if CircuitOpen(s.failures, g) then [] else Times(Start(g, true), MAX_CONSECUTIVE_FAILURES + 1);
      if more != [] {
        StartMany(s, g, MAX_CONSECUTIVE_FAILURES + 1);
      }
      var t := After(s, more);
      var fails := Times(Finish(g, Fails), t.waiting[g]);
      FailMany(t, g, t.waiting[g]);
      AfterSplit(s, more, fails);
      assert FailureCount(After(s, more + fails).failures, g) > MAX_CONSECUTIVE_FAILURES;
    }
  }

  /** When the calls of a group never overlap, the counter never exceeds three, and after the third
      failure in a row the model is never asked for the group again. */
  lemma SerialCallsTrip(es: seq<CallEvent>, g: int)
    requires Peak(IDLE, es, g) <= 1
    ensures FailureCount(After(IDLE, es).failures, g) <= MAX_CONSECUTIVE_FAILURES
    ensures CircuitOpen(After(IDLE, es).failures, g) ==> forall more :: Asked(After(IDLE, es), more, g) == 0
  {
    hide After, Peak, Asked;
    CounterWithinOverlap(es, g);
    if CircuitOpen(After(IDLE, es).failures, g) {
      OpenForGoodIff(After(IDLE, es), g);
    }
  }

  /** A run that reaches an open circuit with a call still waiting: its success closes the circuit, and
      the next call asks the model again. */
  lemma LateSuccessReopens(g: int) returns (es: seq<CallEvent>)
    ensures CircuitOpen(After(IDLE, es).failures, g)
    ensures var late, again := Finish(g, Succeeds), Start(g, true);
            && !CircuitOpen(After(IDLE, es + [late]).failures, g)
            && Asks(After(IDLE, es + [late]), again)
  {
    hide After, FailTogether, Times;
    var one, two, fail := FailTogether(g, 1), Times(Start(g, true), 2), Finish(g, Fails);
    FailedTogether(IDLE, g, 1);
    FailedTogether(After(IDLE, one), g, 1);
    AfterSplit(IDLE, one, one);
    StartMany(After(IDLE, one + one), g, 2);
    AfterSplit(IDLE, one + one, two);
    es := one + one + two + [fail];
    AfterSplit(IDLE, one + one + two, [fail]);
    AfterOne(After(IDLE, one + one + two), fail);
    AfterSplit(IDLE, es, [Finish(g, Succeeds)]);
    AfterOne(After(IDLE, es), Finish(g, Succeeds));
  }
}
