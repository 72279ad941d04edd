// backend/executors/mcp_bridge.py: matching tool calls with their results.
module McpBridge {
  import opened Wrappers
  import opened Text

  type FutureId = nat

  datatype Reply = Reply(text: string, isError: bool)

  const DISCONNECTED := Reply("[MCP\U{9519}\U{8BEF}] \U{603B}\U{7EBF}\U{5DF2}\U{65AD}\U{5F00}", true)

  /** The bridge: installed senders and origin, pending requests, the request counter, the futures
      created so far (with their results) and the latest schemas by name. */
  datatype Bridge = Bridge(send: bool, sendAuth: bool, origin: string, pending: map<string, FutureId>, seqNo: nat,
                           futures: seq<Option<Reply>>)

  datatype Kind = ToolCall | Authentication

  function RequestId(kind: Kind, origin: string, n: nat): string {
    origin + (if kind == ToolCall then "-" else "-auth-") + Decimal(n)
  }

  predicate Ready(b: Bridge, kind: Kind) { if kind == ToolCall then b.send else b.sendAuth }

  /** Allocates the request id and its future. */
  function Opened(b: Bridge, kind: Kind): Bridge {
    b.(seqNo := b.seqNo + 1,
       pending := b.pending[RequestId(kind, b.origin, b.seqNo + 1) := |b.futures|],
       futures := b.futures + [None])
  }

  /** `_finish_pending`: drops the entry only if it is still this call's future. */
  function Finished(b: Bridge, rid: string, fut: FutureId): Bridge {
    if rid in b.pending && b.pending[rid] == fut then b.(pending := b.pending - {rid}) else b
  }

  predicate Done(b: Bridge, fut: FutureId) { fut < |b.futures| && b.futures[fut].Some? }

  function Resolved(b: Bridge, rid: string, reply: Reply): Bridge {
    if rid !in b.pending then b
    else
      var fut := b.pending[rid];
      var b1 := b.(pending := b.pending - {rid});
      if fut >= |b.futures| || Done(b, fut) then b1 else b1.(futures := b.futures[fut := Some(reply)])
  }

  function Reset(b: Bridge): Bridge {
    Bridge(false, false, b.origin, map[], b.seqNo,
           seq(|b.futures|, f requires 0 <= f < |b.futures| =>
             if b.futures[f].None? && f in b.pending.Values then Some(DISCONNECTED) else b.futures[f]))
  }

  /** The bridge object; futures are numbered in order of creation. */
  class MCPBridge {
    var send: bool
    var sendAuth: bool
    var origin: string
    var pending: map<string, FutureId>
    var seqNo: nat
    var futures: seq<Option<Reply>>

    function View(): Bridge reads this { Bridge(send, sendAuth, origin, pending, seqNo, futures) }

    constructor ()
      ensures View() == Bridge(false, false, "None", map[], 0, [])
    {
      send, sendAuth, origin, pending, seqNo, futures := false, false, "None", map[], 0, [];
    }

    method Install(from: string)
      modifies this
      ensures View() == old(View()).(send := true, origin := from)
    {
      send, origin := true, from;
    }

    method InstallAuth()
      modifies this
      ensures View() == old(View()).(sendAuth := true)
    {
      sendAuth := true;
    }

    /** The part of request and authenticate before the first await; None when the call is refused. */
    method Open(kind: Kind, name: string, timeout: int) returns (call: Option<(string, FutureId)>)
      modifies this
      ensures call.Some? <==> !Blank(name) && timeout > 0 && Ready(old(View()), kind)
      ensures call.Some? ==>
                && call.value == (RequestId(kind, old(origin), old(seqNo) + 1), |old(futures)|)
                && View() == Opened(old(View()), kind)
      ensures call.None? ==> View() == old(View())
    {
      if Blank(name) || timeout <= 0 || (if kind == ToolCall then !send else !sendAuth) {
        return None;
      }
      seqNo := seqNo + 1;
      var rid, fut := RequestId(kind, origin, seqNo), |futures|;
      futures := futures + [None];
      pending := pending[rid := fut];
      call := Some((rid, fut));
    }

    method FinishPending(rid: string, fut: FutureId)
      modifies this
      ensures View() == Finished(old(View()), rid, fut)
    {
      if rid in pending && pending[rid] == fut {
        pending := pending - {rid};
      }
    }

    method Resolve(rid: string, reply: Reply)
      modifies this
      ensures View() == Resolved(old(View()), rid, reply)
    {
      if rid !in pending {
        return;
      }
      var fut := pending[rid];
      pending := pending - {rid};
      if fut >= |futures| || futures[fut].Some? {
        return;
      }
      futures := futures[fut := Some(reply)];
    }

    method ResetAll()
      modifies this
      ensures View() == Reset(old(View()))
    {
      send, sendAuth := false, false;
      futures := seq(|futures|, f requires 0 <= f < |futures| reads this =>
        if futures[f].None? && f in pending.Values then Some(DISCONNECTED) else futures[f]);
      pending := map[];
    }
  }

  // ---------------------------------------------------------------- runs

  datatype Outcome = Result(reply: Reply) | SendFailed | TimedOut | Cancelled

  /** A call in flight or over: its id and future, whether its frame is out, and how it ended. */
  datatype Call = Call(rid: string, fut: FutureId, sent: bool, outcome: Option<Outcome>)

  /** One atomic step of the event loop. Calls are named by their number. */
  datatype Step =
    | Install(origin: string)
    | InstallAuth
    | Begin(kind: Kind)
    | SendDone(call: nat)
    | SendFails(call: nat)
    | Cancel(call: nat)
    | Arrive(rid: string, reply: Reply)
    | Wake(call: nat)
    | Expire(call: nat)
    | Disconnect

  /** The bridge, all calls ever begun, and every result that arrived, with its id. */
  datatype World = World(bridge: Bridge, calls: seq<Call>, arrived: set<(string, Reply)>)

  predicate InFlight(w: World, c: nat) { c < |w.calls| && w.calls[c].outcome.None? }

  predicate Enabled(w: World, s: Step) {
    match s
    case Begin(kind) => Ready(w.bridge, kind)
    case SendDone(c) => InFlight(w, c) && !w.calls[c].sent
    case SendFails(c) => InFlight(w, c) && !w.calls[c].sent
    case Cancel(c) => InFlight(w, c)
    case Wake(c) => InFlight(w, c) && w.calls[c].sent && Done(w.bridge, w.calls[c].fut)
    case Expire(c) => InFlight(w, c) && w.calls[c].sent
    case _ => true
  }

  /** The call ends and takes its pending entry with it. */
  function Ended(w: World, c: nat, outcome: Outcome): World
    requires c < |w.calls|
  {
    w.(bridge := Finished(w.bridge, w.calls[c].rid, w.calls[c].fut), calls := w.calls[c := w.calls[c].(outcome := Some(outcome))])
  }

  function After(w: World, s: Step): World
    requires Enabled(w, s)
  {
    match s
    case Install(o) => w.(bridge := w.bridge.(send := true, origin := o))
    case InstallAuth => w.(bridge := w.bridge.(sendAuth := true))
    case Begin(kind) =>
      w.(bridge := Opened(w.bridge, kind),
         calls := w.calls + [Call(RequestId(kind, w.bridge.origin, w.bridge.seqNo + 1), |w.bridge.futures|, false, None)])
    case SendDone(c) => w.(calls := w.calls[c := w.calls[c].(sent := true)])
    case SendFails(c) => Ended(w, c, SendFailed)
    case Cancel(c) => Ended(w, c, Cancelled)
    case Arrive(rid, reply) => w.(bridge := Resolved(w.bridge, rid, reply), arrived := w.arrived + {(rid, reply)})
    case Wake(c) => Ended(w, c, Result(w.bridge.futures[w.calls[c].fut].value))
    case Expire(c) => Ended(w, c, TimedOut)
    case Disconnect => w.(bridge := Reset(w.bridge))
  }

  const START := World(Bridge(false, false, "None", map[], 0, []), [], {})

  /** The world after the steps; None when one of them could not happen. */
  function Run(steps: seq<Step>): Option<World> {
    if steps == [] then Some(START)
    else
      var before, s := Run(steps[..|steps| - 1]), steps[|steps| - 1];
      if before.None? || !Enabled(before.value, s) then None else Some(After(before.value, s))
  }

  // ---------------------------------------------------------------- request ids

  /** The counter can be read off a request id: it is the numeral behind the last dash. */
  lemma DashFree(n: nat)
    ensures '-' !in Decimal(n)
  {
    var d := Decimal(n);
    forall i | 0 <= i < |d| ensures d[i] != '-' {
      assert IsDigit(d[i]);
    }
  }

  function BehindLastDash(s: string): string {
    if s == "" || s[|s| - 1] == '-' then "" else BehindLastDash(s[..|s| - 1]) + [s[|s| - 1]]
  }

  lemma {:induction false} LastDash(a: string, x: string)
    requires '-' !in x
    ensures BehindLastDash(a + "-" + x) == x
    decreases |x|
  {
    var s := a + "-" + x;
    if x != "" {
      var init := x[..|x| - 1];
      assert x[|x| - 1] in x;
      LastDash(a, init);
      assert s[..|s| - 1] == a + "-" + init;
    }
  }

  lemma IdNumber(k: Kind, o: string, n: nat)
    ensures BehindLastDash(RequestId(k, o, n)) == Decimal(n)
  {
    hide Decimal, BehindLastDash;
    var a := if k == ToolCall then o else o + "-auth";
    assert RequestId(k, o, n) == a + "-" + Decimal(n);
    DashFree(n);
    LastDash(a, Decimal(n));
  }

  /** Requests with different counters have different ids, whatever their kinds and origins. */
  lemma IdsDistinct(k: Kind, o: string, m: nat, l: Kind, p: string, n: nat)
    requires RequestId(k, o, m) == RequestId(l, p, n)
    ensures m == n
  {
    hide Decimal, RequestId, BehindLastDash;
    IdNumber(k, o, m);
    IdNumber(l, p, n);
    NumeralDecimal(m);
    NumeralDecimal(n);
  }

  // ---------------------------------------------------------------- the invariant

  /** The i-th call's id carries the i-th counter value. */
  ghost predicate Numbered(w: World) {
    && w.bridge.seqNo == |w.calls|
    && forall i :: 0 <= i < |w.calls| ==> BehindLastDash(w.calls[i].rid) == Decimal(i + 1)
  }

  /** Call `i` owns future `i`; a pending entry belongs to an unfinished call and its future is unresolved. */
  ghost predicate Owned(w: World) {
    && |w.bridge.futures| == |w.calls|
    && (forall i :: 0 <= i < |w.calls| ==> w.calls[i].fut == i)
    && (forall rid :: rid in w.bridge.pending ==>
          var c := w.bridge.pending[rid];
          c < |w.calls| && w.calls[c].rid == rid && w.calls[c].outcome.None? && w.bridge.futures[c].None?)
  }

  /** Whatever a call got is what was sent for its own id, or the notice of the disconnect. */
  ghost predicate Truthful(w: World) {
    && (forall i :: 0 <= i < |w.calls| && Done(w.bridge, i) ==>
          w.bridge.futures[i].value == DISCONNECTED || (w.calls[i].rid, w.bridge.futures[i].value) in w.arrived)
    && (forall i :: 0 <= i < |w.calls| && w.calls[i].outcome.Some? && w.calls[i].outcome.value.Result? ==>
          var reply := w.calls[i].outcome.value.reply;
          reply == DISCONNECTED || (w.calls[i].rid, reply) in w.arrived)
  }

  ghost predicate Inv(w: World) { Numbered(w) && Owned(w) && Truthful(w) }

  /** Steps add at most one call, and never change the id or the future of an old one. */
  lemma CallsKept(w: World, s: Step)
    requires Enabled(w, s)
    ensures var w' := After(w, s);
            && |w'.calls| == |w.calls| + (if s.Begin? then 1 else 0)
            && (w.bridge.seqNo == |w.calls| ==> w'.bridge.seqNo == |w'.calls|)
            && (forall i :: 0 <= i < |w.calls| ==> w'.calls[i].rid == w.calls[i].rid && w'.calls[i].fut == w.calls[i].fut)
            && (s.Begin? ==> w'.calls[|w.calls|].rid == RequestId(s.kind, w.bridge.origin, w.bridge.seqNo + 1))
  {
    hide RequestId;
  }

  lemma NumberedKept(w: World, s: Step)
    requires Numbered(w) && Enabled(w, s)
    ensures Numbered(After(w, s))
  {
    hide RequestId, After, Enabled, Decimal, BehindLastDash;
    CallsKept(w, s);
    if s.Begin? {
      IdNumber(s.kind, w.bridge.origin, w.bridge.seqNo + 1);
    }
  }

  /** No two calls have the same request id. */
  lemma RequestIdsDiffer(w: World, i: nat, j: nat)
    requires Numbered(w) && i < |w.calls| && j < |w.calls| && w.calls[i].rid == w.calls[j].rid
    ensures i == j
  {
    hide Decimal, BehindLastDash;
    NumeralDecimal(i + 1);
    NumeralDecimal(j + 1);
  }

  lemma OwnedEnded(w: World, c: nat, outcome: Outcome)
    requires Owned(w) && c < |w.calls| && w.calls[c].outcome.None?
    ensures Owned(Ended(w, c, outcome))
  {
  }

  lemma OwnedBegin(w: World, kind: Kind)
    requires Owned(w) && Ready(w.bridge, kind)
    ensures Owned(After(w, Begin(kind)))
  {
    hide RequestId;
    var w' := After(w, Begin(kind));
    forall rid | rid in w'.bridge.pending
      ensures var c := w'.bridge.pending[rid];
              c < |w'.calls| && w'.calls[c].rid == rid && w'.calls[c].outcome.None?
              && c < |w'.bridge.futures| && w'.bridge.futures[c].None?
    {
      if rid != w'.calls[|w.calls|].rid {
        assert rid in w.bridge.pending;
      }
    }
  }

  lemma OwnedArrive(w: World, rid: string, reply: Reply)
    requires Owned(w)
    ensures Owned(After(w, Arrive(rid, reply)))
  {
  }

  lemma OwnedKept(w: World, s: Step)
    requires Owned(w) && Enabled(w, s)
    ensures Owned(After(w, s))
  {
    hide RequestId, Finished, Resolved, Opened;
    match s
    case SendFails(c) => OwnedEnded(w, c, SendFailed);
    case Cancel(c) => OwnedEnded(w, c, Cancelled);
    case Wake(c) => OwnedEnded(w, c, Result(w.bridge.futures[w.calls[c].fut].value));
    case Expire(c) => OwnedEnded(w, c, TimedOut);
    case Begin(kind) => OwnedBegin(w, kind);
    case Arrive(rid, reply) => OwnedArrive(w, rid, reply);
    case _ =>
  }

  lemma TruthfulEnded(w: World, c: nat, outcome: Outcome)
    requires Owned(w) && Truthful(w) && c < |w.calls|
    requires outcome.Result? ==> outcome.reply == DISCONNECTED || (w.calls[c].rid, outcome.reply) in w.arrived
    ensures Truthful(Ended(w, c, outcome))
  {
  }

  lemma TruthfulBegin(w: World, kind: Kind)
    requires Owned(w) && Truthful(w) && Ready(w.bridge, kind)
    ensures Truthful(After(w, Begin(kind)))
  {
    hide RequestId;
  }

  lemma TruthfulArrive(w: World, rid: string, reply: Reply)
    requires Owned(w) && Truthful(w)
    ensures Truthful(After(w, Arrive(rid, reply)))
  {
    var w' := After(w, Arrive(rid, reply));
    forall i | 0 <= i < |w'.calls| && Done(w'.bridge, i)
      ensures w'.bridge.futures[i].value == DISCONNECTED || (w'.calls[i].rid, w'.bridge.futures[i].value) in w'.arrived
    {
      if rid in w.bridge.pending && w.bridge.pending[rid] == i {
        assert w.calls[i].rid == rid;
      } else {
        assert w'.bridge.futures[i] == w.bridge.futures[i];
      }
    }
  }

  lemma TruthfulReset(w: World)
    requires Owned(w) && Truthful(w)
    ensures Truthful(After(w, Disconnect))
  {
  }

  lemma TruthfulKept(w: World, s: Step)
    requires Owned(w) && Truthful(w) && Enabled(w, s)
    ensures Truthful(After(w, s))
  {
    hide RequestId, Finished, Resolved, Opened, Reset;
    match s
    case SendFails(c) => TruthfulEnded(w, c, SendFailed);
    case Cancel(c) => TruthfulEnded(w, c, Cancelled);
    case Wake(c) => TruthfulEnded(w, c, Result(w.bridge.futures[w.calls[c].fut].value));
    case Expire(c) => TruthfulEnded(w, c, TimedOut);
    case Begin(kind) => TruthfulBegin(w, kind);
    case Arrive(rid, reply) => TruthfulArrive(w, rid, reply);
    case Disconnect => TruthfulReset(w);
    case _ =>
  }

  lemma {:induction false} RunKeepsInv(steps: seq<Step>, w: World)
    requires Run(steps) == Some(w)
    ensures Inv(w)
    decreases |steps|
  {
    if steps != [] {
      hide After, Enabled, Numbered, Owned, Truthful;
      var v := Run(steps[..|steps| - 1]).value;
      RunKeepsInv(steps[..|steps| - 1], v);
      NumberedKept(v, steps[|steps| - 1]);
      OwnedKept(v, steps[|steps| - 1]);
      TruthfulKept(v, steps[|steps| - 1]);
    }
  }

  // ---------------------------------------------------------------- correlation

  /** In every run: request ids never repeat; every pending future is unresolved and its call is still
      in flight, so no entry outlives its call; and a call that returns a result returns the one that
      arrived for its own id, or the notice that the bus was lost. */
  lemma Correlation(steps: seq<Step>, w: World)
    requires Run(steps) == Some(w)
    ensures forall i, j :: 0 <= i < j < |w.calls| ==> w.calls[i].rid != w.calls[j].rid
    ensures forall rid :: rid in w.bridge.pending ==>
              var c := w.bridge.pending[rid];
              InFlight(w, c) && w.calls[c].rid == rid && w.calls[c].fut == c && !Done(w.bridge, c)
    ensures forall i :: 0 <= i < |w.calls| && w.calls[i].outcome.Some? ==> w.calls[i].rid !in w.bridge.pending
    ensures forall i :: 0 <= i < |w.calls| && w.calls[i].outcome.Some? && w.calls[i].outcome.value.Result? ==>
              var reply := w.calls[i].outcome.value.reply;
              reply == DISCONNECTED || (w.calls[i].rid, reply) in w.arrived
  {
    hide RequestId, Run;
    RunKeepsInv(steps, w);
    forall i, j | 0 <= i < |w.calls| && 0 <= j < |w.calls| && w.calls[i].rid == w.calls[j].rid ensures i == j {
      RequestIdsDiffer(w, i, j);
    }
  }

  /** What a call has returned stays returned: no step changes the outcome of a finished call. */
  lemma OutcomeIsFinal(w: World, s: Step, c: nat)
    requires Enabled(w, s) && c < |w.calls| && w.calls[c].outcome.Some?
    ensures c < |After(w, s).calls| && After(w, s).calls[c] == w.calls[c]
  {
    hide RequestId;
  }

  /** A result that arrives while its call waits reaches that call and no other. */
  lemma ArrivalReachesItsCall(steps: seq<Step>, w: World, c: nat, reply: Reply)
    requires Run(steps) == Some(w) && c < |w.calls| && w.calls[c].rid in w.bridge.pending
    ensures var w' := After(w, Arrive(w.calls[c].rid, reply));
            && c < |w'.bridge.futures| && w'.bridge.futures[c] == Some(reply)
            && forall d :: 0 <= d < |w.calls| && d != c ==> d < |w.bridge.futures| && d < |w'.bridge.futures| && w'.bridge.futures[d] == w.bridge.futures[d]
  {
    hide RequestId, Run;
    RunKeepsInv(steps, w);
    RequestIdsDiffer(w, c, w.bridge.pending[w.calls[c].rid]);
  }

  // ---------------------------------------------------------------- what a call gets

  /** A call can begin when the sender for its kind is installed. It has an unresolved future of its own
      under its own id and waits. */
  lemma BeginWaits(steps: seq<Step>, w: World, kind: Kind)
    requires Run(steps) == Some(w)
    ensures Enabled(w, Begin(kind)) <==> (kind == ToolCall && w.bridge.send) || (kind == Authentication && w.bridge.sendAuth)
    ensures Enabled(w, Begin(kind)) ==>
              var w', c := After(w, Begin(kind)), |w.calls|;
              && |w'.calls| == c + 1 && w'.calls[..c] == w.calls && InFlight(w', c) && !w'.calls[c].sent
              && w'.calls[c].rid in w'.bridge.pending && w'.bridge.pending[w'.calls[c].rid] == c
              && !Done(w'.bridge, c)
  {
    hide RequestId, Run;
    RunKeepsInv(steps, w);
    assert |w.bridge.futures| == |w.calls|;
  }

  /** Installing a sender makes way for calls of its kind, which then carry its origin and the number of
      the call; calls that wait are not touched. */
  lemma InstalledOrigin(steps: seq<Step>, w: World, origin: string)
    requires Run(steps) == Some(w)
    ensures var v := After(w, Install(origin));
            && Enabled(v, Begin(ToolCall)) && (Enabled(v, Begin(Authentication)) <==> Enabled(w, Begin(Authentication)))
            && After(v, Begin(ToolCall)).calls[|w.calls|].rid == origin + "-" + Decimal(|w.calls| + 1)
            && (Enabled(v, Begin(Authentication)) ==>
                 After(v, Begin(Authentication)).calls[|w.calls|].rid == origin + "-auth-" + Decimal(|w.calls| + 1))
            && v.calls == w.calls && v.bridge.pending == w.bridge.pending && v.bridge.futures == w.bridge.futures
    ensures var v := After(w, InstallAuth);
            && Enabled(v, Begin(Authentication)) && (Enabled(v, Begin(ToolCall)) <==> Enabled(w, Begin(ToolCall)))
            && v.calls == w.calls && v.bridge.pending == w.bridge.pending && v.bridge.futures == w.bridge.futures
  {
    hide Run, Decimal;
    RunKeepsInv(steps, w);
  }

  /** When the bus is lost, every call that still waits for its result gets the notice, nothing else
      that was resolved or not changes, and nothing can begin until a sender is installed again. */
  lemma LostBusNotifies(steps: seq<Step>, w: World, c: nat)
    requires Run(steps) == Some(w) && c < |w.calls|
    ensures var w' := After(w, Disconnect);
            && c < |w.bridge.futures| == |w'.bridge.futures|
            && (w.calls[c].rid in w.bridge.pending ==> w'.bridge.futures[c] == Some(Reply("[MCP\U{9519}\U{8BEF}] \U{603B}\U{7EBF}\U{5DF2}\U{65AD}\U{5F00}", true)))
            && (w.calls[c].rid !in w.bridge.pending ==> w'.bridge.futures[c] == w.bridge.futures[c])
            && w'.bridge.pending == map[] && w'.calls == w.calls
            && forall kind :: !Enabled(w', Begin(kind))
  {
    hide RequestId, Run;
    RunKeepsInv(steps, w);
    if w.calls[c].rid in w.bridge.pending {
      RequestIdsDiffer(w, c, w.bridge.pending[w.calls[c].rid]);
    }
    forall rid | rid in w.bridge.pending && w.bridge.pending[rid] == c ensures w.calls[c].rid == rid {
    }
  }

  /** The steps after some others. */
  function RunFrom(w: World, steps: seq<Step>): Option<World> {
    if steps == [] then Some(w)
    else
      var before, s := RunFrom(w, steps[..|steps| - 1]), steps[|steps| - 1];
      if before.None? || !Enabled(before.value, s) then None else Some(After(before.value, s))
  }

  /** A resolved future keeps its result. */
  lemma ResolvedStays(w: World, s: Step, c: nat, reply: Reply)
    requires Enabled(w, s) && Owned(w) && c < |w.calls| && w.bridge.futures[c] == Some(reply)
    requires w.calls[c].outcome.Some? && w.calls[c].outcome.value.Result? ==> w.calls[c].outcome.value.reply == reply
    ensures var w' := After(w, s);
            && Owned(w') && c < |w'.calls| && w'.bridge.futures[c] == Some(reply)
            && (w'.calls[c].outcome.Some? && w'.calls[c].outcome.value.Result? ==> w'.calls[c].outcome.value.reply == reply)
  {
    hide RequestId;
    OwnedKept(w, s);
  }

  /** A call that is waiting when a result arrives for its id returns this result or none: whatever comes
      later, a second result or the loss of the bus included, it never returns another. */
  lemma {:induction false} FirstReplyWins(steps: seq<Step>, w: World, c: nat, reply: Reply, more: seq<Step>, w': World)
    requires Run(steps) == Some(w) && c < |w.calls| && w.calls[c].rid in w.bridge.pending
    requires RunFrom(After(w, Arrive(w.calls[c].rid, reply)), more) == Some(w')
    ensures Owned(w') && c < |w'.calls| && w'.bridge.futures[c] == Some(reply)
    ensures w'.calls[c].outcome.Some? && w'.calls[c].outcome.value.Result? ==> w'.calls[c].outcome.value.reply == reply
    decreases |more|
  {
    if more == [] {
      hide RequestId, Run;
      ArrivalReachesItsCall(steps, w, c, reply);
      RunKeepsInv(steps, w);
      RequestIdsDiffer(w, c, w.bridge.pending[w.calls[c].rid]);
      OwnedKept(w, Arrive(w.calls[c].rid, reply));
    } else {
      hide After, Enabled, Owned, Run;
      var v := RunFrom(After(w, Arrive(w.calls[c].rid, reply)), more[..|more| - 1]).value;
      FirstReplyWins(steps, w, c, reply, more[..|more| - 1], v);
      ResolvedStays(v, more[|more| - 1], c, reply);
    }
  }

  /** Once its frame is out and its result is there, a call can wake, and then it returns that result;
      a call that has not got one can only end without. */
  lemma WakeReturns(w: World, c: nat)
    requires Owned(w) && c < |w.calls|
    ensures Enabled(w, Wake(c)) <==> w.calls[c].outcome == None && w.calls[c].sent && w.bridge.futures[c] != None
    ensures Enabled(w, Wake(c)) ==> After(w, Wake(c)).calls[c].outcome == Some(Result(w.bridge.futures[c].value))
    ensures forall s :: Enabled(w, s) && s != Wake(c) && w.calls[c].outcome == None ==>
              var o := After(w, s).calls[c].outcome; o == None || o == Some(SendFailed) || o == Some(TimedOut) || o == Some(Cancelled)
  {
    hide RequestId;
  }
}
