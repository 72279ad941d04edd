// backend/ws_manager.py: connecting clients, broadcasting events, replaying missed ones.
module Replay {
  import opened Wrappers

  const HISTORY_LIMIT := 500

  type Socket = nat

  /** A recorded message: its event id, and which message it is, counted in order of recording. */
  datatype Event = Event(id: string, number: nat)

  datatype Conn = Conn(socket: Socket, member: int)

  /** The open connections and the recent events of one group. */
  datatype Group = Group(conns: seq<Conn>, history: seq<Event>)

  const NOBODY := Group([], [])

  /** What a bounded deque keeps. */
  function Recent(log: seq<Event>): seq<Event> {
    if |log| <= HISTORY_LIMIT then log else log[|log| - HISTORY_LIMIT..]
  }

  function Pushed(history: seq<Event>, e: Event): seq<Event> { Recent(history + [e]) }

  /** The first event with this id from index `i` on; |events| when there is none. */
  function IndexOf(events: seq<Event>, id: string, i: nat): (r: nat)
    requires i <= |events|
    ensures i <= r <= |events| && (r < |events| ==> events[r].id == id)
    ensures forall k :: i <= k < r ==> events[k].id != id
    decreases |events| - i
  {
    if i == |events| || events[i].id == id then i else IndexOf(events, id, i + 1)
  }

  /** `_replay_after`: everything behind the cursor, or nothing when the cursor is empty or unknown. */
  function ReplayAfter(events: seq<Event>, cursor: Option<string>): seq<Event> {
    if cursor.None? || cursor.value == "" then []
    else
      var index := IndexOf(events, cursor.value, 0);
      if index == |events| then [] else events[index + 1..]
  }

  function Without(conns: seq<Conn>, ws: Socket): seq<Conn> {
    if conns == [] then []
    else if conns[|conns| - 1].socket == ws then Without(conns[..|conns| - 1], ws)
    else Without(conns[..|conns| - 1], ws) + [conns[|conns| - 1]]
  }

  function FirstConn(conns: seq<Conn>, ws: Socket, i: nat): (r: nat)
    requires i <= |conns|
    ensures i <= r <= |conns| && (r < |conns| ==> conns[r].socket == ws)
    ensures forall k :: i <= k < r ==> conns[k].socket != ws
    decreases |conns| - i
  {
    if i == |conns| || conns[i].socket == ws then i else FirstConn(conns, ws, i + 1)
  }

  predicate Online(conns: seq<Conn>, member: int) {
    exists i :: 0 <= i < |conns| && conns[i].member == member
  }

  /** The member who went fully offline, as `_disconnect_sync` reports it; member 0 is never reported. */
  function Gone(conns: seq<Conn>, ws: Socket): Option<int> {
    var i := FirstConn(conns, ws, 0);
    if i == |conns| || conns[i].member == 0 || Online(Without(conns, ws), conns[i].member) then None
    else Some(conns[i].member)
  }

  class WSManager {
    var connections: map<int, seq<Conn>>
    var history: map<int, seq<Event>>

    /** Groups without connections have no entry. */
    predicate Valid() reads this { forall g :: g in connections ==> connections[g] != [] }

    function View(g: int): Group reads this {
      Group(if g in connections then connections[g] else [], if g in history then history[g] else [])
    }

    constructor ()
      ensures Valid() && forall g :: View(g) == NOBODY
    {
      connections, history := map[], map[];
    }

    /** The part of connect that runs under the lock: registering and computing the replay. */
    method Connect(ws: Socket, g: int, member: int, cursor: Option<string>) returns (replay: seq<Event>)
      requires Valid()
      modifies this
      ensures Valid() && replay == ReplayAfter(old(View(g)).history, cursor)
      ensures View(g) == old(View(g)).(conns := old(View(g)).conns + [Conn(ws, member)])
      ensures forall o :: o != g ==> View(o) == old(View(o))
    {
      if g !in connections {
        connections := connections[g := []];
      }
      connections := connections[g := connections[g] + [Conn(ws, member)]];
      replay := [];
      var events := if g in history then history[g] else [];
      if cursor.None? || cursor.value == "" {
        return;
      }
      for index := 0 to |events|
        invariant IndexOf(events, cursor.value, index) == IndexOf(events, cursor.value, 0)
      {
        if events[index].id == cursor.value {
          return events[index + 1..];
        }
      }
    }

    /** The first step of broadcast: recording the event, before any lock is taken. */
    method Record(g: int, e: Event)
      requires Valid()
      modifies this
      ensures Valid() && View(g) == old(View(g)).(history := Pushed(old(View(g)).history, e))
      ensures forall o :: o != g ==> View(o) == old(View(o))
    {
      history := history[g := Pushed(if g in history then history[g] else [], e)];
    }

    /** The second step: a snapshot of the connections, and one send for each of them. */
    method Deliver(g: int) returns (sends: seq<Socket>)
      requires Valid()
      ensures forall ws :: multiset(sends)[ws] == Entries(View(g).conns, ws)
    {
      sends := [];
      if g !in connections {
        return;
      }
      var conns := connections[g];
      for k := 0 to |conns|
        invariant forall ws :: multiset(sends)[ws] == Entries(conns[..k], ws)
      {
        assert conns[..k + 1][..k] == conns[..k];
        sends := sends + [conns[k].socket];
      }
      assert conns[..|conns|] == conns;
    }

    method DisconnectSync(ws: Socket, g: int) returns (gone: Option<int>)
      requires Valid()
      modifies this
      ensures Valid() && gone == Gone(old(View(g)).conns, ws)
      ensures View(g) == old(View(g)).(conns := Without(old(View(g)).conns, ws))
      ensures forall o :: o != g ==> View(o) == old(View(o))
    {
      if g !in connections {
        return None;
      }
      var conns := connections[g];
      var first := FirstConn(conns, ws, 0);
      var kept := Without(conns, ws);
      connections := if kept == [] then connections - {g} else connections[g := kept];
      gone := if first == |conns| || conns[first].member == 0 || Online(kept, conns[first].member) then None
              else Some(conns[first].member);
    }
  }

  lemma {:induction false} WithoutMembers(conns: seq<Conn>, ws: Socket, c: Conn)
    ensures c in Without(conns, ws) <==> c in conns && c.socket != ws
  {
    if conns != [] {
      WithoutMembers(conns[..|conns| - 1], ws, c);
      assert conns == conns[..|conns| - 1] + [conns[|conns| - 1]];
    }
  }

  /** When every socket belongs to one member, a member other than 0 is reported exactly when the
      disconnect takes them from online to offline. */
  lemma GoneMeansOffline(conns: seq<Conn>, ws: Socket, member: int)
    requires forall i, j :: 0 <= i < |conns| && 0 <= j < |conns| && conns[i].socket == conns[j].socket ==>
               conns[i].member == conns[j].member
    ensures Gone(conns, ws) == Some(member) <==>
            member != 0 && Online(conns, member) && !Online(Without(conns, ws), member)
  {
    var first := FirstConn(conns, ws, 0);
    if Online(conns, member) && !Online(Without(conns, ws), member) {
      var i :| 0 <= i < |conns| && conns[i].member == member;
      WithoutMembers(conns, ws, conns[i]);
      assert conns[i].socket == ws;
    }
  }

  // ---------------------------------------------------------------- runs of one group

  /** Atomic steps: a broadcast records its event and later takes its snapshot (named by the number of
      the event), a client connects with a cursor, a client is dropped. */
  datatype Step =
    | Append(event: Event)
    | Deliver(number: nat)
    | Join(socket: Socket, member: int, cursor: Option<string>)
    | Leave(socket: Socket)

  /** The group, every event ever recorded, the events whose snapshot has been taken, and what each
      client has been sent, counted by event number. */
  datatype World = World(group: Group, log: seq<Event>, delivered: set<nat>, sent: Socket -> multiset<nat>)

  function Entries(conns: seq<Conn>, ws: Socket): nat {
    if conns == [] then 0 else Entries(conns[..|conns| - 1], ws) + if conns[|conns| - 1].socket == ws then 1 else 0
  }

  /** Which messages a list holds, and how often. */
  function Numbers(events: seq<Event>): multiset<nat> {
    if events == [] then multiset{} else Numbers(events[..|events| - 1]) + multiset{events[|events| - 1].number}
  }

  predicate Enabled(w: World, s: Step) {
    match s
    case Append(e) => e.number == |w.log|
    case Deliver(number) => number < |w.log| && number !in w.delivered
    case _ => true
  }

  function After(w: World, s: Step): World
    requires w.group.history == Recent(w.log)
  {
    match s
    case Append(e) => World(w.group.(history := Pushed(w.group.history, e)), w.log + [e], w.delivered, w.sent)
    case Deliver(number) =>
      World(w.group, w.log, w.delivered + {number},
            (ws: Socket) => w.sent(ws) + multiset{}[number := Entries(w.group.conns, ws)])
    case Join(socket, member, cursor) =>
      var replay := ReplayAfter(w.group.history, cursor);
      World(w.group.(conns := w.group.conns + [Conn(socket, member)]), w.log, w.delivered,
            (ws: Socket) => if ws == socket then w.sent(ws) + Numbers(replay) else w.sent(ws))
    case Leave(socket) => World(w.group.(conns := Without(w.group.conns, socket)), w.log, w.delivered, w.sent)
  }

  lemma PushedIsRecent(log: seq<Event>, e: Event)
    ensures Pushed(Recent(log), e) == Recent(log + [e])
  {
  }

  ghost predicate Runs(w: World, steps: seq<Step>, w': World)
    decreases |steps|
  {
    if steps == [] then w' == w
    else
      w.group.history == Recent(w.log) && Enabled(w, steps[0])
      && After(w, steps[0]).group.history == Recent(After(w, steps[0]).log)
      && Runs(After(w, steps[0]), steps[1..], w')
  }

  /** Nothing has happened yet. */
  function Empty(): World { World(NOBODY, [], {}, (ws: Socket) => multiset{}) }

  /** The bounded history is always the tail of what was recorded, so every enabled step goes through. */
  lemma HistoryIsRecent(w: World, s: Step)
    requires w.group.history == Recent(w.log) && Enabled(w, s)
    ensures After(w, s).group.history == Recent(After(w, s).log)
  {
    if s.Append? {
      PushedIsRecent(w.log, s.event);
    }
  }

  // ---------------------------------------------------------------- no gap on reconnect

  /** The i-th message recorded is number i. */
  predicate Stamped(log: seq<Event>) { forall i :: 0 <= i < |log| ==> log[i].number == i }

  /** The tail of a log holds each message behind its start once. */
  lemma {:induction false} NumbersExact(log: seq<Event>, f: nat, j: nat)
    requires Stamped(log) && f <= |log|
    ensures Numbers(log[f..])[j] == if f <= j < |log| then 1 else 0
    decreases |log|
  {
    if f < |log| {
      var n := |log| - 1;
      assert log[f..][..|log[f..]| - 1] == log[..n][f..];
      NumbersExact(log[..n], f, j);
    }
  }

  /** The steps do not connect or drop this client. */
  predicate Stays(ws: Socket, steps: seq<Step>) {
    forall i :: 0 <= i < |steps| ==>
      !(steps[i].Join? && steps[i].socket == ws) && !(steps[i].Leave? && steps[i].socket == ws)
  }

  lemma {:induction false} EntriesWithout(conns: seq<Conn>, other: Socket, ws: Socket)
    requires other != ws
    ensures Entries(Without(conns, other), ws) == Entries(conns, ws)
  {
    if conns != [] {
      var init, last := conns[..|conns| - 1], conns[|conns| - 1];
      EntriesWithout(init, other, ws);
      if last.socket != other {
        assert (Without(init, other) + [last])[..|Without(init, other)|] == Without(init, other);
      }
    }
  }

  lemma EntriesJoined(conns: seq<Conn>, c: Conn, ws: Socket)
    ensures Entries(conns + [c], ws) == Entries(conns, ws) + if c.socket == ws then 1 else 0
  {
    assert (conns + [c])[..|conns|] == conns;
  }

  /** While a client keeps `n` registrations, each snapshot taken sends it its event `n` times. */
  lemma {:induction false} StayingReceives(w: World, steps: seq<Step>, w': World, ws: Socket, n: nat, j: nat)
    requires w.group.history == Recent(w.log)
    requires Runs(w, steps, w') && Stays(ws, steps) && Entries(w.group.conns, ws) == n
    ensures w'.group.history == Recent(w'.log) && Entries(w'.group.conns, ws) == n
    ensures w.delivered <= w'.delivered && |w.log| <= |w'.log|
    ensures w'.sent(ws)[j] == w.sent(ws)[j] + if j in w'.delivered && j !in w.delivered then n else 0
    decreases |steps|
  {
    hide ReplayAfter, Pushed, Recent, Numbers;
    if steps != [] {
      var s, w1 := steps[0], After(w, steps[0]);
      assert Stays(ws, steps[1..]) by {
        forall i | 0 <= i < |steps[1..]|
          ensures !(steps[1..][i].Join? && steps[1..][i].socket == ws) && !(steps[1..][i].Leave? && steps[1..][i].socket == ws)
        {
          assert steps[1..][i] == steps[i + 1];
        }
      }
      StayingStep(w, s, ws, n, j);
      StayingReceives(w1, steps[1..], w', ws, n, j);
    }
  }

  lemma StayingStep(w: World, s: Step, ws: Socket, n: nat, j: nat)
    requires w.group.history == Recent(w.log) && Enabled(w, s) && Entries(w.group.conns, ws) == n
    requires !(s.Join? && s.socket == ws) && !(s.Leave? && s.socket == ws)
    ensures var w1 := After(w, s);
            && Entries(w1.group.conns, ws) == n && w.delivered <= w1.delivered && |w.log| <= |w1.log|
            && w1.sent(ws)[j] == w.sent(ws)[j] + if j in w1.delivered && j !in w.delivered then n else 0
  {
    hide ReplayAfter, Pushed, Recent, Numbers, Entries;
    if s.Join? {
      EntriesJoined(w.group.conns, Conn(s.socket, s.member), ws);
    } else if s.Leave? {
      EntriesWithout(w.group.conns, s.socket, ws);
    }
  }

  /** What a client is sent on connecting: nothing without a cursor or with one that names no message of
      the last 500; else everything recorded behind the first of those with this id. */
  lemma ReplayExact(log: seq<Event>, cursor: Option<string>) returns (f: nat)
    ensures var start, replay := if |log| > 500 then |log| - 500 else 0, ReplayAfter(Recent(log), cursor);
            if cursor.None? || cursor.value == "" || forall m :: start <= m < |log| ==> log[m].id != cursor.value then replay == []
            else
              && start <= f < |log| && log[f].id == cursor.value && (forall m :: start <= m < f ==> log[m].id != cursor.value)
              && replay == log[f + 1..]
  {
    var events := Recent(log);
    var start := |log| - |events|;
    f := start;
    if cursor.Some? && cursor.value != "" {
      var index := IndexOf(events, cursor.value, 0);
      f := start + index;
      forall m | start <= m < |log| ensures log[m] == events[m - start] {
      }
    }
  }

  /** A cursor that names a message still in the window replays a list that ends with exactly what was
      recorded behind that message. */
  lemma WindowCovers(log: seq<Event>, cursor: string, k: nat) returns (replay: seq<Event>, f: nat)
    requires k < |log| <= k + HISTORY_LIMIT && log[k].id == cursor && cursor != ""
    ensures replay == ReplayAfter(Recent(log), Some(cursor)) && f <= k && replay == log[f + 1..]
    ensures |replay| >= |log| - k - 1 && replay[|replay| - (|log| - k - 1)..] == log[k + 1..]
  {
    hide ReplayAfter, Recent;
    f := ReplayExact(log, Some(cursor));
    replay := ReplayAfter(Recent(log), Some(cursor));
  }

  /** A client joins after any run with a cursor in the window, and any run without its leaving follows.
      It is sent every later event: one recorded before by the replay, and once more exactly if its
      snapshot was still to come; one recorded afterwards once, when its snapshot is taken. */
  lemma ReconnectLeavesNoGap(before: seq<Step>, w: World, ws: Socket, member: int, cursor: string, k: nat,
                             later: seq<Step>, w': World, j: nat)
    requires Runs(Empty(), before, w) && Stays(ws, before) && w.group.history == Recent(w.log)
    requires k < |w.log| <= k + HISTORY_LIMIT && w.log[k].id == cursor && cursor != ""
    requires Runs(After(w, Join(ws, member, Some(cursor))), later, w') && Stays(ws, later)
    requires k < j < |w'.log|
    ensures w'.sent(ws)[j]
            == (if j < |w.log| then 1 else 0) + (if j in w'.delivered && j !in w.delivered then 1 else 0)
    ensures j in w'.delivered ==> 1 <= w'.sent(ws)[j] <= 2
    ensures w'.sent(ws)[j] == 2 <==> j < |w.log| && j in w'.delivered && j !in w.delivered
  {
    hide ReplayAfter, Recent, Numbers, Runs;
    EmptyHistory();
    StayingReceives(Empty(), before, w, ws, 0, j);
    DeliveredAreRecorded(Empty(), before, w);
    hide Entries;
    var w1 := After(w, Join(ws, member, Some(cursor)));
    var replay, f := WindowCovers(w.log, cursor, k);
    NumbersExact(w.log, f + 1, j);
    EntriesJoined(w.group.conns, Conn(ws, member), ws);
    StayingReceives(w1, later, w', ws, 1, j);
  }

  lemma EmptyHistory()
    ensures Empty().group.history == Recent(Empty().log)
  {
  }

  // ---------------------------------------------------------------- snapshots come after their event

  /** Only recorded messages are delivered, and messages are numbered as they are recorded. */
  lemma {:induction false} DeliveredAreRecorded(w: World, steps: seq<Step>, w': World)
    requires w.group.history == Recent(w.log) && Runs(w, steps, w') && Stamped(w.log)
    requires forall j :: j in w.delivered ==> j < |w.log|
    ensures Stamped(w'.log) && forall j :: j in w'.delivered ==> j < |w'.log|
    decreases |steps|
  {
    hide ReplayAfter, Pushed, Recent, Numbers;
    if steps != [] {
      DeliveredAreRecorded(After(w, steps[0]), steps[1..], w');
    }
  }

  // ---------------------------------------------------------------- what a disconnect leaves

  lemma {:induction false} WithoutConcat(a: seq<Conn>, b: seq<Conn>, ws: Socket)
    ensures Without(a + b, ws) == Without(a, ws) + Without(b, ws)
    decreases |b|
  {
    if b == [] {
      assert a + b == a;
    } else {
      WithoutConcat(a, b[..|b| - 1], ws);
      assert (a + b)[..|a + b| - 1] == a + b[..|b| - 1];
    }
  }

  /** A disconnect takes out all entries of the socket and keeps the others, each in its order. */
  lemma DisconnectKeepsOthers(conns: seq<Conn>, ws: Socket, i: nat)
    requires i < |conns|
    ensures var front, back := Without(conns[..i], ws), Without(conns[i + 1..], ws);
            Without(conns, ws) == if conns[i].socket == ws then front + back else front + [conns[i]] + back
    ensures Entries(Without(conns, ws), ws) == 0
  {
    hide Without, Entries;
    assert conns == conns[..i] + [conns[i]] + conns[i + 1..];
    WithoutConcat(conns[..i] + [conns[i]], conns[i + 1..], ws);
    WithoutConcat(conns[..i], [conns[i]], ws);
    WithoutOne(conns[i], ws);
    assert Without(conns[..i], ws) + [] == Without(conns[..i], ws);
    forall c | c in Without(conns, ws) ensures c.socket != ws {
      WithoutMembers(conns, ws, c);
    }
    NoEntries(Without(conns, ws), ws);
  }

  lemma WithoutOne(c: Conn, ws: Socket)
    ensures Without([c], ws) == if c.socket == ws then [] else [c]
  {
    assert [c][..0] == [];
  }

  lemma {:induction false} NoEntries(conns: seq<Conn>, ws: Socket)
    requires forall c :: c in conns ==> c.socket != ws
    ensures Entries(conns, ws) == 0
  {
    if conns != [] {
      NoEntries(conns[..|conns| - 1], ws);
    }
  }

  /** Who is reported, in any list: the member of the socket's first entry, unless it is member 0 or has
      another socket in the list. */
  lemma GoneIff(conns: seq<Conn>, ws: Socket, member: int)
    ensures Gone(conns, ws) == Some(member)
            <==> && member != 0
                 && (exists i :: 0 <= i < |conns| && conns[i] == Conn(ws, member) && forall k :: 0 <= k < i ==> conns[k].socket != ws)
                 && forall i :: 0 <= i < |conns| && conns[i].member == member ==> conns[i].socket == ws
  {
    hide Without;
    forall c ensures c in Without(conns, ws) <==> c in conns && c.socket != ws {
      WithoutMembers(conns, ws, c);
    }
    forall m ensures Online(Without(conns, ws), m) <==> exists i :: 0 <= i < |conns| && conns[i].member == m && conns[i].socket != ws {
      OnlineWithout(conns, ws, m);
    }
  }

  lemma OnlineWithout(conns: seq<Conn>, ws: Socket, m: int)
    ensures Online(Without(conns, ws), m) <==> exists i :: 0 <= i < |conns| && conns[i].member == m && conns[i].socket != ws
  {
    hide Without;
    forall i | 0 <= i < |conns| && conns[i].member == m && conns[i].socket != ws ensures Online(Without(conns, ws), m) {
      WithoutMembers(conns, ws, conns[i]);
    }
    if Online(Without(conns, ws), m) {
      var k :| 0 <= k < |Without(conns, ws)| && Without(conns, ws)[k].member == m;
      WithoutMembers(conns, ws, Without(conns, ws)[k]);
    }
  }
}
