// backend/artifacts/manager.py: registration, lifecycle and lineage over the artifact rows.
module Artifacts {
  import opened Wrappers

  datatype Status = Active | Revoked | Deleted

  /** `parent` and `derives` are empty when absent; `deletedAt` is meaningful for deleted rows. */
  datatype Row = Row(group: int, parent: string, derives: string, status: Status, deletedAt: int)

  type Rows = map<string, Row>

  datatype Error = SelfReference | BadRelation | DuplicateId | NotFound | NegativeAge

  // ---------------------------------------------------------------- operations on the rows

  /** The check of one relation: absent, or another artifact of the same group. */
  function RelationError(rows: Rows, id: string, group: int, related: string): (r: Result<(), Error>) {
    if related == "" then Success(())
    else if related == id then Failure(SelfReference)
    else if related !in rows || rows[related].group != group then Failure(BadRelation)
    else Success(())
  }

  function Registered(rows: Rows, id: string, group: int, parent: string, derives: string): Result<Rows, Error> {
    if RelationError(rows, id, group, parent).Failure? then Failure(RelationError(rows, id, group, parent).error)
    else if RelationError(rows, id, group, derives).Failure? then Failure(RelationError(rows, id, group, derives).error)
    else if id in rows then Failure(DuplicateId)
    else Success(rows[id := Row(group, parent, derives, Active, 0)])
  }

  function Revoke(rows: Rows, id: string, group: int): Rows {
    if id in rows && rows[id].group == group && rows[id].status == Active then rows[id := rows[id].(status := Revoked)]
    else rows
  }

  function Delete(rows: Rows, id: string, group: int, now: int): Rows {
    if id in rows && rows[id].group == group && rows[id].status != Deleted
    then rows[id := rows[id].(status := Deleted, deletedAt := now)]
    else rows
  }

  /** The deleted rows of the group that are old enough. */
  function Expired(rows: Rows, group: int, cutoff: int): set<string> {
    set id | id in rows && rows[id].group == group && rows[id].status == Deleted && rows[id].deletedAt <= cutoff
  }

  /** What is behind a row's locator: nothing the group may touch, no file, or a file that can be
      unlinked or not. */
  datatype File = NotLocal | Missing | Present(unlinks: bool)

  /** A row goes once its file is gone; a dry run does not find out whether the file can be unlinked. */
  predicate Purgeable(f: File, dryRun: bool) { f.Missing? || (f.Present? && (dryRun || f.unlinks)) }

  function Purged(rows: Rows, group: int, cutoff: int, files: string -> File, dryRun: bool): set<string> {
    set id | id in Expired(rows, group, cutoff) && Purgeable(files(id), dryRun)
  }

  function Purge(rows: Rows, group: int, cutoff: int, files: string -> File, dryRun: bool): Rows {
    if dryRun then rows else map id | id in rows && id !in Purged(rows, group, cutoff, files, dryRun) :: rows[id]
  }

  function Primary(row: Row): string { if row.parent != "" then row.parent else row.derives }

  predicate InGroup(rows: Rows, id: string, group: int) { id in rows && rows[id].group == group }

  /** The ancestors found from `next` on, when the ids in `visited` have been seen. */
  function ChainFrom(rows: Rows, group: int, next: string, visited: set<string>): seq<string>
    decreases rows.Keys - visited
  {
    if next == "" || next in visited || !InGroup(rows, next, group) then []
    else [next] + ChainFrom(rows, group, Primary(rows[next]), visited + {next})
  }

  function Ancestors(rows: Rows, id: string, group: int): seq<string>
    requires InGroup(rows, id, group)
  {
    ChainFrom(rows, group, Primary(rows[id]), {id})
  }

  function Descendants(rows: Rows, id: string, group: int): set<string> {
    set d | d in rows && rows[d].group == group && (rows[d].parent == id || rows[d].derives == id)
  }

  /** The table and the functions that update it. */
  class ArtifactStore {
    var rows: Rows

    constructor ()
      ensures rows == map[]
    {
      rows := map[];
    }

    method RegisterArtifact(id: string, group: int, parent: string, derives: string) returns (r: Result<Row, Error>)
      modifies this
      ensures match Registered(old(rows), id, group, parent, derives)
              case Success(after) => rows == after && r == Success(after[id])
              case Failure(e) => rows == old(rows) && r == Failure(e)
    {
      var related := [parent, derives];
      for k := 0 to 2
        invariant rows == old(rows)
        invariant forall i :: 0 <= i < k ==> RelationError(rows, id, group, related[i]).Success?
      {
        assert k == 0 || RelationError(rows, id, group, related[0]).Success?;
        if related[k] == "" {
          continue;
        }
        if related[k] == id {
          return Failure(SelfReference);
        }
        if related[k] !in rows || rows[related[k]].group != group {
          return Failure(BadRelation);
        }
      }
      assert RelationError(rows, id, group, related[0]).Success? && RelationError(rows, id, group, related[1]).Success?;
      if id in rows {
        return Failure(DuplicateId);
      }
      rows := rows[id := Row(group, parent, derives, Active, 0)];
      r := Success(rows[id]);
    }

    method RevokeArtifact(id: string, group: int) returns (changed: bool)
      modifies this
      ensures rows == Revoke(old(rows), id, group) && (changed <==> rows != old(rows))
    {
      changed := id in rows && rows[id].group == group && rows[id].status == Active;
      if changed {
        rows := rows[id := rows[id].(status := Revoked)];
        assert rows[id] != old(rows)[id];
      }
    }

    method DeleteArtifact(id: string, group: int, now: int) returns (changed: bool)
      modifies this
      ensures rows == Delete(old(rows), id, group, now) && (changed <==> rows != old(rows))
    {
      changed := id in rows && rows[id].group == group && rows[id].status != Deleted;
      if changed {
        rows := rows[id := rows[id].(status := Deleted, deletedAt := now)];
        assert rows[id] != old(rows)[id];
      }
    }

    /** The rows purged and the rows skipped. */
    method PurgeDeletedArtifacts(group: int, age: int, now: int, files: string -> File, dryRun: bool)
        returns (r: Result<(set<string>, set<string>), Error>)
      modifies this
      ensures age < 0 ==> r == Failure(NegativeAge) && rows == old(rows)
      ensures age >= 0 ==>
                && rows == Purge(old(rows), group, now - age, files, dryRun)
                && r.Success? && r.value.0 == Purged(old(rows), group, now - age, files, dryRun)
                && r.value.1 == Expired(old(rows), group, now - age) - r.value.0
    {
      if age < 0 {
        return Failure(NegativeAge);
      }
      var expired := Expired(rows, group, now - age);
      var todo, purged, skipped: set<string> := expired, {}, {};
      while todo != {}
        invariant todo <= expired && purged + skipped + todo == expired
        invariant purged !! skipped && (purged + skipped) !! todo
        invariant purged == set id | id in expired - todo && Purgeable(files(id), dryRun)
        invariant rows == if dryRun then old(rows) else map id | id in old(rows) && id !in purged :: old(rows)[id]
        decreases todo
      {
        var id :| id in todo;
        todo := todo - {id};
        var file := files(id);
        if file.NotLocal? {
          skipped := skipped + {id};
          continue;
        }
        if !dryRun && file.Present? && !file.unlinks {
          skipped := skipped + {id};
          continue;
        }
        if !dryRun {
          rows := rows - {id};
        }
        purged := purged + {id};
      }
      assert expired - todo == expired;
      r := Success((purged, skipped));
    }

    method GetArtifactLineage(id: string, group: int) returns (r: Result<(seq<string>, set<string>), Error>)
      ensures InGroup(rows, id, group) ==> r == Success((Ancestors(rows, id, group), Descendants(rows, id, group)))
      ensures !InGroup(rows, id, group) ==> r == Failure(NotFound)
    {
      if !InGroup(rows, id, group) {
        return Failure(NotFound);
      }
      var ancestors: seq<string> := [];
      var visited := {id};
      var next := Primary(rows[id]);
      while next != "" && next !in visited
        invariant ancestors + ChainFrom(rows, group, next, visited) == Ancestors(rows, id, group)
        decreases rows.Keys - visited
      {
        if !InGroup(rows, next, group) {
          break;
        }
        ancestors := ancestors + [next];
        visited := visited + {next};
        next := Primary(rows[next]);
      }
      assert ChainFrom(rows, group, next, visited) == [] && ancestors + [] == ancestors;
      r := Success((ancestors, Descendants(rows, id, group)));
    }
  }

  // ---------------------------------------------------------------- lineage on any rows

  /** The id the listing goes to after its i-th entry; the 0-th is the artifact itself. */
  function Visited(id: string, chain: seq<string>): seq<string> { [id] + chain }

  lemma {:induction false} ChainExact(rows: Rows, group: int, at: string, visited: set<string>)
    requires InGroup(rows, at, group) && at in visited
    ensures var chain := ChainFrom(rows, group, Primary(rows[at]), visited);
            var walk := [at] + chain;
            && (forall i :: 0 <= i < |walk| ==> InGroup(rows, walk[i], group))
            && (forall i :: 0 <= i < |chain| ==> walk[i + 1] == Primary(rows[walk[i]]) != "" && chain[i] !in visited)
            && (forall i, j :: 0 <= i < j < |chain| ==> chain[i] != chain[j])
            && var last := Primary(rows[walk[|chain|]]);
               last == "" || !InGroup(rows, last, group) || last in visited || last in chain
    decreases rows.Keys - visited
  {
    var next := Primary(rows[at]);
    if next != "" && next !in visited && InGroup(rows, next, group) {
      ChainExact(rows, group, next, visited + {next});
      var chain := ChainFrom(rows, group, next, visited);
      var rest := ChainFrom(rows, group, Primary(rows[next]), visited + {next});
      assert chain == [next] + rest;
      var walk := [at] + chain;
      forall i | 0 <= i < |walk| ensures InGroup(rows, walk[i], group) {
        assert i > 0 ==> walk[i] == ([next] + rest)[i - 1];
      }
      forall i | 0 <= i < |chain| ensures walk[i + 1] == Primary(rows[walk[i]]) != "" && chain[i] !in visited {
        assert i > 0 ==> walk[i + 1] == ([next] + rest)[i] && walk[i] == ([next] + rest)[i - 1];
      }
      forall i, j | 0 <= i < j < |chain| ensures chain[i] != chain[j] {
        assert i == 0 ==> rest[j - 1] !in visited + {next};
      }
      assert walk[|chain|] == ([next] + rest)[|rest|];
    }
  }

  /** On any rows, cycles included, the listing follows the primary links without repeating an entry
      and stops only where there is no link, no row of the group, or an id already listed. */
  lemma LineageFollowsLinks(rows: Rows, id: string, group: int)
    requires InGroup(rows, id, group)
    ensures var walk := Visited(id, Ancestors(rows, id, group));
            && (forall i :: 0 <= i < |walk| ==> InGroup(rows, walk[i], group))
            && (forall i, j :: 0 <= i < j < |walk| ==> walk[i] != walk[j])
            && (forall i :: 0 <= i < |walk| - 1 ==> walk[i + 1] == Primary(rows[walk[i]]) != "")
            && var last := Primary(rows[walk[|walk| - 1]]);
               last == "" || !InGroup(rows, last, group) || last in walk
  {
    ChainExact(rows, group, id, {id});
  }

  /** Ancestors and descendants mirror each other: an artifact is a descendant of its nearest ancestor. */
  lemma NearestAncestorListsIt(rows: Rows, id: string, group: int)
    requires InGroup(rows, id, group) && Ancestors(rows, id, group) != []
    ensures id in Descendants(rows, Ancestors(rows, id, group)[0], group)
  {
    LineageFollowsLinks(rows, id, group);
    assert Visited(id, Ancestors(rows, id, group))[1] == Primary(rows[id]);
  }

  // ---------------------------------------------------------------- runs

  datatype Event =
    | Register(id: string, group: int, parent: string, derives: string)
    | RevokeOne(id: string, group: int)
    | DeleteOne(id: string, group: int, now: int)
    | PurgeSome(group: int, cutoff: int, files: string -> File, dryRun: bool)

  function Step(rows: Rows, e: Event): Rows {
    match e
    case Register(id, group, parent, derives) =>
      var r := Registered(rows, id, group, parent, derives);
      if r.Success? then r.value else rows
    case RevokeOne(id, group) => Revoke(rows, id, group)
    case DeleteOne(id, group, now) => Delete(rows, id, group, now)
    case PurgeSome(group, cutoff, files, dryRun) => Purge(rows, group, cutoff, files, dryRun)
  }

  function Run(events: seq<Event>): Rows {
    if events == [] then map[] else Step(Run(events[..|events| - 1]), events[|events| - 1])
  }

  lemma RunSnoc(events: seq<Event>, e: Event)
    ensures Run(events + [e]) == Step(Run(events), e)
  {
    hide Step;
    assert (events + [e])[..|events|] == events;
  }

  /** What an id stood for when it was first registered. */
  datatype Birth = Birth(order: nat, group: int)

  /** All ids ever registered, with the order of their registration. */
  function Ledger(events: seq<Event>): map<string, Birth> {
    if events == [] then map[]
    else
      var before, e := events[..|events| - 1], events[|events| - 1];
      if e.Register? && e.id in Run(events) && e.id !in Run(before)
      then Ledger(before)[e.id := Birth(|before|, e.group)]
      else Ledger(before)
  }

  /** No id is registered again after its row has been purged. */
  predicate NoReuse(events: seq<Event>) {
    forall i :: 0 <= i < |events| && events[i].Register? ==>
      events[i].id !in Ledger(events[..i]) || events[i].id in Run(events[..i])
  }

  /** A link of a row, to the artifact it was made from or replaces. */
  predicate Links(rows: Rows, a: string, b: string) {
    a in rows && b != "" && (rows[a].parent == b || rows[a].derives == b)
  }

  /** Links lead to ids registered earlier, in the same group. */
  ghost predicate Ordered(rows: Rows, ledger: map<string, Birth>, n: nat) {
    && (forall id :: id in ledger ==> ledger[id].order < n)
    && (forall id :: id in rows ==> id in ledger && ledger[id].group == rows[id].group)
    && (forall a, b :: Links(rows, a, b) ==>
          b in ledger && a in ledger && ledger[b].order < ledger[a].order && ledger[b].group == ledger[a].group)
  }

  lemma StepKeepsLinks(rows: Rows, e: Event, a: string, b: string)
    requires !e.Register?
    ensures Links(Step(rows, e), a, b) ==> Links(rows, a, b)
    ensures forall id :: id in Step(rows, e) ==> id in rows && Step(rows, e)[id].group == rows[id].group
  {
  }

  lemma {:induction false} RunOrdered(events: seq<Event>)
    requires NoReuse(events)
    ensures Ordered(Run(events), Ledger(events), |events|)
  {
    if events != [] {
      var n := |events| - 1;
      var before, e := events[..n], events[n];
      assert events == before + [e];
      NoReusePrefix(before, e);
      RunOrdered(before);
      var rows, ledger := Run(before), Ledger(before);
      if e.Register? {
        RegisterOrdered(rows, ledger, n, e);
      } else {
        assert Ledger(events) == ledger;
        forall a, b | Links(Run(events), a, b) ensures Links(rows, a, b) {
          StepKeepsLinks(rows, e, a, b);
        }
        StepKeepsLinks(rows, e, "", "");
      }
    }
  }

  lemma RegisterOrdered(rows: Rows, ledger: map<string, Birth>, n: nat, e: Event)
    requires Ordered(rows, ledger, n) && e.Register? && (e.id !in ledger || e.id in rows)
    ensures var after := Step(rows, e);
            Ordered(after, if e.id in after && e.id !in rows then ledger[e.id := Birth(n, e.group)] else ledger, n + 1)
  {
    var after := Step(rows, e);
    if e.id in after && e.id !in rows {
      var grown := ledger[e.id := Birth(n, e.group)];
      forall a, b | Links(after, a, b)
        ensures b in grown && a in grown && grown[b].order < grown[a].order && grown[b].group == grown[a].group
      {
        if a != e.id {
          assert Links(rows, a, b);
        }
      }
    }
  }

  /** A walk along links, each id's row still present when the walk leaves it. */
  ghost predicate Walk(rows: Rows, p: seq<string>) {
    |p| >= 2 && forall i :: 0 <= i < |p| - 1 ==> Links(rows, p[i], p[i + 1])
  }

  lemma {:induction false} WalkDescends(rows: Rows, ledger: map<string, Birth>, n: nat, p: seq<string>)
    requires Ordered(rows, ledger, n) && Walk(rows, p)
    ensures p[0] in ledger && p[|p| - 1] in ledger && ledger[p[|p| - 1]].order < ledger[p[0]].order
    decreases |p|
  {
    assert Links(rows, p[0], p[1]);
    if |p| > 2 {
      assert forall i :: 0 <= i < |p| - 2 ==> Links(rows, p[1..][i], p[1..][i + 1]) by {
        forall i | 0 <= i < |p| - 2 ensures Links(rows, p[1..][i], p[1..][i + 1]) {
          assert Links(rows, p[i + 1], p[i + 2]);
        }
      }
      WalkDescends(rows, ledger, n, p[1..]);
    }
  }

  // ---------------------------------------------------------------- when a registration closes a loop

  ghost predicate Acyclic(rows: Rows) {
    forall p :: Walk(rows, p) ==> p[0] != p[|p| - 1]
  }

  /** Zero or more links lead from `a` to `b`. */
  ghost predicate Leads(rows: Rows, a: string, b: string) {
    a == b || exists p :: Walk(rows, p) && p[0] == a && p[|p| - 1] == b
  }

  /** The registration goes through, and one of its links leads back to its id over rows already there. */
  ghost predicate ClosesLoop(rows: Rows, e: Event) {
    && e.Register? && Registered(rows, e.id, e.group, e.parent, e.derives).Success?
    && ((e.parent != "" && Leads(rows, e.parent, e.id)) || (e.derives != "" && Leads(rows, e.derives, e.id)))
  }

  lemma WalkFrom(rows: Rows, a: string, b: string, p: seq<string>)
    requires Links(rows, a, b) && p != [] && p[0] == b && (|p| == 1 || Walk(rows, p))
    ensures Walk(rows, [a] + p) && ([a] + p)[|p|] == p[|p| - 1]
  {
    var q := [a] + p;
    forall i | 0 <= i < |q| - 1 ensures Links(rows, q[i], q[i + 1]) {
      if i > 0 {
        assert Links(rows, p[i - 1], p[i]);
      }
    }
  }

  lemma LeadsFrom(rows: Rows, a: string, b: string, c: string)
    requires Links(rows, a, b) && Leads(rows, b, c)
    ensures exists p :: Walk(rows, p) && p[0] == a && p[|p| - 1] == c
  {
    if b == c {
      WalkFrom(rows, a, b, [b]);
    } else {
      var p :| Walk(rows, p) && p[0] == b && p[|p| - 1] == c;
      WalkFrom(rows, a, b, p);
    }
  }

  lemma LeadsOn(rows: Rows, a: string, b: string, c: string)
    requires Leads(rows, a, b) && Leads(rows, b, c)
    ensures Leads(rows, a, c)
  {
    if a != b && b != c {
      var p :| Walk(rows, p) && p[0] == a && p[|p| - 1] == b;
      var q :| Walk(rows, q) && q[0] == b && q[|q| - 1] == c;
      var r := p + q[1..];
      forall i | 0 <= i < |r| - 1 ensures Links(rows, r[i], r[i + 1]) {
        if i < |p| - 1 {
          assert Links(rows, p[i], p[i + 1]);
        } else {
          assert Links(rows, q[i - (|p| - 1)], q[i - (|p| - 1) + 1]);
        }
      }
      assert Walk(rows, r) && r[0] == a && r[|r| - 1] == c;
    }
  }

  lemma RegisteredLinks(rows: Rows, e: Event, a: string, b: string)
    requires e.Register? && Registered(rows, e.id, e.group, e.parent, e.derives).Success?
    ensures Links(Step(rows, e), a, b) <==> Links(rows, a, b) || (a == e.id && b != "" && (b == e.parent || b == e.derives))
    ensures !Links(rows, e.id, b)
  {
  }

  /** A walk after the registration stays on old links, or passes the new row: then old links lead to its
      id, and on from one of its own links. */
  lemma {:induction false} WalkSplits(rows: Rows, e: Event, p: seq<string>) returns (x: string)
    requires e.Register? && Registered(rows, e.id, e.group, e.parent, e.derives).Success? && Walk(Step(rows, e), p)
    ensures (exists q :: Walk(rows, q) && q[0] == p[0] && q[|q| - 1] == p[|p| - 1])
            || (x != "" && (x == e.parent || x == e.derives) && Leads(rows, p[0], e.id) && Leads(rows, x, p[|p| - 1]))
    decreases |p|
  {
    hide Registered, Step;
    var after, last := Step(rows, e), p[|p| - 1];
    assert Links(after, p[0], p[1]);
    RegisteredLinks(rows, e, p[0], p[1]);
    x := p[1];
    if |p| == 2 {
      if p[0] != e.id {
        LeadsFrom(rows, p[0], p[1], last);
      }
    } else {
      var rest := p[1..];
      forall i | 0 <= i < |rest| - 1 ensures Links(after, rest[i], rest[i + 1]) {
        assert Links(after, p[i + 1], p[i + 2]);
      }
      var y := WalkSplits(rows, e, rest);
      if exists q :: Walk(rows, q) && q[0] == p[1] && q[|q| - 1] == last {
        if p[0] != e.id {
          LeadsFrom(rows, p[0], p[1], last);
        }
      } else {
        x := y;
        if p[0] != e.id {
          LeadsFrom(rows, p[0], p[1], e.id);
        }
      }
    }
  }

  /** A registration keeps the links free of cycles exactly when neither of its own links leads back to
      its id along links that are already there. */
  lemma RegisterAcyclicIff(rows: Rows, e: Event)
    requires Acyclic(rows) && e.Register?
    ensures Acyclic(Step(rows, e)) <==> !ClosesLoop(rows, e)
  {
    if Registered(rows, e.id, e.group, e.parent, e.derives).Success? {
      hide Walk, Leads;
      if ClosesLoop(rows, e) {
        var x := if e.parent != "" && Leads(rows, e.parent, e.id) then e.parent else e.derives;
        LoopCloses(rows, e, x);
      } else {
        forall p | Walk(Step(rows, e), p) ensures p[0] != p[|p| - 1] {
          NoLoopClosed(rows, e, p);
        }
      }
    }
  }

  lemma NoLoopClosed(rows: Rows, e: Event, p: seq<string>)
    requires Acyclic(rows) && e.Register? && Registered(rows, e.id, e.group, e.parent, e.derives).Success?
    requires !ClosesLoop(rows, e) && Walk(Step(rows, e), p)
    ensures p[0] != p[|p| - 1]
  {
    hide Registered, Step, Leads;
    var x := WalkSplits(rows, e, p);
    if p[0] == p[|p| - 1] && Leads(rows, p[0], e.id) && Leads(rows, x, p[|p| - 1]) {
      LeadsOn(rows, x, p[0], e.id);
    }
  }

  lemma LoopCloses(rows: Rows, e: Event, x: string)
    requires e.Register? && Registered(rows, e.id, e.group, e.parent, e.derives).Success?
    requires x != "" && (x == e.parent || x == e.derives) && Leads(rows, x, e.id)
    ensures !Acyclic(Step(rows, e))
  {
    var after := Step(rows, e);
    RegisteredLinks(rows, e, e.id, x);
    assert x != e.id;
    var p :| Walk(rows, p) && p[0] == x && p[|p| - 1] == e.id;
    hide Registered, Step;
    forall i | 0 <= i < |p| - 1 ensures Links(after, p[i], p[i + 1]) {
      assert Links(rows, p[i], p[i + 1]);
      RegisteredLinks(rows, e, p[i], p[i + 1]);
    }
    WalkFrom(after, e.id, x, p);
    var q := [e.id] + p;
    assert q[0] == q[|q| - 1];
  }

  lemma OtherStepsAcyclic(rows: Rows, e: Event)
    requires Acyclic(rows) && !e.Register?
    ensures Acyclic(Step(rows, e))
  {
    hide Step, Links;
    forall p | Walk(Step(rows, e), p) ensures p[0] != p[|p| - 1] {
      forall i | 0 <= i < |p| - 1 ensures Links(rows, p[i], p[i + 1]) {
        StepKeepsLinks(rows, e, p[i], p[i + 1]);
      }
      assert Walk(rows, p);
    }
  }

  /** Free of cycles at every point of the run. */
  ghost predicate AlwaysAcyclic(events: seq<Event>) {
    forall n :: 0 <= n <= |events| ==> Acyclic(Run(events[..n]))
  }

  ghost predicate ClosesNoLoop(events: seq<Event>) {
    forall i :: 0 <= i < |events| ==> !ClosesLoop(Run(events[..i]), events[i])
  }

  lemma AlwaysSnoc(before: seq<Event>, e: Event)
    ensures AlwaysAcyclic(before + [e]) <==> AlwaysAcyclic(before) && Acyclic(Step(Run(before), e))
  {
    hide Acyclic, Step, Run;
    var all := before + [e];
    assert all[..|before|] == before && all[..|all|] == all;
    RunSnoc(before, e);
    assert forall k :: 0 <= k <= |before| ==> all[..k] == before[..k];
    assert AlwaysAcyclic(all) ==> Acyclic(Run(all[..|all|]));
  }

  lemma ClosesSnoc(before: seq<Event>, e: Event)
    ensures ClosesNoLoop(before + [e]) <==> ClosesNoLoop(before) && !ClosesLoop(Run(before), e)
  {
    hide ClosesLoop, Run;
    var all := before + [e];
    assert all[..|before|] == before && all[|before|] == e;
    assert forall k :: 0 <= k < |before| ==> all[..k] == before[..k] && all[k] == before[k];
  }

  /** Over a run: parent and derives-from links are free of cycles at every point exactly when no
      registration closes a loop. */
  lemma {:induction false} AcyclicIffNoLoop(events: seq<Event>)
    ensures AlwaysAcyclic(events) <==> ClosesNoLoop(events)
  {
    if events == [] {
      NothingAcyclic();
    } else {
      hide Acyclic, ClosesLoop, Step, Run, AlwaysAcyclic, ClosesNoLoop;
      var before, e := events[..|events| - 1], events[|events| - 1];
      assert events == before + [e];
      AcyclicIffNoLoop(before);
      AlwaysSnoc(before, e);
      ClosesSnoc(before, e);
      if AlwaysAcyclic(before) {
        AlwaysNow(before);
        LastStep(Run(before), e);
      }
    }
  }

  lemma AlwaysNow(events: seq<Event>)
    requires AlwaysAcyclic(events)
    ensures Acyclic(Run(events))
  {
    hide Acyclic, Run;
    assert events[..|events|] == events;
  }

  lemma LastStep(rows: Rows, e: Event)
    requires Acyclic(rows)
    ensures Acyclic(Step(rows, e)) <==> !ClosesLoop(rows, e)
  {
    hide Acyclic, Step;
    if e.Register? {
      RegisterAcyclicIff(rows, e);
    } else {
      OtherStepsAcyclic(rows, e);
    }
  }

  lemma NothingAcyclic()
    ensures AlwaysAcyclic([])
  {
    assert Run([]) == map[];
    forall p: seq<string> ensures !Walk(map[], p) {
      assert |p| >= 2 ==> !Links(map[], p[0], p[1]);
    }
  }

  /** A run that reuses no id closes no loop. */
  lemma NoReuseClosesNoLoop(events: seq<Event>, i: nat)
    requires NoReuse(events) && i < |events|
    ensures !ClosesLoop(Run(events[..i]), events[i])
  {
    hide Run, Ledger;
    var before, e := events[..i], events[i];
    assert before + events[i..] == events;
    NoReuseFront(events, i);
    RunOrdered(before);
    var rows, ledger := Run(before), Ledger(before);
    if e.Register? && e.id !in ledger {
      forall p | Walk(rows, p) ensures p[|p| - 1] != e.id {
        WalkDescends(rows, ledger, i, p);
      }
    }
  }

  lemma NoReuseFront(events: seq<Event>, i: nat)
    requires NoReuse(events) && i <= |events|
    ensures NoReuse(events[..i])
  {
    hide Run, Ledger;
    forall k | 0 <= k < i && events[..i][k].Register?
      ensures events[..i][k].id !in Ledger(events[..i][..k]) || events[..i][k].id in Run(events[..i][..k])
    {
      assert events[..i][..k] == events[..k];
    }
  }

  /** So in every run that reuses no id, no walk along parent and derives-from links returns to its start. */
  lemma LineageAcyclic(events: seq<Event>)
    requires NoReuse(events)
    ensures Acyclic(Run(events))
  {
    hide Acyclic, ClosesLoop, NoReuse, Run, AlwaysAcyclic;
    AcyclicIffNoLoop(events);
    forall i | 0 <= i < |events| ensures !ClosesLoop(Run(events[..i]), events[i]) {
      NoReuseClosesNoLoop(events, i);
    }
    AlwaysNow(events);
  }

  // ---------------------------------------------------------------- groups

  /** Linked rows belong to one group. */
  ghost predicate OneGroup(rows: Rows) {
    forall a, b :: Links(rows, a, b) && b in rows ==> rows[a].group == rows[b].group
  }

  /** A registration keeps linked rows in one group exactly when the rows that still link to its id are
      of its group. */
  lemma RegisterOneGroupIff(rows: Rows, e: Event)
    requires OneGroup(rows) && e.Register?
    ensures OneGroup(Step(rows, e))
            <==> (Registered(rows, e.id, e.group, e.parent, e.derives).Success? ==>
                    forall a :: Links(rows, a, e.id) ==> rows[a].group == e.group)
  {
    if Registered(rows, e.id, e.group, e.parent, e.derives).Success? {
      var after := Step(rows, e);
      if OneGroup(after) {
        forall a | Links(rows, a, e.id) ensures rows[a].group == e.group {
          assert Links(after, a, e.id);
        }
      }
      if forall a :: Links(rows, a, e.id) ==> rows[a].group == e.group {
        forall a, b | Links(after, a, b) && b in after ensures after[a].group == after[b].group {
          RegisteredLinks(rows, e, a, b);
        }
      }
    }
  }

  /** A run that reuses no id keeps linked artifacts in one group. */
  lemma LinksStayInGroup(events: seq<Event>)
    requires NoReuse(events)
    ensures OneGroup(Run(events))
  {
    hide Run, Ledger;
    RunOrdered(events);
  }

  lemma NotVisitedAgain(rows: Rows, walk: seq<string>, k: nat, b: string)
    requires Acyclic(rows) && k < |walk| && Links(rows, walk[|walk| - 1], b)
    requires forall i :: 0 <= i < |walk| - 1 ==> Links(rows, walk[i], walk[i + 1])
    ensures b != walk[k]
  {
    var p := walk[k..] + [b];
    forall i | 0 <= i < |p| - 1 ensures Links(rows, p[i], p[i + 1]) {
      if i < |p| - 2 {
        assert Links(rows, walk[k + i], walk[k + i + 1]);
      }
    }
    assert Walk(rows, p);
  }

  /** Where links form no cycle and stay in one group, the listing is the whole primary chain: it stops
      only at an artifact without a link or at one whose origin has been purged. */
  lemma LineageComplete(rows: Rows, id: string, group: int)
    requires Acyclic(rows) && OneGroup(rows) && InGroup(rows, id, group)
    ensures var walk := Visited(id, Ancestors(rows, id, group));
            && (forall i :: 0 <= i < |walk| ==> walk[i] in rows)
            && (forall i :: 0 <= i < |walk| - 1 ==> walk[i + 1] == Primary(rows[walk[i]]) != "")
            && (Primary(rows[walk[|walk| - 1]]) == "" || Primary(rows[walk[|walk| - 1]]) !in rows)
  {
    hide Ancestors, Acyclic;
    LineageFollowsLinks(rows, id, group);
    var walk := Visited(id, Ancestors(rows, id, group));
    var end := walk[|walk| - 1];
    var last := Primary(rows[end]);
    assert InGroup(rows, end, group);
    forall i | 0 <= i < |walk| - 1 ensures Links(rows, walk[i], walk[i + 1]) {
      assert InGroup(rows, walk[i], group);
      assert walk[i + 1] == Primary(rows[walk[i]]) != "";
    }
    forall i | 0 <= i < |walk| ensures walk[i] in rows {
      assert InGroup(rows, walk[i], group);
    }
    if last != "" && last in rows {
      assert Links(rows, end, last);
      assert last in walk;
      var k :| 0 <= k < |walk| && walk[k] == last;
      NotVisitedAgain(rows, walk, k, last);
    }
  }

  /** Every run that reuses no id has complete listings. */
  lemma RunLineageComplete(events: seq<Event>, id: string, group: int)
    requires NoReuse(events) && InGroup(Run(events), id, group)
    ensures var rows := Run(events);
            var walk := Visited(id, Ancestors(rows, id, group));
            && (forall i :: 0 <= i < |walk| ==> walk[i] in rows)
            && (Primary(rows[walk[|walk| - 1]]) == "" || Primary(rows[walk[|walk| - 1]]) !in rows)
  {
    hide Run, Ancestors, Acyclic, OneGroup, NoReuse;
    LineageAcyclic(events);
    LinksStayInGroup(events);
    LineageComplete(Run(events), id, group);
  }

  /** Reusing a purged id can close a cycle: `b` is made from `a`, `a` is purged, and a new `a` is made from `b`. */
  lemma ReuseClosesCycle()
    ensures var events := [Register("a", 1, "", ""), Register("b", 1, "a", ""), DeleteOne("a", 1, 0),
                           PurgeSome(1, 0, (id: string) => Missing, false), Register("a", 1, "b", "")];
            !NoReuse(events) && Walk(Run(events), ["a", "b", "a"])
  {
    var purge := PurgeSome(1, 0, (id: string) => Missing, false);
    var events := [Register("a", 1, "", ""), Register("b", 1, "a", ""), DeleteOne("a", 1, 0), purge, Register("a", 1, "b", "")];
    var a, b := Row(1, "", "", Active, 0), Row(1, "a", "", Active, 0);
    assert events[..1][..0] == [] && events[..2][..1] == events[..1] && events[..3][..2] == events[..2];
    assert events[..4][..3] == events[..3] && events[..5] == events && events[..|events| - 1] == events[..4];
    assert "a" != "b" && "a" != "" && "b" != "";
    assert Run(events[..1]) == map["a" := a];
    assert Run(events[..2]) == map["a" := a, "b" := b];
    assert Run(events[..3]) == map["a" := a.(status := Deleted), "b" := b];
    assert Run(events[..4]) == map["b" := b] by { PurgeOne(b); }
    assert Run(events) == map["b" := b]["a" := Row(1, "b", "", Active, 0)];
    assert "a" in Ledger(events[..1]);
    assert "a" in Ledger(events[..2]) && "a" in Ledger(events[..3]) && "a" in Ledger(events[..4]);
    assert events[4].Register? && events[4].id in Ledger(events[..4]) && events[4].id !in Run(events[..4]);
  }

  lemma PurgeOne(b: Row)
    requires b.status == Active
    ensures var rows: Rows := map["a" := Row(1, "", "", Deleted, 0), "b" := b];
            Purge(rows, 1, 0, (id: string) => Missing, false) == map["b" := b]
  {
    assert "a" != "b";
  }

  // ---------------------------------------------------------------- lifecycle

  predicate Allowed(before: Status, after: Status) {
    before == after || (before == Active && after == Revoked) || (before != Deleted && after == Deleted)
  }

  /** One operation moves a row's status only from active to revoked or to deleted, or from revoked to
      deleted; it never changes links or group, and removes only deleted rows. */
  lemma LifecycleStep(rows: Rows, e: Event, id: string)
    requires id in rows
    ensures id in Step(rows, e) ==>
              var before, after := rows[id], Step(rows, e)[id];
              Allowed(before.status, after.status)
              && after.group == before.group && after.parent == before.parent && after.derives == before.derives
    ensures id !in Step(rows, e) ==> rows[id].status == Deleted
  {
  }

  function Rank(s: Status): nat {
    match s
    case Active => 0
    case Revoked => 1
    case Deleted => 2
  }

  lemma LedgerGrows(events: seq<Event>, e: Event)
    ensures Run(events + [e]) == Step(Run(events), e)
    ensures forall id :: id in Ledger(events) ==> id in Ledger(events + [e])
  {
    hide Step, Run;
    RunSnoc(events, e);
    assert (events + [e])[..|events|] == events;
  }

  /** Without reuse, a row that is gone does not come back. */
  lemma GoneStaysGone(events: seq<Event>, e: Event, id: string)
    requires NoReuse(events + [e]) && id in Ledger(events) && id !in Run(events)
    ensures id !in Step(Run(events), e)
  {
    hide Run, Ledger;
    var all := events + [e];
    assert all[..|events|] == events && all[|events|] == e;
  }

  lemma NoReusePrefix(events: seq<Event>, e: Event)
    requires NoReuse(events + [e])
    ensures NoReuse(events)
  {
    hide Run, Ledger;
    var all := events + [e];
    forall i | 0 <= i < |events| && events[i].Register?
      ensures events[i].id !in Ledger(events[..i]) || events[i].id in Run(events[..i])
    {
      assert all[..i] == events[..i] && all[i] == events[i];
    }
  }

  /** The row is as it was, or has moved forward, with its links unchanged. */
  predicate MovedForward(before: Row, after: Row) {
    Rank(before.status) <= Rank(after.status)
    && after.group == before.group && after.parent == before.parent && after.derives == before.derives
  }

  /** Over any continuation of a run without reuse, a row that is still there has only moved forward and
      kept its links. */
  lemma {:induction false} LifecycleForward(events: seq<Event>, more: seq<Event>, id: string)
    requires NoReuse(events + more) && id in Run(events)
    ensures id in Run(events + more) ==> MovedForward(Run(events)[id], Run(events + more)[id])
    ensures id in Ledger(events + more)
    decreases |more|
  {
    hide Run, Ledger, Step, NoReuse;
    if more == [] {
      assert events + more == events;
      LedgerHasRows(events, id);
    } else {
      var init, e := more[..|more| - 1], more[|more| - 1];
      assert events + more == (events + init) + [e];
      NoReusePrefix(events + init, e);
      LifecycleForward(events, init, id);
      LedgerGrows(events + init, e);
      if id in Run(events + init) {
        LifecycleStep(Run(events + init), e, id);
      } else {
        GoneStaysGone(events + init, e, id);
      }
    }
  }

  lemma {:induction false} LedgerHasRows(events: seq<Event>, id: string)
    requires id in Run(events)
    ensures id in Ledger(events)
  {
    if events != [] {
      var before, e := events[..|events| - 1], events[|events| - 1];
      if id in Run(before) {
        LedgerHasRows(before, id);
      }
    }
  }

  // ---------------------------------------------------------------- what each operation does to a row

  /** A link may be absent or name another artifact of the same group. */
  predicate LinkAllowed(rows: Rows, id: string, group: int, link: string) {
    link == "" || (link != id && link in rows && rows[link].group == group)
  }

  /** A registration goes through exactly when both links are allowed and the id is free. The new row is
      active and carries both links, no other row changes, and a refusal says what was wrong first. */
  lemma RegisterExact(rows: Rows, id: string, group: int, parent: string, derives: string)
    ensures var r := Registered(rows, id, group, parent, derives);
            && (r.Success? <==> LinkAllowed(rows, id, group, parent) && LinkAllowed(rows, id, group, derives) && id !in rows)
            && (r.Success? ==>
                 && id in r.value && r.value[id] == Row(group, parent, derives, Active, 0)
                 && forall o :: o != id ==> (o in r.value <==> o in rows) && (o in rows ==> r.value[o] == rows[o]))
            && (r.Failure? ==>
                 r.error == if !LinkAllowed(rows, id, group, parent) then (if parent == id then SelfReference else BadRelation)
                            else if !LinkAllowed(rows, id, group, derives) then (if derives == id then SelfReference else BadRelation)
                            else DuplicateId)
  {
  }

  /** What an event makes of a row that is already there: a row of the named group is revoked if it was
      active, deleted if it was not yet, and goes when a purge that is no dry run finds it deleted since
      long enough and its file missing or unlinked; in every other case it stays as it is. */
  lemma RowAfter(rows: Rows, e: Event, id: string)
    requires id in rows
    ensures var row, after := rows[id], Step(rows, e);
            match e
            case Register(_, _, _, _) => id in after && after[id] == row
            case RevokeOne(named, group) =>
              && id in after && after[id].group == row.group && after[id].parent == row.parent && after[id].derives == row.derives
              && after[id].status == if id == named && row.group == group && row.status == Active then Revoked else row.status
            case DeleteOne(named, group, now) =>
              && id in after && after[id].group == row.group && after[id].parent == row.parent && after[id].derives == row.derives
              && (if id == named && row.group == group && row.status != Deleted
                  then after[id].status == Deleted && after[id].deletedAt == now
                  else after[id] == row)
            case PurgeSome(group, cutoff, files, dryRun) =>
              && (id in after ==> after[id] == row)
              && (id !in after <==> && !dryRun && row.group == group && row.status == Deleted && row.deletedAt <= cutoff
                                    && (files(id) == Missing || files(id) == Present(true)))
  {
  }

  /** A purge reports as purged what it removed, or on a dry run every old deleted row with a local file,
      and as skipped the other old deleted rows. */
  lemma PurgeReports(rows: Rows, group: int, cutoff: int, files: string -> File, dryRun: bool, id: string)
    ensures var due, gone := Expired(rows, group, cutoff), Purged(rows, group, cutoff, files, dryRun);
            && (id in due <==> id in rows && rows[id].group == group && rows[id].status == Deleted && rows[id].deletedAt <= cutoff)
            && (id in gone ==> id in due)
            && (!dryRun ==> (id in gone <==> id in rows && id !in Purge(rows, group, cutoff, files, dryRun)))
            && (dryRun ==> (id in gone <==> id in due && files(id) != NotLocal) && Purge(rows, group, cutoff, files, dryRun) == rows)
  {
  }

  /** The descendants are all rows of the group that link to the artifact, by either link, whatever the
      other one is; and each step of the ancestry follows the parent where there is one. */
  lemma LineageByBothLinks(rows: Rows, id: string, group: int)
    requires InGroup(rows, id, group) && id != ""
    ensures forall d :: d in Descendants(rows, id, group) <==> Links(rows, d, id) && rows[d].group == group
    ensures var walk := Visited(id, Ancestors(rows, id, group));
            forall i :: 0 <= i < |walk| - 1 ==>
              && walk[i] in rows && Links(rows, walk[i], walk[i + 1])
              && (rows[walk[i]].parent != "" ==> walk[i + 1] == rows[walk[i]].parent)
  {
    hide Ancestors;
    LineageFollowsLinks(rows, id, group);
  }
}
