// backend/executors/tool_executor.py: plugin registrations, their undo, and once-hooks.
module Plugins {
  import opened Wrappers

  /** The identities of a tool definition, a handler, a hook function and a middleware. */
  type Def = nat
  type Handler = nat
  type Function = nat
  type Middleware = nat

  datatype Hook = Hook(fn: Function, condition: Option<string>, once: bool)

  datatype State = State(registry: map<string, Def>, handlers: map<Def, Handler>,
                         before: seq<Hook>, after: seq<Hook>, middlewares: seq<Middleware>)

  datatype Registration =
    | Tool(name: string, def: Def, handler: Handler)
    | BeforeHook(hook: Hook)
    | AfterHook(hook: Hook)
    | AddMiddleware(middleware: Middleware)

  /** What a disposer is given to run. */
  datatype Cleanup =
    | RestoreTool(name: string, def: Def, previous: Option<Def>)
    | RemoveBefore(hook: Hook)
    | RemoveAfter(hook: Hook)
    | RemoveMiddleware(middleware: Middleware)

  function Lookup(registry: map<string, Def>, name: string): Option<Def> {
    if name in registry then Some(registry[name]) else None
  }

  /** `list.remove`: drops the first equal element, if any. */
  function RemoveFirst<T(==)>(xs: seq<T>, x: T): seq<T> {
    if xs == [] then [] else if xs[0] == x then xs[1..] else [xs[0]] + RemoveFirst(xs[1..], x)
  }

  /** A hook is known by its function and condition. */
  predicate Known(hooks: seq<Hook>, h: Hook) {
    exists i :: 0 <= i < |hooks| && hooks[i].fn == h.fn && hooks[i].condition == h.condition
  }

  function Registered(s: State, r: Registration): State {
    match r
    case Tool(name, def, handler) => s.(registry := s.registry[name := def], handlers := s.handlers[def := handler])
    case BeforeHook(h) => if Known(s.before, h) then s else s.(before := s.before + [h])
    case AfterHook(h) => if Known(s.after, h) then s else s.(after := s.after + [h])
    case AddMiddleware(m) => if m in s.middlewares then s else s.(middlewares := s.middlewares + [m])
  }

  /** The cleanups handed to the active disposer: none when the registration changed nothing. */
  function CleanupOf(s: State, r: Registration): seq<Cleanup> {
    match r
    case Tool(name, def, _) => [RestoreTool(name, def, Lookup(s.registry, name))]
    case BeforeHook(h) => if Known(s.before, h) then [] else [RemoveBefore(h)]
    case AfterHook(h) => if Known(s.after, h) then [] else [RemoveAfter(h)]
    case AddMiddleware(m) => if m in s.middlewares then [] else [RemoveMiddleware(m)]
  }

  function Undone(s: State, c: Cleanup): State {
    match c
    case RestoreTool(name, def, previous) =>
      if Lookup(s.registry, name) != Some(def) then s
      else s.(registry := if previous.None? then s.registry - {name} else s.registry[name := previous.value])
    case RemoveBefore(h) => s.(before := RemoveFirst(s.before, h))
    case RemoveAfter(h) => s.(after := RemoveFirst(s.after, h))
    case RemoveMiddleware(m) => s.(middlewares := RemoveFirst(s.middlewares, m))
  }

  function UndoAll(s: State, cs: seq<Cleanup>): State
    decreases cs
  {
    if cs == [] then s else UndoAll(Undone(s, cs[0]), cs[1..])
  }

  function Reverse<T>(xs: seq<T>): (r: seq<T>)
    ensures |r| == |xs|
  {
    if xs == [] then [] else Reverse(xs[1..]) + [xs[0]]
  }

  /** The state and all cleanups after a sequence of registrations. */
  function Loaded(s: State, rs: seq<Registration>): (State, seq<Cleanup>) {
    if rs == [] then (s, [])
    else
      var (mid, cs) := Loaded(s, rs[..|rs| - 1]);
      var r := rs[|rs| - 1];
      (Registered(mid, r), cs + CleanupOf(mid, r))
  }

  // ---------------------------------------------------------------- the executor and its disposers

  class ToolExecutor {
    var registry: map<string, Def>
    var handlers: map<Def, Handler>
    var before: seq<Hook>
    var after: seq<Hook>
    var middlewares: seq<Middleware>

    function View(): State reads this { State(registry, handlers, before, after, middlewares) }

    /** The undo goes to the active disposer, which runs it at once when it has been disposed already. */
    method Register(r: Registration, active: Disposer?)
      modifies this, active
      ensures active == null || !old(active.disposed) ==> View() == Registered(old(View()), r)
      ensures active != null && old(active.disposed) ==>
                View() == UndoAll(Registered(old(View()), r), CleanupOf(old(View()), r))
      ensures active != null ==>
                && active.disposed == old(active.disposed)
                && active.cleanups == old(active.cleanups) + if active.disposed then [] else CleanupOf(old(View()), r)
    {
      var cleanups: seq<Cleanup> := [];
      match r {
        case Tool(name, def, handler) =>
          var previous := Lookup(registry, name);
          handlers := handlers[def := handler];
          registry := registry[name := def];
          cleanups := [RestoreTool(name, def, previous)];
        case BeforeHook(h) =>
          if !Known(before, h) {
            before := before + [h];
            cleanups := [RemoveBefore(h)];
          }
        case AfterHook(h) =>
          if !Known(after, h) {
            after := after + [h];
            cleanups := [RemoveAfter(h)];
          }
        case AddMiddleware(m) =>
          if m !in middlewares {
            middlewares := middlewares + [m];
            cleanups := [RemoveMiddleware(m)];
          }
      }
      if active != null && cleanups != [] {
        active.Add(this, cleanups[0]);
      }
    }

    method RunCleanup(c: Cleanup)
      modifies this
      ensures View() == Undone(old(View()), c)
    {
      match c {
        case RestoreTool(name, def, previous) =>
          if Lookup(registry, name) == Some(def) {
            if previous.None? {
              registry := registry - {name};
            } else {
              registry := registry[name := previous.value];
            }
          }
        case RemoveBefore(h) => before := RemoveFirst(before, h);
        case RemoveAfter(h) => after := RemoveFirst(after, h);
        case RemoveMiddleware(m) => middlewares := RemoveFirst(middlewares, m);
      }
    }
  }

  class Disposer {
    var cleanups: seq<Cleanup>
    var disposed: bool

    constructor ()
      ensures cleanups == [] && !disposed
    {
      cleanups, disposed := [], false;
    }

    /** Cleanups run at once when the disposer has already been disposed. */
    method Add(executor: ToolExecutor, c: Cleanup)
      modifies this, executor
      ensures disposed == old(disposed)
      ensures old(disposed) ==> executor.View() == Undone(old(executor.View()), c) && cleanups == old(cleanups)
      ensures !old(disposed) ==> executor.View() == old(executor.View()) && cleanups == old(cleanups) + [c]
    {
      if disposed {
        executor.RunCleanup(c);
        return;
      }
      cleanups := cleanups + [c];
    }

    /** Runs the cleanups newest first; a second call does nothing. */
    method Dispose(executor: ToolExecutor)
      modifies this, executor
      ensures disposed
      ensures old(disposed) ==> executor.View() == old(executor.View()) && cleanups == old(cleanups)
      ensures !old(disposed) ==>
                executor.View() == UndoAll(old(executor.View()), Reverse(old(cleanups))) && cleanups == []
    {
      if disposed {
        return;
      }
      disposed := true;
      var k := |cleanups|;
      assert cleanups[..k] == cleanups;
      ghost var rest := Reverse(cleanups);
      while k > 0
        invariant 0 <= k <= |cleanups| && disposed && cleanups == old(cleanups)
        invariant rest == Reverse(cleanups[..k])
        invariant UndoAll(executor.View(), rest) == UndoAll(old(executor.View()), Reverse(old(cleanups)))
      {
        k := k - 1;
        ReverseSnoc(cleanups[..k], cleanups[k]);
        assert cleanups[..k + 1] == cleanups[..k] + [cleanups[k]];
        executor.RunCleanup(cleanups[k]);
        rest := rest[1..];
      }
      cleanups := [];
    }
  }

  lemma {:induction false} ReverseSnoc<T>(xs: seq<T>, x: T)
    ensures Reverse(xs + [x]) == [x] + Reverse(xs)
  {
    if xs != [] {
      ReverseSnoc(xs[1..], x);
      assert (xs + [x])[1..] == xs[1..] + [x];
    }
  }

  lemma {:induction false} ReverseConcat<T>(a: seq<T>, b: seq<T>)
    ensures Reverse(a + b) == Reverse(b) + Reverse(a)
  {
    if a == [] {
      assert a + b == b;
    } else {
      ReverseConcat(a[1..], b);
      assert (a + b)[1..] == a[1..] + b;
    }
  }

  lemma {:induction false} ReverseBag<T>(xs: seq<T>)
    ensures multiset(Reverse(xs)) == multiset(xs)
  {
    if xs != [] {
      ReverseBag(xs[1..]);
      assert xs == [xs[0]] + xs[1..];
    }
  }

  // ---------------------------------------------------------------- picking out one kind of cleanup

  /** What `pick` finds in each cleanup, in order. */
  function Collect<T>(cs: seq<Cleanup>, pick: Cleanup -> Option<T>): seq<T> {
    if cs == [] then []
    else
      match pick(cs[0])
      case None => Collect(cs[1..], pick)
      case Some(x) => [x] + Collect(cs[1..], pick)
  }

  function Picked<T>(c: Cleanup, pick: Cleanup -> Option<T>): seq<T> {
    match pick(c) case None => [] case Some(x) => [x]
  }

  lemma CollectStep<T>(c: Cleanup, rest: seq<Cleanup>, pick: Cleanup -> Option<T>)
    ensures Collect([c] + rest, pick) == Picked(c, pick) + Collect(rest, pick)
  {
    assert ([c] + rest)[1..] == rest;
  }

  lemma Associates<T>(a: seq<T>, b: seq<T>, c: seq<T>)
    ensures (a + b) + c == a + (b + c)
  {
  }

  lemma {:induction false} CollectConcat<T>(a: seq<Cleanup>, b: seq<Cleanup>, pick: Cleanup -> Option<T>)
    ensures Collect(a + b, pick) == Collect(a, pick) + Collect(b, pick)
  {
    if a == [] {
      assert a + b == b;
    } else {
      hide Collect, Picked;
      CollectConcat(a[1..], b, pick);
      CollectStep(a[0], a[1..], pick);
      CollectStep(a[0], a[1..] + b, pick);
      assert a == [a[0]] + a[1..];
      Associates([a[0]], a[1..], b);
      Associates(Picked(a[0], pick), Collect(a[1..], pick), Collect(b, pick));
    }
  }

  lemma CollectOne<T>(c: Cleanup, pick: Cleanup -> Option<T>)
    ensures Collect([c], pick) == Picked(c, pick)
  {
    assert [c][1..] == [];
  }

  lemma ReverseShort<T>(xs: seq<T>)
    requires |xs| <= 1
    ensures Reverse(xs) == xs
  {
  }

  /** Collecting from the same cleanups in another order collects the same things. */
  lemma {:induction false} CollectBag<T>(a: seq<Cleanup>, b: seq<Cleanup>, pick: Cleanup -> Option<T>)
    requires multiset(a) == multiset(b)
    ensures multiset(Collect(a, pick)) == multiset(Collect(b, pick))
    decreases |a|
  {
    hide Collect, Picked;
    assert |multiset(a)| == |a| && |multiset(b)| == |b|;
    if a == [] {
      assert b == [];
    } else {
      var k := Found(a[0], b);
      BagDrop(a, b, k);
      CollectBag(a[1..], b[..k] + b[k + 1..], pick);
      CollectAt(a, 0, pick);
      CollectAt(b, k, pick);
      assert a[..0] + a[1..] == a[1..];
    }
  }

  lemma Found<T>(x: T, b: seq<T>) returns (k: nat)
    requires x in multiset(b)
    ensures k < |b| && b[k] == x
  {
    k :| k < |b| && b[k] == x;
  }

  lemma BagDrop<T>(a: seq<T>, b: seq<T>, k: nat)
    requires a != [] && k < |b| && b[k] == a[0] && multiset(a) == multiset(b)
    ensures multiset(a[1..]) == multiset(b[..k] + b[k + 1..])
  {
    var x, rest := a[0], b[..k] + b[k + 1..];
    assert a == [x] + a[1..];
    assert b == b[..k] + [x] + b[k + 1..];
    assert multiset(a) == multiset{x} + multiset(a[1..]);
    assert multiset(b) == multiset(b[..k]) + multiset{x} + multiset(b[k + 1..]);
    assert multiset(a[1..]) == multiset(a) - multiset{x};
    assert multiset(rest) == multiset(b) - multiset{x};
  }

  lemma CollectAt<T>(cs: seq<Cleanup>, k: nat, pick: Cleanup -> Option<T>)
    requires k < |cs|
    ensures multiset(Collect(cs, pick)) == multiset(Picked(cs[k], pick)) + multiset(Collect(cs[..k] + cs[k + 1..], pick))
  {
    hide Collect, Picked;
    var left, right := cs[..k], cs[k + 1..];
    assert cs == left + ([cs[k]] + right);
    CollectConcat(left, right, pick);
    CollectConcat(left, [cs[k]] + right, pick);
    CollectStep(cs[k], right, pick);
  }

  // ---------------------------------------------------------------- one registry entry

  /** A restore seen from one name: it turns entry `from` back into entry `to`. */
  datatype Link = Link(from: Option<Def>, to: Option<Def>)

  function LinkFor(c: Cleanup, t: string): Option<Link> {
    if c.RestoreTool? && c.name == t then Some(Link(Some(c.def), c.previous)) else None
  }

  /** The restores of tool `t`, in order. */
  function For(cs: seq<Cleanup>, t: string): seq<Link> { Collect(cs, (c: Cleanup) => LinkFor(c, t)) }

  /** What running restores does to an entry: each acts only on the entry it put in place. */
  function UndoCell(v: Option<Def>, us: seq<Link>): Option<Def>
    decreases us
  {
    if us == [] then v else UndoCell(if v == us[0].from then us[0].to else v, us[1..])
  }

  lemma {:induction false} UndoAllCell(s: State, us: seq<Cleanup>, t: string)
    ensures Lookup(UndoAll(s, us).registry, t) == UndoCell(Lookup(s.registry, t), For(us, t))
    decreases |us|
  {
    if us != [] {
      UndoAllCell(Undone(s, us[0]), us[1..], t);
      UndoOneCell(s, us[0], t);
      var link := LinkFor(us[0], t);
      if link.Some? {
        assert For(us, t) == [link.value] + For(us[1..], t);
      } else {
        assert For(us, t) == For(us[1..], t);
      }
    }
  }

  lemma UndoOneCell(s: State, c: Cleanup, t: string)
    ensures Lookup(Undone(s, c).registry, t)
            == var link := LinkFor(c, t); var v := Lookup(s.registry, t);
               if link.Some? && v == link.value.from then link.value.to else v
  {
  }

  predicate AllDifferent<T(==)>(xs: seq<T>) {
    forall i, j :: 0 <= i < j < |xs| ==> xs[i] != xs[j]
  }

  /** The links that lead from the `l`-th value of a history back to its first, newest first. */
  function Back(vs: seq<Option<Def>>, l: nat): (r: seq<Link>)
    requires l < |vs|
    ensures |r| == l
  {
    if l == 0 then [] else [Link(vs[l], vs[l - 1])] + Back(vs, l - 1)
  }

  /** The link is one step of the history. */
  predicate StepOf(vs: seq<Option<Def>>, u: Link) {
    exists i :: 0 < i < |vs| && u == Link(vs[i], vs[i - 1])
  }

  /** From value `l`, at most `l` links lead back to the first value only when they are exactly the way
      back, newest first: each link moves one step, and only from the value it starts at. */
  lemma {:induction false} CellBackIff(vs: seq<Option<Def>>, l: nat, us: seq<Link>)
    requires AllDifferent(vs) && l < |vs| && |us| <= l
    requires forall i :: 0 <= i < |us| ==> StepOf(vs, us[i])
    ensures UndoCell(vs[l], us) == vs[0] <==> us == Back(vs, l)
    decreases |us|
  {
    if us != [] {
      assert StepOf(vs, us[0]);
      var i :| 0 < i < |vs| && us[0] == Link(vs[i], vs[i - 1]);
      assert us == [us[0]] + us[1..];
      assert forall k :: 0 <= k < |us[1..]| ==> us[1..][k] == us[k + 1];
      BackStep(vs, l);
      CellStep(vs[l], us);
      hide UndoCell, Back, StepOf;
      if i == l {
        CellBackIff(vs, l - 1, us[1..]);
        assert us == Back(vs, l) <==> us[1..] == Back(vs, l - 1);
      } else {
        assert vs[i] != vs[l];
        CellStuck(vs, l, us[1..]);
        assert Back(vs, l)[0].from != us[0].from;
      }
    }
  }

  lemma CellStep(v: Option<Def>, us: seq<Link>)
    requires us != []
    ensures UndoCell(v, us) == UndoCell(if v == us[0].from then us[0].to else v, us[1..])
  {
  }

  lemma {:induction false} CellStuck(vs: seq<Option<Def>>, l: nat, us: seq<Link>)
    requires AllDifferent(vs) && |us| < l < |vs|
    requires forall i :: 0 <= i < |us| ==> StepOf(vs, us[i])
    ensures UndoCell(vs[l], us) != vs[0]
    decreases |us|
  {
    if us != [] {
      assert StepOf(vs, us[0]);
      var i :| 0 < i < |vs| && us[0] == Link(vs[i], vs[i - 1]);
      assert forall k :: 0 <= k < |us[1..]| ==> us[1..][k] == us[k + 1];
      CellStuck(vs, if i == l then l - 1 else l, us[1..]);
    }
  }

  // ---------------------------------------------------------------- what loading leaves behind

  /** Tool definitions are new objects: distinct, and not registered before. */
  predicate Fresh(s: State, rs: seq<Registration>) {
    && (forall i :: 0 <= i < |rs| && rs[i].Tool? ==> forall n :: n in s.registry ==> s.registry[n] != rs[i].def)
    && (forall i, j :: 0 <= i < j < |rs| && rs[i].Tool? && rs[j].Tool? ==> rs[i].def != rs[j].def)
  }

  /** The successive entries for tool `t`. */
  function History(s: State, rs: seq<Registration>, t: string): (vs: seq<Option<Def>>)
    ensures vs != [] && vs[0] == Lookup(s.registry, t)
  {
    if rs == [] then [Lookup(s.registry, t)]
    else
      var r, vs := rs[|rs| - 1], History(s, rs[..|rs| - 1], t);
      if r.Tool? && r.name == t then vs + [Some(r.def)] else vs
  }

  lemma {:induction false} HistoryFrom(s: State, rs: seq<Registration>, t: string, i: nat)
    requires 0 < i < |History(s, rs, t)|
    ensures exists k :: 0 <= k < |rs| && rs[k].Tool? && History(s, rs, t)[i] == Some(rs[k].def)
  {
    var n := |rs| - 1;
    var vs := History(s, rs[..n], t);
    if i < |vs| {
      HistoryFrom(s, rs[..n], t, i);
      var k :| 0 <= k < n && rs[..n][k].Tool? && vs[i] == Some(rs[..n][k].def);
      assert rs[k] == rs[..n][k];
    } else {
      assert rs[n].Tool?;
    }
  }

  lemma FreshPrefix(s: State, rs: seq<Registration>, n: nat)
    requires n <= |rs| && Fresh(s, rs)
    ensures Fresh(s, rs[..n])
  {
  }

  lemma {:induction false} HistoryDiffers(s: State, rs: seq<Registration>, t: string)
    requires Fresh(s, rs)
    ensures AllDifferent(History(s, rs, t))
  {
    if rs != [] {
      var n := |rs| - 1;
      FreshPrefix(s, rs, n);
      HistoryDiffers(s, rs[..n], t);
      var vs := History(s, rs[..n], t);
      if rs[n].Tool? {
        forall i | 0 <= i < |vs| ensures vs[i] != Some(rs[n].def) {
          if i > 0 {
            HistoryFrom(s, rs[..n], t, i);
            var k :| 0 <= k < n && rs[..n][k].Tool? && vs[i] == Some(rs[..n][k].def);
            assert rs[k] == rs[..n][k];
          }
        }
      }
    }
  }

  lemma {:induction false} BackPrefix(vs: seq<Option<Def>>, v: Option<Def>, l: nat)
    requires l < |vs|
    ensures Back(vs + [v], l) == Back(vs, l)
  {
    if l > 0 {
      BackPrefix(vs, v, l - 1);
    }
  }

  /** One registration moves the entry one step along its history, and its restore leads one step back. */
  lemma RegisteredHistory(s: State, r: Registration, t: string)
    ensures var added := For(CleanupOf(s, r), t);
            if r.Tool? && r.name == t
            then added == [Link(Some(r.def), Lookup(s.registry, t))] && Lookup(Registered(s, r).registry, t) == Some(r.def)
            else added == [] && Lookup(Registered(s, r).registry, t) == Lookup(s.registry, t)
  {
    hide For, Known;
    ForNone(t);
    var cs := CleanupOf(s, r);
    if cs != [] {
      assert cs == [cs[0]];
      ForOne(cs[0], t);
    }
  }

  lemma LoadedSnoc(s: State, rs: seq<Registration>, t: string)
    requires rs != []
    ensures var r, (mid, cs), vs := rs[|rs| - 1], Loaded(s, rs[..|rs| - 1]), History(s, rs[..|rs| - 1], t);
            && Loaded(s, rs) == (Registered(mid, r), cs + CleanupOf(mid, r))
            && History(s, rs, t) == if r.Tool? && r.name == t then vs + [Some(r.def)] else vs
  {
    hide Registered, CleanupOf;
  }

  /** One more step of a history, and the way back from it. */
  lemma BackSnoc(vs: seq<Option<Def>>, d: Def, mine: seq<Link>, added: seq<Link>)
    requires vs != [] && Reverse(mine) == Back(vs, |vs| - 1) && added == [Link(Some(d), vs[|vs| - 1])]
    ensures Reverse(mine + added) == Back(vs + [Some(d)], |vs|)
  {
    hide Back, Reverse;
    ReverseConcat(mine, added);
    ReverseShort(added);
    BackPrefix(vs, Some(d), |vs| - 1);
    BackStep(vs + [Some(d)], |vs|);
  }

  /** The entry of `t` is the last of its history `vs`, and its restores, newest first, lead back. */
  ghost predicate LeadsBack(entry: Option<Def>, restores: seq<Link>, vs: seq<Option<Def>>) {
    vs != [] && entry == vs[|vs| - 1] && Reverse(restores) == Back(vs, |vs| - 1)
  }

  lemma HistoryStarts(s: State, t: string)
    ensures LeadsBack(Lookup(Loaded(s, []).0.registry, t), For(Loaded(s, []).1, t), History(s, [], t))
  {
    ForNone(t);
    ReverseShort<Link>([]);
  }

  lemma HistoryGoesOn(s: State, cs: seq<Cleanup>, r: Registration, vs: seq<Option<Def>>, t: string)
    requires LeadsBack(Lookup(s.registry, t), For(cs, t), vs)
    ensures LeadsBack(Lookup(Registered(s, r).registry, t), For(cs + CleanupOf(s, r), t),
                      if r.Tool? && r.name == t then vs + [Some(r.def)] else vs)
  {
    hide For, CleanupOf, Registered, Lookup, Back, Reverse;
    var mine, added := For(cs, t), For(CleanupOf(s, r), t);
    ForConcat(cs, CleanupOf(s, r), t);
    RegisteredHistory(s, r, t);
    if r.Tool? && r.name == t {
      BackSnoc(vs, r.def, mine, added);
    } else {
      assert mine + [] == mine;
    }
  }

  /** After loading, the entry is the last of its history, and the restores, newest first, lead back. */
  lemma {:induction false} LoadedHistory(s: State, rs: seq<Registration>, t: string)
    ensures LeadsBack(Lookup(Loaded(s, rs).0.registry, t), For(Loaded(s, rs).1, t), History(s, rs, t))
  {
    hide LeadsBack, For, CleanupOf, Registered, Lookup, Loaded, History;
    if rs == [] {
      HistoryStarts(s, t);
    } else {
      var n := |rs| - 1;
      LoadedHistory(s, rs[..n], t);
      LoadedSnoc(s, rs, t);
      var (mid, cs) := Loaded(s, rs[..n]);
      HistoryGoesOn(mid, cs, rs[n], History(s, rs[..n], t), t);
    }
  }

  lemma BackStep(vs: seq<Option<Def>>, l: nat)
    requires 0 < l < |vs|
    ensures Back(vs, l) == [Link(vs[l], vs[l - 1])] + Back(vs, l - 1)
  {
  }

  lemma ForConcat(a: seq<Cleanup>, b: seq<Cleanup>, t: string)
    ensures For(a + b, t) == For(a, t) + For(b, t)
  {
    CollectConcat(a, b, (c: Cleanup) => LinkFor(c, t));
  }

  lemma ForOne(c: Cleanup, t: string)
    ensures For([c], t) == match LinkFor(c, t) case None => [] case Some(link) => [link]
  {
    CollectOne(c, (c: Cleanup) => LinkFor(c, t));
  }

  lemma ForNone(t: string)
    ensures For([], t) == []
  {
  }

  lemma ForBag(a: seq<Cleanup>, b: seq<Cleanup>, t: string)
    requires multiset(a) == multiset(b)
    ensures multiset(For(a, t)) == multiset(For(b, t)) && |For(a, t)| == |For(b, t)|
  {
    CollectBag(a, b, (c: Cleanup) => LinkFor(c, t));
    assert |multiset(For(a, t))| == |For(a, t)| && |multiset(For(b, t))| == |For(b, t)|;
  }

  lemma {:induction false} BackSteps(vs: seq<Option<Def>>, l: nat, u: Link)
    requires l < |vs| && u in Back(vs, l)
    ensures StepOf(vs, u)
  {
    if u != Link(vs[l], vs[l - 1]) {
      BackSteps(vs, l - 1, u);
    }
  }

  /** The entry of one name is restored exactly when its restores run newest first. */
  lemma NameRestoredIff(s: State, rs: seq<Registration>, us: seq<Cleanup>, t: string)
    requires Fresh(s, rs) && multiset(us) == multiset(Loaded(s, rs).1)
    ensures Lookup(UndoAll(Loaded(s, rs).0, us).registry, t) == Lookup(s.registry, t)
            <==> For(us, t) == Reverse(For(Loaded(s, rs).1, t))
  {
    hide Loaded, UndoAll, For, UndoCell, Reverse, Fresh, History, Back;
    var (top, cs) := Loaded(s, rs);
    var vs := History(s, rs, t);
    UndoAllCell(top, us, t);
    LoadedHistory(s, rs, t);
    HistoryDiffers(s, rs, t);
    ForBag(us, cs, t);
    ReverseBag(For(cs, t));
    forall i | 0 <= i < |For(us, t)| ensures StepOf(vs, For(us, t)[i]) {
      assert For(us, t)[i] in multiset(Back(vs, |vs| - 1));
      BackSteps(vs, |vs| - 1, For(us, t)[i]);
    }
    CellBackIff(vs, |vs| - 1, For(us, t));
  }

  // ---------------------------------------------------------------- hook and middleware lists

  function PickBefore(c: Cleanup): Option<Hook> { if c.RemoveBefore? then Some(c.hook) else None }

  function PickAfter(c: Cleanup): Option<Hook> { if c.RemoveAfter? then Some(c.hook) else None }

  function PickMiddleware(c: Cleanup): Option<Middleware> { if c.RemoveMiddleware? then Some(c.middleware) else None }

  function RemoveEach<T(==)>(xs: seq<T>, us: seq<T>): seq<T>
    decreases us
  {
    if us == [] then xs else RemoveEach(RemoveFirst(xs, us[0]), us[1..])
  }

  lemma UndoStep(s: State, us: seq<Cleanup>)
    requires us != []
    ensures UndoAll(s, us) == UndoAll(Undone(s, us[0]), us[1..])
  {
  }

  lemma RemoveHead<T>(xs: seq<T>, us: seq<Cleanup>, pick: Cleanup -> Option<T>)
    requires us != []
    ensures RemoveEach(xs, Collect(us, pick))
            == match pick(us[0])
               case None => RemoveEach(xs, Collect(us[1..], pick))
               case Some(x) => RemoveEach(RemoveFirst(xs, x), Collect(us[1..], pick))
  {
    hide RemoveFirst;
    if pick(us[0]).Some? {
      assert Collect(us, pick)[1..] == Collect(us[1..], pick);
    }
  }

  lemma {:induction false} UndoAllLists(s: State, us: seq<Cleanup>)
    ensures var s' := UndoAll(s, us);
            && s'.before == RemoveEach(s.before, Collect(us, PickBefore))
            && s'.after == RemoveEach(s.after, Collect(us, PickAfter))
            && s'.middlewares == RemoveEach(s.middlewares, Collect(us, PickMiddleware))
    decreases |us|
  {
    hide RemoveFirst, Lookup;
    if us != [] {
      UndoAllLists(Undone(s, us[0]), us[1..]);
      RemoveHead(s.before, us, PickBefore);
      RemoveHead(s.after, us, PickAfter);
      RemoveHead(s.middlewares, us, PickMiddleware);
      hide Collect, RemoveEach, UndoAll;
      assert UndoAll(s, us) == UndoAll(Undone(s, us[0]), us[1..]) by { UndoStep(s, us); }
    }
  }

  lemma {:induction false} RemoveBehind<T>(base: seq<T>, xs: seq<T>, x: T)
    requires x !in base
    ensures RemoveFirst(base + xs, x) == base + RemoveFirst(xs, x)
  {
    if base == [] {
      assert base + xs == xs && base + RemoveFirst(xs, x) == RemoveFirst(xs, x);
    } else {
      RemoveBehind(base[1..], xs, x);
      assert (base + xs)[1..] == base[1..] + xs;
    }
  }

  lemma {:induction false} RemoveFirstBag<T>(xs: seq<T>, x: T)
    requires x in xs
    ensures multiset(RemoveFirst(xs, x)) == multiset(xs) - multiset{x}
  {
    assert xs == [xs[0]] + xs[1..];
    if xs[0] != x {
      RemoveFirstBag(xs[1..], x);
    }
  }

  /** Removing exactly the appended elements, in any order, gives the list back. */
  lemma {:induction false} RemoveAppended<T>(base: seq<T>, xs: seq<T>, us: seq<T>)
    requires multiset(xs) == multiset(us) && forall x :: x in xs ==> x !in base
    ensures RemoveEach(base + xs, us) == base
    decreases |us|
  {
    if us == [] {
      assert |multiset(xs)| == |xs|;
      assert base + xs == base;
    } else {
      var u := us[0];
      assert us == [u] + us[1..];
      assert u in multiset(xs);
      RemoveBehind(base, xs, u);
      RemoveFirstBag(xs, u);
      var rest := RemoveFirst(xs, u);
      assert multiset(rest) == multiset(us[1..]);
      forall x | x in rest ensures x !in base {
        assert x in multiset(rest);
        assert x in multiset(xs);
      }
      RemoveAppended(base, rest, us[1..]);
    }
  }

  /** `xs` is `base` with new elements appended. */
  ghost predicate Extends<T>(base: seq<T>, added: seq<T>, xs: seq<T>) {
    xs == base + added && forall x :: x in added ==> x !in base
  }

  lemma RegisteredLists(s: State, r: Registration)
    ensures var (s', cs) := (Registered(s, r), CleanupOf(s, r));
            && Extends(s.before, Collect(cs, PickBefore), s'.before)
            && Extends(s.after, Collect(cs, PickAfter), s'.after)
            && Extends(s.middlewares, Collect(cs, PickMiddleware), s'.middlewares)
  {
    hide Known;
    CollectNone();
    UnknownIsAbsent(s.before);
    UnknownIsAbsent(s.after);
    var cs := CleanupOf(s, r);
    if cs != [] {
      assert cs == [cs[0]];
      CollectOne(cs[0], PickBefore);
      CollectOne(cs[0], PickAfter);
      CollectOne(cs[0], PickMiddleware);
    }
    hide Collect;
  }

  lemma ExtendsTwice<T>(a: seq<T>, x: seq<T>, b: seq<T>, y: seq<T>, c: seq<T>)
    requires Extends(a, x, b) && Extends(b, y, c)
    ensures Extends(a, x + y, c)
  {
  }

  lemma {:induction false} LoadedLists(s: State, rs: seq<Registration>)
    ensures var (s', cs) := Loaded(s, rs);
            && Extends(s.before, Collect(cs, PickBefore), s'.before)
            && Extends(s.after, Collect(cs, PickAfter), s'.after)
            && Extends(s.middlewares, Collect(cs, PickMiddleware), s'.middlewares)
  {
    hide Collect, Registered, CleanupOf, Extends;
    if rs == [] {
      CollectNone();
      ExtendsNone(s.before);
      ExtendsNone(s.after);
      ExtendsNone(s.middlewares);
    } else {
      var n := |rs| - 1;
      LoadedLists(s, rs[..n]);
      var (mid, cs) := Loaded(s, rs[..n]);
      var added, s' := CleanupOf(mid, rs[n]), Registered(mid, rs[n]);
      RegisteredLists(mid, rs[n]);
      CollectConcat(cs, added, PickBefore);
      CollectConcat(cs, added, PickAfter);
      CollectConcat(cs, added, PickMiddleware);
      ExtendsTwice(s.before, Collect(cs, PickBefore), mid.before, Collect(added, PickBefore), s'.before);
      ExtendsTwice(s.after, Collect(cs, PickAfter), mid.after, Collect(added, PickAfter), s'.after);
      ExtendsTwice(s.middlewares, Collect(cs, PickMiddleware), mid.middlewares, Collect(added, PickMiddleware), s'.middlewares);
    }
  }

  lemma ExtendsNone<T>(xs: seq<T>)
    ensures Extends(xs, [], xs)
  {
  }

  lemma CollectNone()
    ensures Collect([], PickBefore) == [] && Collect([], PickAfter) == [] && Collect([], PickMiddleware) == []
  {
  }

  lemma UnknownIsAbsent(hooks: seq<Hook>)
    ensures forall h :: !Known(hooks, h) ==> h !in hooks
  {
  }

  lemma ListsRestored(s: State, rs: seq<Registration>, us: seq<Cleanup>)
    requires multiset(us) == multiset(Loaded(s, rs).1)
    ensures var s' := UndoAll(Loaded(s, rs).0, us);
            s'.before == s.before && s'.after == s.after && s'.middlewares == s.middlewares
  {
    hide Loaded, UndoAll, Collect, RemoveEach;
    var (top, cs) := Loaded(s, rs);
    LoadedLists(s, rs);
    UndoAllLists(top, us);
    CollectBag(cs, us, PickBefore);
    CollectBag(cs, us, PickAfter);
    CollectBag(cs, us, PickMiddleware);
    RemoveAppended(s.before, Collect(cs, PickBefore), Collect(us, PickBefore));
    RemoveAppended(s.after, Collect(cs, PickAfter), Collect(us, PickAfter));
    RemoveAppended(s.middlewares, Collect(cs, PickMiddleware), Collect(us, PickMiddleware));
  }

  // ---------------------------------------------------------------- when disposing restores everything

  /** The restores of every name run newest first. */
  ghost predicate NewestFirst(cs: seq<Cleanup>, us: seq<Cleanup>) {
    forall t :: For(us, t) == Reverse(For(cs, t))
  }

  /** Running the cleanups of any registrations in any order gives the hook and middleware lists back
      exactly; it gives the registry back exactly when, for each tool name, the restores run newest
      first. */
  lemma DisposeRestoresIff(s: State, rs: seq<Registration>, us: seq<Cleanup>)
    requires Fresh(s, rs) && multiset(us) == multiset(Loaded(s, rs).1)
    ensures var s' := UndoAll(Loaded(s, rs).0, us);
            && s'.before == s.before && s'.after == s.after && s'.middlewares == s.middlewares
            && (s'.registry == s.registry <==> NewestFirst(Loaded(s, rs).1, us))
  {
    hide Loaded, UndoAll, For, Reverse, Fresh;
    var (top, cs) := Loaded(s, rs);
    var s' := UndoAll(top, us);
    ListsRestored(s, rs, us);
    forall t ensures Lookup(s'.registry, t) == Lookup(s.registry, t) <==> For(us, t) == Reverse(For(cs, t)) {
      NameRestoredIff(s, rs, us, t);
    }
    if NewestFirst(cs, us) {
      SameLookups(s'.registry, s.registry);
    } else {
      var t :| For(us, t) != Reverse(For(cs, t));
      assert Lookup(s'.registry, t) != Lookup(s.registry, t);
    }
  }

  lemma SameLookups(a: map<string, Def>, b: map<string, Def>)
    requires forall t :: Lookup(a, t) == Lookup(b, t)
    ensures a == b
  {
    forall t ensures t in a <==> t in b {
      assert Lookup(a, t) == Lookup(b, t);
    }
    forall t | t in a ensures a[t] == b[t] {
      assert Lookup(a, t) == Lookup(b, t);
    }
  }

  // ---------------------------------------------------------------- disposers and what they own

  /** Something handed to a disposer; disposers are numbered. */
  datatype Owned<T> = Owned(owner: nat, what: T)

  function Tagged<T>(d: nat, xs: seq<T>): (r: seq<Owned<T>>)
    ensures |r| == |xs| && forall i :: 0 <= i < |xs| ==> r[i] == Owned(d, xs[i])
  {
    seq(|xs|, i requires 0 <= i < |xs| => Owned(d, xs[i]))
  }

  function Untagged<T>(os: seq<Owned<T>>): (r: seq<T>)
    ensures |r| == |os| && forall i :: 0 <= i < |os| ==> r[i] == os[i].what
  {
    seq(|os|, i requires 0 <= i < |os| => os[i].what)
  }

  /** The state and the cleanups after registrations made while `owners[k]` was the active disposer of
      the `k`-th: scopes may be nested and entered again. */
  function LoadedBy(s: State, rs: seq<Registration>, owners: seq<nat>): (State, seq<Owned<Cleanup>>)
    requires |owners| == |rs|
  {
    if rs == [] then (s, [])
    else
      var n := |rs| - 1;
      var (mid, os) := LoadedBy(s, rs[..n], owners[..n]);
      (Registered(mid, rs[n]), os + Tagged(owners[n], CleanupOf(mid, rs[n])))
  }

  /** What disposer `d` was given, in order. */
  function Under<T>(os: seq<Owned<T>>, d: nat): seq<Owned<T>> {
    if os == [] then []
    else if os[0].owner == d then [os[0]] + Under(os[1..], d) else Under(os[1..], d)
  }

  function Without<T>(os: seq<Owned<T>>, d: nat): seq<Owned<T>> {
    if os == [] then []
    else if os[0].owner == d then Without(os[1..], d) else [os[0]] + Without(os[1..], d)
  }

  /** What runs when the disposers are disposed in this order, each newest first. */
  function Disposal<T>(os: seq<Owned<T>>, order: seq<nat>): seq<Owned<T>> {
    if order == [] then [] else Reverse(Under(os, order[0])) + Disposal(os, order[1..])
  }

  /** The order names every owner, and no disposer twice. */
  predicate DisposesAll<T>(order: seq<nat>, os: seq<Owned<T>>) {
    AllDifferent(order) && forall k :: 0 <= k < |os| ==> os[k].owner in order
  }

  /** When disposer `d` has its turn. */
  function Turn(order: seq<nat>, d: nat): (p: nat)
    requires d in order
    ensures p < |order| && order[p] == d
  {
    if order[0] == d then 0 else 1 + Turn(order[1..], d)
  }

  /** Whatever was added later is disposed no later. */
  predicate NewerFirst<T>(order: seq<nat>, os: seq<Owned<T>>)
    requires DisposesAll(order, os)
  {
    forall i, j :: 0 <= i < j < |os| ==> Turn(order, os[j].owner) <= Turn(order, os[i].owner)
  }

  lemma {:induction false} LoadedByIs(s: State, rs: seq<Registration>, owners: seq<nat>)
    requires |owners| == |rs|
    ensures LoadedBy(s, rs, owners).0 == Loaded(s, rs).0 && Untagged(LoadedBy(s, rs, owners).1) == Loaded(s, rs).1
  {
    hide Registered, CleanupOf;
    if rs != [] {
      LoadedByIs(s, rs[..|rs| - 1], owners[..|rs| - 1]);
    }
  }

  lemma {:induction false} SplitOwner<T>(os: seq<Owned<T>>, d: nat)
    ensures multiset(os) == multiset(Under(os, d)) + multiset(Without(os, d))
    ensures forall x :: x in Under(os, d) ==> x in os && x.owner == d
    ensures forall x :: x in Without(os, d) ==> x in os && x.owner != d
  {
    if os != [] {
      SplitOwner(os[1..], d);
      assert os == [os[0]] + os[1..];
    }
  }

  lemma {:induction false} UnderWithout<T>(os: seq<Owned<T>>, d: nat, e: nat)
    requires d != e
    ensures Under(Without(os, d), e) == Under(os, e)
  {
    if os != [] {
      UnderWithout(os[1..], d, e);
      if os[0].owner != d {
        assert ([os[0]] + Without(os[1..], d))[1..] == Without(os[1..], d);
      }
    }
  }

  lemma {:induction false} DisposalWithout<T>(os: seq<Owned<T>>, d: nat, order: seq<nat>)
    requires d !in order
    ensures Disposal(Without(os, d), order) == Disposal(os, order)
  {
    hide Under, Without, Reverse;
    if order != [] {
      UnderWithout(os, d, order[0]);
      DisposalWithout(os, d, order[1..]);
    }
  }

  lemma OrderTail<T>(os: seq<Owned<T>>, order: seq<nat>)
    requires order != [] && DisposesAll(order, os)
    ensures order[0] !in order[1..] && DisposesAll(order[1..], Without(os, order[0]))
  {
    hide Without;
    var d, rest := order[0], Without(os, order[0]);
    SplitOwner(os, d);
    forall k | 0 <= k < |rest| ensures rest[k].owner in order[1..] {
      assert rest[k] in rest;
    }
  }

  /** Disposing every owner runs every cleanup once. */
  lemma {:induction false} DisposalBag<T>(os: seq<Owned<T>>, order: seq<nat>)
    requires DisposesAll(order, os)
    ensures multiset(Disposal(os, order)) == multiset(os)
    decreases |order|
  {
    hide Under, Without, Reverse, DisposesAll;
    if order == [] {
      if os != [] {
        SomeOwner(os);
      }
    } else {
      var d := order[0];
      OrderTail(os, order);
      DisposalBag(Without(os, d), order[1..]);
      DisposalWithout(os, d, order[1..]);
      SplitOwner(os, d);
      ReverseBag(Under(os, d));
    }
  }

  lemma SomeOwner<T>(os: seq<Owned<T>>)
    requires os != []
    ensures !DisposesAll([], os)
  {
    assert os[0].owner !in [];
  }

  // ---------------------------------------------------------------- the exact order condition

  lemma OwnerStep<T>(x: Owned<T>, rest: seq<Owned<T>>, d: nat)
    ensures Under([x] + rest, d) == (if x.owner == d then [x] else []) + Under(rest, d)
    ensures Without([x] + rest, d) == (if x.owner == d then [] else [x]) + Without(rest, d)
  {
    assert ([x] + rest)[1..] == rest;
  }

  /** From the first thing disposer `d` was given on, it was given everything. */
  predicate OwnsSuffix<T>(os: seq<Owned<T>>, d: nat) {
    forall i, j :: 0 <= i < j < |os| && os[i].owner == d ==> os[j].owner == d
  }

  lemma SuffixTail<T>(x: Owned<T>, rest: seq<Owned<T>>, d: nat)
    requires OwnsSuffix([x] + rest, d)
    ensures OwnsSuffix(rest, d) && (x.owner == d ==> forall k :: 0 <= k < |rest| ==> rest[k].owner == d)
  {
    var os := [x] + rest;
    assert os[0] == x;
    assert forall k :: 0 <= k < |rest| ==> rest[k] == os[k + 1];
  }

  lemma {:induction false} FirstOwnsSuffix<T>(os: seq<Owned<T>>, d: nat)
    requires OwnsSuffix(os, d)
    ensures os == Without(os, d) + Under(os, d)
  {
    if os != [] {
      hide Under, Without, OwnsSuffix;
      var x, rest := os[0], os[1..];
      assert os == [x] + rest;
      OwnerStep(x, rest, d);
      SuffixTail(x, rest, d);
      if x.owner == d {
        AllOwned(rest, d);
        Associates([], [x], rest);
      } else {
        FirstOwnsSuffix(rest, d);
        Associates([x], Without(rest, d), Under(rest, d));
      }
    }
  }

  lemma {:induction false} AllOwned<T>(os: seq<Owned<T>>, d: nat)
    requires forall k :: 0 <= k < |os| ==> os[k].owner == d
    ensures Under(os, d) == os && Without(os, d) == []
  {
    if os != [] {
      AllOwned(os[1..], d);
    }
  }

  lemma TurnTail(order: seq<nat>, d: nat)
    requires d in order
    ensures Turn(order, d) == 0 <==> order[0] == d
    ensures order[0] != d ==> d in order[1..] && Turn(order, d) == 1 + Turn(order[1..], d)
  {
  }

  lemma NewerFirstTail<T>(os: seq<Owned<T>>, order: seq<nat>)
    requires order != [] && DisposesAll(order, os) && NewerFirst(order, os)
    ensures os == Without(os, order[0]) + Under(os, order[0])
    ensures DisposesAll(order[1..], Without(os, order[0])) && NewerFirst(order[1..], Without(os, order[0]))
  {
    hide Without, Under, Turn;
    var d, front := order[0], Without(os, order[0]);
    OrderTail(os, order);
    forall i, j | 0 <= i < j < |os| && os[i].owner == d ensures os[j].owner == d {
      TurnTail(order, os[i].owner);
      TurnTail(order, os[j].owner);
    }
    assert OwnsSuffix(os, d);
    FirstOwnsSuffix(os, d);
    SplitOwner(os, d);
    forall i, j | 0 <= i < j < |front| ensures Turn(order[1..], front[j].owner) <= Turn(order[1..], front[i].owner) {
      assert front[i] in front && front[j] in front && os[i] == front[i] && os[j] == front[j];
      TurnTail(order, os[i].owner);
      TurnTail(order, os[j].owner);
    }
  }

  lemma {:induction false} NewerFirstReverses<T>(os: seq<Owned<T>>, order: seq<nat>)
    requires DisposesAll(order, os) && NewerFirst(order, os)
    ensures Disposal(os, order) == Reverse(os)
    decreases |order|
  {
    hide Under, Without, Reverse, DisposesAll, NewerFirst;
    if order == [] {
      if os != [] {
        SomeOwner(os);
      } else {
        ReverseShort(os);
      }
    } else {
      var d := order[0];
      NewerFirstTail(os, order);
      OrderTail(os, order);
      NewerFirstReverses(Without(os, d), order[1..]);
      DisposalWithout(os, d, order[1..]);
      ReverseConcat(Without(os, d), Under(os, d));
    }
  }

  /** The turns never go back. */
  predicate ByTurn<T>(order: seq<nat>, os: seq<Owned<T>>) {
    && DisposesAll(order, os)
    && forall i, j :: 0 <= i < j < |os| ==> Turn(order, os[i].owner) <= Turn(order, os[j].owner)
  }

  lemma LaterTurns<T>(order: seq<nat>, os: seq<Owned<T>>)
    requires order != [] && AllDifferent(order) && ByTurn(order[1..], os)
    ensures ByTurn(order, os) && forall k :: 0 <= k < |os| ==> os[k].owner != order[0]
  {
    hide Turn;
    forall k | 0 <= k < |os|
      ensures os[k].owner in order && os[k].owner != order[0]
      ensures Turn(order, os[k].owner) == 1 + Turn(order[1..], os[k].owner)
    {
      var d := os[k].owner;
      var q :| 0 <= q < |order[1..]| && order[1..][q] == d;
      assert order[q + 1] == d;
      TurnTail(order, d);
    }
  }

  lemma FirstTurn<T>(order: seq<nat>, head: seq<Owned<T>>, rest: seq<Owned<T>>)
    requires order != [] && ByTurn(order, rest) && forall k :: 0 <= k < |head| ==> head[k].owner == order[0]
    ensures ByTurn(order, head + rest)
  {
    hide Turn;
    TurnTail(order, order[0]);
  }

  lemma {:induction false} DisposalByTurn<T>(os: seq<Owned<T>>, order: seq<nat>)
    requires AllDifferent(order)
    ensures ByTurn(order, Disposal(os, order))
  {
    hide Under, Reverse, Turn, ByTurn;
    if order == [] {
      assert ByTurn(order, Disposal(os, order)) by { NothingByTurn<T>(order); }
    } else {
      var head, rest := Reverse(Under(os, order[0])), Disposal(os, order[1..]);
      DisposalByTurn(os, order[1..]);
      ReverseBag(Under(os, order[0]));
      SplitOwner(os, order[0]);
      forall k | 0 <= k < |head| ensures head[k].owner == order[0] {
        assert head[k] in multiset(head);
      }
      LaterTurns(order, rest);
      FirstTurn(order, head, rest);
    }
  }

  lemma NothingByTurn<T>(order: seq<nat>)
    requires AllDifferent(order)
    ensures ByTurn<T>(order, [])
  {
  }

  /** Disposing runs everything in reverse exactly when whatever was added later is disposed no later. */
  lemma ReversesIff<T>(os: seq<Owned<T>>, order: seq<nat>)
    requires DisposesAll(order, os)
    ensures Disposal(os, order) == Reverse(os) <==> NewerFirst(order, os)
  {
    hide Disposal, Reverse, Turn;
    if NewerFirst(order, os) {
      NewerFirstReverses(os, order);
    }
    if Disposal(os, order) == Reverse(os) {
      DisposalByTurn(os, order);
      forall i, j | 0 <= i < j < |os| ensures Turn(order, os[j].owner) <= Turn(order, os[i].owner) {
        ReverseIndex(os, |os| - 1 - i);
        ReverseIndex(os, |os| - 1 - j);
      }
    }
  }

  // ---------------------------------------------------------------- the restores of one name and their owners

  function OwnedLink(o: Owned<Cleanup>, t: string): seq<Owned<Link>> {
    match LinkFor(o.what, t) case None => [] case Some(link) => [Owned(o.owner, link)]
  }

  function OwnedLinks(os: seq<Owned<Cleanup>>, t: string): seq<Owned<Link>> {
    if os == [] then [] else OwnedLink(os[0], t) + OwnedLinks(os[1..], t)
  }

  lemma LinksStep(o: Owned<Cleanup>, rest: seq<Owned<Cleanup>>, t: string)
    ensures OwnedLinks([o] + rest, t) == OwnedLink(o, t) + OwnedLinks(rest, t)
  {
    assert ([o] + rest)[1..] == rest;
  }

  lemma {:induction false} LinksConcat(a: seq<Owned<Cleanup>>, b: seq<Owned<Cleanup>>, t: string)
    ensures OwnedLinks(a + b, t) == OwnedLinks(a, t) + OwnedLinks(b, t)
  {
    if a == [] {
      assert a + b == b;
    } else {
      hide OwnedLinks, OwnedLink;
      LinksConcat(a[1..], b, t);
      LinksStep(a[0], a[1..], t);
      LinksStep(a[0], a[1..] + b, t);
      assert a == [a[0]] + a[1..];
      Associates([a[0]], a[1..], b);
      Associates(OwnedLink(a[0], t), OwnedLinks(a[1..], t), OwnedLinks(b, t));
    }
  }

  lemma LinksOne(o: Owned<Cleanup>, t: string)
    ensures OwnedLinks([o], t) == OwnedLink(o, t)
  {
    assert [o][1..] == [];
  }

  lemma {:induction false} LinksReverse(os: seq<Owned<Cleanup>>, t: string)
    ensures OwnedLinks(Reverse(os), t) == Reverse(OwnedLinks(os, t))
  {
    if os != [] {
      hide OwnedLinks;
      LinksReverse(os[1..], t);
      LinksConcat(Reverse(os[1..]), [os[0]], t);
      LinksOne(os[0], t);
      LinksStep(os[0], os[1..], t);
      assert os == [os[0]] + os[1..];
      ReverseConcat(OwnedLink(os[0], t), OwnedLinks(os[1..], t));
      ReverseShort(OwnedLink(os[0], t));
    }
  }

  lemma {:induction false} LinksUnder(os: seq<Owned<Cleanup>>, d: nat, t: string)
    ensures OwnedLinks(Under(os, d), t) == Under(OwnedLinks(os, t), d)
  {
    if os != [] {
      hide OwnedLinks, Under;
      var o, rest := os[0], os[1..];
      var head, tail := OwnedLink(o, t), OwnedLinks(rest, t);
      assert os == [o] + rest;
      LinksUnder(rest, d, t);
      OwnerStep(o, rest, d);
      LinksStep(o, rest, t);
      LinksStep(o, Under(rest, d), t);
      if head == [] {
        assert head + tail == tail && head + Under(tail, d) == Under(tail, d);
        assert [] + Under(rest, d) == Under(rest, d);
      } else {
        assert head == [head[0]];
        OwnerStep(head[0], tail, d);
        assert [] + Under(tail, d) == Under(tail, d) && [] + Under(rest, d) == Under(rest, d);
      }
    }
  }

  lemma {:induction false} LinksDisposal(os: seq<Owned<Cleanup>>, order: seq<nat>, t: string)
    ensures OwnedLinks(Disposal(os, order), t) == Disposal(OwnedLinks(os, t), order)
  {
    hide OwnedLinks, Under, Reverse;
    if order == [] {
      LinksNone(t);
    } else {
      LinksDisposal(os, order[1..], t);
      LinksConcat(Reverse(Under(os, order[0])), Disposal(os, order[1..]), t);
      LinksReverse(Under(os, order[0]), t);
      LinksUnder(os, order[0], t);
    }
  }

  lemma LinksNone(t: string)
    ensures OwnedLinks([], t) == []
  {
  }

  lemma LinkUntagged(o: Owned<Cleanup>, t: string)
    ensures For([o.what], t) == Untagged(OwnedLink(o, t))
  {
    hide For;
    ForOne(o.what, t);
  }

  lemma {:induction false} LinksUntagged(os: seq<Owned<Cleanup>>, t: string)
    ensures For(Untagged(os), t) == Untagged(OwnedLinks(os, t))
  {
    if os == [] {
      ForNone(t);
      assert Untagged(os) == [];
    } else {
      hide For, OwnedLink, OwnedLinks;
      var o, rest := os[0], os[1..];
      assert Untagged(os) == [o.what] + Untagged(rest);
      hide Untagged;
      ForConcat([o.what], Untagged(rest), t);
      assert os == [o] + rest;
      LinksStep(o, rest, t);
      UntaggedConcat(OwnedLink(o, t), OwnedLinks(rest, t));
      LinkUntagged(o, t);
      LinksUntagged(rest, t);
    }
  }

  lemma {:induction false} LinkOwned(os: seq<Owned<Cleanup>>, t: string, x: Owned<Link>) returns (k: nat)
    requires x in OwnedLinks(os, t)
    ensures k < |os| && os[k].owner == x.owner
  {
    if x in OwnedLink(os[0], t) {
      k := 0;
    } else {
      var j := LinkOwned(os[1..], t, x);
      k := j + 1;
    }
  }

  /** Equal as what was handed over, equal with the owners too, when nothing was handed over twice. */
  lemma OwnersFollow<T>(a: seq<Owned<T>>, b: seq<Owned<T>>)
    requires Untagged(a) == Untagged(b) && multiset(a) == multiset(b) && AllDifferent(Untagged(a))
    ensures a == b
  {
    forall i | 0 <= i < |a| ensures a[i] == b[i] {
      assert a[i] in multiset(b);
      var j :| 0 <= j < |b| && b[j] == a[i];
      assert Untagged(b)[j] == Untagged(a)[j] && Untagged(a)[i] == a[i].what;
    }
  }

  lemma UntaggedReverse<T>(os: seq<Owned<T>>)
    ensures Untagged(Reverse(os)) == Reverse(Untagged(os))
  {
    hide Reverse;
    forall i | 0 <= i < |os| ensures Untagged(Reverse(os))[i] == Reverse(Untagged(os))[i] {
      ReverseIndex(os, i);
      ReverseIndex(Untagged(os), i);
    }
  }

  lemma {:induction false} ReverseIndex<T>(xs: seq<T>, i: nat)
    requires i < |xs|
    ensures Reverse(xs)[i] == xs[|xs| - 1 - i]
  {
    if i < |xs| - 1 {
      ReverseIndex(xs[1..], i);
    }
  }

  /** For one name, the disposers run its restores newest first exactly when whatever was registered
      later is disposed no later. */
  lemma NameReversesIff(os: seq<Owned<Cleanup>>, order: seq<nat>, t: string)
    requires DisposesAll(order, os) && AllDifferent(For(Untagged(os), t))
    ensures DisposesAll(order, OwnedLinks(os, t))
    ensures For(Untagged(Disposal(os, order)), t) == Reverse(For(Untagged(os), t))
            <==> NewerFirst(order, OwnedLinks(os, t))
  {
    hide Disposal, Reverse, NewerFirst, OwnedLinks, For, AllDifferent;
    var links := OwnedLinks(os, t);
    LinksUntagged(os, t);
    LinksUntagged(Disposal(os, order), t);
    LinksDisposal(os, order, t);
    assert DisposesAll(order, links) by { LinkOwners(os, order, t); }
    ReversesIff(links, order);
    DisposalBag(links, order);
    ReverseBag(links);
    UntaggedReverse(links);
    ReverseDiffers(Untagged(links));
    if Untagged(Disposal(links, order)) == Untagged(Reverse(links)) {
      OwnersFollow(Disposal(links, order), Reverse(links));
    }
  }

  lemma LinkOwners(os: seq<Owned<Cleanup>>, order: seq<nat>, t: string)
    requires DisposesAll(order, os)
    ensures DisposesAll(order, OwnedLinks(os, t))
  {
    hide OwnedLinks;
    var links := OwnedLinks(os, t);
    forall k | 0 <= k < |links| ensures links[k].owner in order {
      var j := LinkOwned(os, t, links[k]);
    }
  }

  lemma ReverseDiffers<T>(xs: seq<T>)
    requires AllDifferent(xs)
    ensures AllDifferent(Reverse(xs))
  {
    hide Reverse;
    forall i, j | 0 <= i < j < |xs| ensures Reverse(xs)[i] != Reverse(xs)[j] {
      ReverseIndex(xs, i);
      ReverseIndex(xs, j);
    }
  }

  lemma {:induction false} BackDiffers(vs: seq<Option<Def>>, l: nat)
    requires AllDifferent(vs) && l < |vs|
    ensures AllDifferent(Back(vs, l))
    ensures forall i :: 0 <= i < l ==> Back(vs, l)[i] == Link(vs[l - i], vs[l - i - 1])
  {
    if l > 0 {
      BackDiffers(vs, l - 1);
    }
  }

  lemma RestoresDiffer(s: State, rs: seq<Registration>, t: string)
    requires Fresh(s, rs)
    ensures AllDifferent(For(Loaded(s, rs).1, t))
  {
    hide Loaded, For, Reverse, Fresh, History, Back;
    var mine, vs := For(Loaded(s, rs).1, t), History(s, rs, t);
    LoadedHistory(s, rs, t);
    HistoryDiffers(s, rs, t);
    BackDiffers(vs, |vs| - 1);
    forall i, j | 0 <= i < j < |mine| ensures mine[i] != mine[j] {
      ReverseIndex(mine, |mine| - 1 - i);
      ReverseIndex(mine, |mine| - 1 - j);
    }
  }

  // ---------------------------------------------------------------- which disposal orders restore the registry

  /** Two registrations of the same tool. */
  predicate SameTool(a: Registration, b: Registration) { a.Tool? && b.Tool? && a.name == b.name }

  /** Of two registrations of tool `t`, the later one's disposer never has its turn after the earlier one's. */
  predicate InTurn(rs: seq<Registration>, owners: seq<nat>, order: seq<nat>, t: string)
    requires |owners| == |rs| && forall k :: 0 <= k < |rs| ==> owners[k] in order
  {
    forall i, j :: 0 <= i < j < |rs| && SameTool(rs[i], rs[j]) && rs[i].name == t
      ==> Turn(order, owners[j]) <= Turn(order, owners[i])
  }

  predicate NewerToolsFirst(rs: seq<Registration>, owners: seq<nat>, order: seq<nat>)
    requires |owners| == |rs| && forall k :: 0 <= k < |rs| ==> owners[k] in order
  {
    forall i, j :: 0 <= i < j < |rs| && SameTool(rs[i], rs[j]) ==> Turn(order, owners[j]) <= Turn(order, owners[i])
  }

  lemma InTurnByName(rs: seq<Registration>, owners: seq<nat>, order: seq<nat>)
    requires |owners| == |rs| && forall k :: 0 <= k < |rs| ==> owners[k] in order
    ensures NewerToolsFirst(rs, owners, order) <==> forall t :: InTurn(rs, owners, order, t)
  {
    hide Turn;
    if forall t :: InTurn(rs, owners, order, t) {
      forall i, j | 0 <= i < j < |rs| && SameTool(rs[i], rs[j]) ensures Turn(order, owners[j]) <= Turn(order, owners[i]) {
        assert InTurn(rs, owners, order, rs[i].name);
      }
    }
  }

  /** `at` lists the registrations of `t` in order, and `links` has their owners. */
  ghost predicate Lists(rs: seq<Registration>, owners: seq<nat>, t: string, links: seq<Owned<Link>>, at: seq<nat>)
    requires |owners| == |rs|
  {
    && |at| == |links|
    && (forall i :: 0 <= i < |at| ==> at[i] < |rs| && rs[at[i]].Tool? && rs[at[i]].name == t && links[i].owner == owners[at[i]])
    && (forall i, j :: 0 <= i < j < |at| ==> at[i] < at[j])
    && (forall k :: 0 <= k < |rs| && rs[k].Tool? && rs[k].name == t ==> k in at)
  }

  lemma ListsOther(rs: seq<Registration>, owners: seq<nat>, t: string, links: seq<Owned<Link>>, at: seq<nat>, r: Registration, d: nat)
    requires |owners| == |rs| && Lists(rs, owners, t, links, at) && !(r.Tool? && r.name == t)
    ensures Lists(rs + [r], owners + [d], t, links, at)
  {
  }

  lemma ListsMore(rs: seq<Registration>, owners: seq<nat>, t: string, links: seq<Owned<Link>>, at: seq<nat>, r: Registration, d: nat, link: Link)
    requires |owners| == |rs| && Lists(rs, owners, t, links, at) && r.Tool? && r.name == t
    ensures Lists(rs + [r], owners + [d], t, links + [Owned(d, link)], at + [|rs|])
  {
    var at' := at + [|rs|];
    assert at'[|at|] == |rs|;
    forall k | 0 <= k < |rs| && rs[k].Tool? && rs[k].name == t ensures k in at' {
      assert k in at;
    }
  }

  lemma LoadedBySnoc(s: State, rs: seq<Registration>, owners: seq<nat>, r: Registration, d: nat)
    requires |owners| == |rs|
    ensures var (mid, os) := LoadedBy(s, rs, owners);
            LoadedBy(s, rs + [r], owners + [d]) == (Registered(mid, r), os + Tagged(d, CleanupOf(mid, r)))
  {
    hide Registered, CleanupOf;
    assert (rs + [r])[..|rs|] == rs && (owners + [d])[..|rs|] == owners;
  }

  lemma {:induction false} LinkOf(s: State, rs: seq<Registration>, owners: seq<nat>, t: string) returns (at: seq<nat>)
    requires |owners| == |rs|
    ensures Lists(rs, owners, t, OwnedLinks(LoadedBy(s, rs, owners).1, t), at)
  {
    at := [];
    if rs == [] {
      LinksNone(t);
    } else {
      hide OwnedLinks, CleanupOf, Registered, Lists, LoadedBy, Tagged;
      var n := |rs| - 1;
      var rs', owners', r, d := rs[..n], owners[..n], rs[n], owners[n];
      assert rs == rs' + [r] && owners == owners' + [d];
      at := LinkOf(s, rs', owners', t);
      var (mid, os) := LoadedBy(s, rs', owners');
      var links := OwnedLinks(os, t);
      LoadedBySnoc(s, rs', owners', r, d);
      LinksConcat(os, Tagged(d, CleanupOf(mid, r)), t);
      AddedLinks(mid, r, d, t);
      if r.Tool? && r.name == t {
        ListsMore(rs', owners', t, links, at, r, d, Link(Some(r.def), Lookup(mid.registry, t)));
        at := at + [n];
      } else {
        ListsOther(rs', owners', t, links, at, r, d);
        assert links + [] == links;
      }
    }
  }

  lemma AddedLinks(s: State, r: Registration, owner: nat, t: string)
    ensures OwnedLinks(Tagged(owner, CleanupOf(s, r)), t)
            == if r.Tool? && r.name == t then [Owned(owner, Link(Some(r.def), Lookup(s.registry, t)))] else []
  {
    hide Known, Lookup;
    var os := Tagged(owner, CleanupOf(s, r));
    if os != [] {
      assert os[1..] == [];
    }
  }

  lemma {:induction false} LoadedOwners(s: State, rs: seq<Registration>, owners: seq<nat>, order: seq<nat>)
    requires |owners| == |rs| && AllDifferent(order) && forall k :: 0 <= k < |rs| ==> owners[k] in order
    ensures DisposesAll(order, LoadedBy(s, rs, owners).1)
  {
    hide CleanupOf, Registered;
    if rs != [] {
      LoadedOwners(s, rs[..|rs| - 1], owners[..|rs| - 1], order);
    }
  }

  lemma NameNewerFirst(s: State, rs: seq<Registration>, owners: seq<nat>, order: seq<nat>, t: string)
    requires |owners| == |rs| && AllDifferent(order) && forall k :: 0 <= k < |rs| ==> owners[k] in order
    requires DisposesAll(order, OwnedLinks(LoadedBy(s, rs, owners).1, t))
    ensures NewerFirst(order, OwnedLinks(LoadedBy(s, rs, owners).1, t)) <==> InTurn(rs, owners, order, t)
  {
    hide OwnedLinks, LoadedBy, Turn, AllDifferent;
    var links := OwnedLinks(LoadedBy(s, rs, owners).1, t);
    var at := LinkOf(s, rs, owners, t);
    if NewerFirst(order, links) {
      forall i, j | 0 <= i < j < |rs| && SameTool(rs[i], rs[j]) && rs[i].name == t
        ensures Turn(order, owners[j]) <= Turn(order, owners[i])
      {
        var p := IndexIn(at, i);
        var q := IndexIn(at, j);
        assert p < q;
        assert links[p].owner == owners[i] && links[q].owner == owners[j];
      }
    }
    if InTurn(rs, owners, order, t) {
      forall p, q | 0 <= p < q < |links| ensures Turn(order, links[q].owner) <= Turn(order, links[p].owner) {
        assert SameTool(rs[at[p]], rs[at[q]]);
      }
    }
  }

  lemma IndexIn(at: seq<nat>, i: nat) returns (p: nat)
    requires i in at
    ensures p < |at| && at[p] == i
  {
    p :| p < |at| && at[p] == i;
  }

  /** For registrations under any scopes, nested and entered again as they please, and any order of
      disposing: hook and middleware lists come back exactly; the registry comes back exactly when, of
      two registrations of a tool, the later one's disposer never has its turn after the earlier one's. */
  lemma DisposersRestoreIff(s: State, rs: seq<Registration>, owners: seq<nat>, order: seq<nat>)
    requires Fresh(s, rs)
    requires |owners| == |rs| && AllDifferent(order) && forall k :: 0 <= k < |rs| ==> owners[k] in order
    ensures var (top, os) := LoadedBy(s, rs, owners);
            var s' := UndoAll(top, Untagged(Disposal(os, order)));
            && s'.before == s.before && s'.after == s.after && s'.middlewares == s.middlewares
            && (s'.registry == s.registry <==> NewerToolsFirst(rs, owners, order))
  {
    hide Loaded, LoadedBy, UndoAll, Fresh, For, Reverse, Disposal, Turn, AllDifferent, OwnedLinks, NewerFirst, InTurn, NewerToolsFirst;
    var (top, os) := LoadedBy(s, rs, owners);
    var cs, us := Loaded(s, rs).1, Untagged(Disposal(os, order));
    LoadedByIs(s, rs, owners);
    LoadedOwners(s, rs, owners, order);
    DisposalBag(os, order);
    UntaggedBag(Disposal(os, order), os);
    DisposeRestoresIff(s, rs, us);
    InTurnByName(rs, owners, order);
    forall t ensures For(us, t) == Reverse(For(cs, t)) <==> InTurn(rs, owners, order, t) {
      RestoresDiffer(s, rs, t);
      NameReversesIff(os, order, t);
      NameNewerFirst(s, rs, owners, order, t);
    }
  }

  lemma UntaggedConcat<T>(a: seq<Owned<T>>, b: seq<Owned<T>>)
    ensures Untagged(a + b) == Untagged(a) + Untagged(b)
  {
  }

  lemma BagMiddle<T>(a: seq<T>, x: T, b: seq<T>)
    ensures multiset(a + ([x] + b)) == multiset{x} + multiset(a + b)
  {
  }

  lemma UntaggedAt<T>(os: seq<Owned<T>>, k: nat)
    requires k < |os|
    ensures multiset(Untagged(os)) == multiset{os[k].what} + multiset(Untagged(os[..k] + os[k + 1..]))
  {
    hide Untagged;
    var a, x, b := os[..k], os[k], os[k + 1..];
    assert os == a + ([x] + b);
    UntaggedConcat(a, [x] + b);
    UntaggedConcat([x], b);
    UntaggedConcat(a, b);
    assert Untagged([x]) == [x.what];
    BagMiddle(Untagged(a), x.what, Untagged(b));
  }

  lemma {:induction false} UntaggedBag<T>(a: seq<Owned<T>>, b: seq<Owned<T>>)
    requires multiset(a) == multiset(b)
    ensures multiset(Untagged(a)) == multiset(Untagged(b))
    decreases |a|
  {
    hide Untagged;
    assert |multiset(a)| == |a| && |multiset(b)| == |b|;
    if a == [] {
      assert b == [];
    } else {
      var k := Found(a[0], b);
      BagDrop(a, b, k);
      UntaggedBag(a[1..], b[..k] + b[k + 1..]);
      UntaggedAt(a, 0);
      UntaggedAt(b, k);
      assert a[..0] + a[1..] == a[1..];
    }
  }

  const OUTER := 0
  const INNER := 1

  /** An inner scope within an outer one that goes on afterwards, the inner disposed first: the registry
      comes back exactly when no tool of the inner scope is registered again by the outer one later. */
  lemma NestedRestoresIff(s: State, rs: seq<Registration>, owners: seq<nat>)
    requires Fresh(s, rs)
    requires |owners| == |rs| && forall k :: 0 <= k < |rs| ==> owners[k] == OUTER || owners[k] == INNER
    ensures var (top, os) := LoadedBy(s, rs, owners);
            UndoAll(top, Untagged(Disposal(os, [INNER, OUTER]))).registry == s.registry
            <==> forall i, j :: 0 <= i < j < |rs| && SameTool(rs[i], rs[j]) ==> !(owners[i] == INNER && owners[j] == OUTER)
  {
    hide LoadedBy, UndoAll, Fresh, Disposal;
    var order := [INNER, OUTER];
    DisposersRestoreIff(s, rs, owners, order);
    assert order[1..] == [OUTER];
    assert Turn(order, INNER) == 0 && Turn(order, OUTER) == 1;
  }

  const BARE := State(map[], map[], [], [], [])

  function Overrides(a: Def, b: Def, c: Def, h: Handler): seq<Registration> { [Tool("t", a, h), Tool("t", b, h), Tool("t", c, h)] }

  lemma LoadedOverrides(a: Def, b: Def, c: Def, h: Handler)
    ensures var (top, os) := LoadedBy(BARE, Overrides(a, b, c, h), [OUTER, INNER, OUTER]);
            && top.registry == map["t" := c]
            && os == [Owned(OUTER, RestoreTool("t", a, None)), Owned(INNER, RestoreTool("t", b, Some(a))), Owned(OUTER, RestoreTool("t", c, Some(b)))]
  {
    hide LoadedBy;
    var r1, r2, r3 := Tool("t", a, h), Tool("t", b, h), Tool("t", c, h);
    assert LoadedBy(BARE, [], []) == (BARE, []) by { LoadedByNone(BARE); }
    LoadedBySnoc(BARE, [], [], r1, OUTER);
    LoadedBySnoc(BARE, [r1], [OUTER], r2, INNER);
    LoadedBySnoc(BARE, [r1, r2], [OUTER, INNER], r3, OUTER);
    assert [] + [r1] == [r1] && [r1] + [r2] == [r1, r2] && [r1, r2] + [r3] == [r1, r2, r3];
    assert [] + [OUTER] == [OUTER] && [OUTER] + [INNER] == [OUTER, INNER] && [OUTER, INNER] + [OUTER] == [OUTER, INNER, OUTER];
  }

  lemma LoadedByNone(s: State)
    ensures LoadedBy(s, [], []) == (s, [])
  {
  }

  lemma UndoThree(s: State, u: Cleanup, v: Cleanup, w: Cleanup)
    ensures UndoAll(s, [u, v, w]) == Undone(Undone(Undone(s, u), v), w)
  {
    hide Undone;
    assert [u, v, w][1..] == [v, w] && [v, w][1..] == [w];
    assert UndoAll(Undone(Undone(s, u), v), [w]) == Undone(Undone(Undone(s, u), v), w);
  }

  lemma NestedDisposal<T>(u1: Owned<T>, u2: Owned<T>, u3: Owned<T>)
    requires u1.owner == u3.owner == OUTER && u2.owner == INNER
    ensures Disposal([u1, u2, u3], [INNER, OUTER]) == [u2, u3, u1]
  {
    var os := [u1, u2, u3];
    assert [INNER, OUTER][1..] == [OUTER];
    assert Disposal(os, [OUTER]) == Reverse(Under(os, OUTER)) + [];
    assert os[1..] == [u2, u3] && os[1..][1..] == [u3] && os[1..][1..][1..] == [];
    assert Under(os[1..], OUTER) == Under([u3], OUTER) == [u3];
    assert Under(os[1..], INNER) == [u2] + Under([u3], INNER) == [u2];
    ReverseSnoc([u1], u3);
    ReverseShort([u1]);
    ReverseShort([u2]);
    assert [u1] + [u3] == [u1, u3];
  }

  /** The outer scope registers a tool, the inner one overrides it, the outer one overrides it again:
      disposing the inner scope first leaves its tool behind. */
  lemma NestedOverrideStays(a: Def, b: Def, c: Def, h: Handler)
    requires a != b && b != c && a != c
    ensures Fresh(BARE, Overrides(a, b, c, h))
    ensures var (top, os) := LoadedBy(BARE, Overrides(a, b, c, h), [OUTER, INNER, OUTER]);
            UndoAll(top, Untagged(Disposal(os, [INNER, OUTER]))).registry == map["t" := b]
  {
    hide LoadedBy, Disposal, UndoAll;
    var u1, u2, u3 := RestoreTool("t", a, None), RestoreTool("t", b, Some(a)), RestoreTool("t", c, Some(b));
    LoadedOverrides(a, b, c, h);
    NestedDisposal(Owned(OUTER, u1), Owned(INNER, u2), Owned(OUTER, u3));
    var (top, os) := LoadedBy(BARE, Overrides(a, b, c, h), [OUTER, INNER, OUTER]);
    assert Untagged(Disposal(os, [INNER, OUTER])) == [u2, u3, u1];
    UndoThree(top, u2, u3, u1);
  }

  /** Disposers `0` to `n - 1`, the last first. */
  function Down(n: nat): (r: seq<nat>)
    ensures |r| == n && forall i :: 0 <= i < n ==> r[i] == n - 1 - i
  {
    seq(n, i requires 0 <= i < n => n - 1 - i)
  }

  function Up(n: nat): (r: seq<nat>)
    ensures |r| == n && forall i :: 0 <= i < n ==> r[i] == i
  {
    seq(n, i => i)
  }

  lemma {:induction false} TurnIs(order: seq<nat>, p: nat)
    requires AllDifferent(order) && p < |order|
    ensures Turn(order, order[p]) == p
  {
    var q := Turn(order, order[p]);
    assert order[q] == order[p];
  }

  /** Plugins loaded one after another, each under its own disposer. */
  predicate OneAfterAnother(owners: seq<nat>, n: nat) {
    && (forall k :: 0 <= k < |owners| ==> owners[k] < n)
    && forall i, j :: 0 <= i < j < |owners| ==> owners[i] <= owners[j]
  }

  /** Disposed last-in-first-out, they restore registry and lists exactly, overrides included. */
  lemma LifoRestores(s: State, rs: seq<Registration>, owners: seq<nat>, n: nat)
    requires Fresh(s, rs) && |owners| == |rs| && OneAfterAnother(owners, n)
    ensures var (top, os) := LoadedBy(s, rs, owners);
            var s' := UndoAll(top, Untagged(Disposal(os, Down(n))));
            s'.registry == s.registry && s'.before == s.before && s'.after == s.after && s'.middlewares == s.middlewares
  {
    hide LoadedBy, UndoAll, Fresh, Disposal, Turn;
    var order := Down(n);
    forall k | 0 <= k < |rs| ensures owners[k] in order && Turn(order, owners[k]) == n - 1 - owners[k] {
      assert order[n - 1 - owners[k]] == owners[k];
      TurnIs(order, n - 1 - owners[k]);
    }
    DisposersRestoreIff(s, rs, owners, order);
  }

  /** Disposed in loading order, as rediscovery does, they restore the registry exactly when no tool
      name was registered by two plugins: an override leaves the earlier plugin's tool behind. */
  lemma LoadOrderRestoresIff(s: State, rs: seq<Registration>, owners: seq<nat>, n: nat)
    requires Fresh(s, rs) && |owners| == |rs| && OneAfterAnother(owners, n)
    ensures var (top, os) := LoadedBy(s, rs, owners);
            UndoAll(top, Untagged(Disposal(os, Up(n)))).registry == s.registry
            <==> forall i, j :: 0 <= i < j < |rs| && SameTool(rs[i], rs[j]) ==> owners[i] == owners[j]
  {
    hide LoadedBy, UndoAll, Fresh, Disposal, Turn;
    var order := Up(n);
    forall k | 0 <= k < |rs| ensures owners[k] in order && Turn(order, owners[k]) == owners[k] {
      assert order[owners[k]] == owners[k];
      TurnIs(order, owners[k]);
    }
    DisposersRestoreIff(s, rs, owners, order);
  }

  // ---------------------------------------------------------------- handlers and reused definitions

  /** The handler the last registration of definition `d` gives it, if there is one. */
  function LastHandler(rs: seq<Registration>, d: Def): Option<Handler> {
    if rs == [] then None
    else
      var r := rs[|rs| - 1];
      if r.Tool? && r.def == d then Some(r.handler) else LastHandler(rs[..|rs| - 1], d)
  }

  lemma {:induction false} LoadedHandler(s: State, rs: seq<Registration>, d: Def)
    requires d in s.handlers
    ensures d in Loaded(s, rs).0.handlers
    ensures Loaded(s, rs).0.handlers[d] == if LastHandler(rs, d).Some? then LastHandler(rs, d).value else s.handlers[d]
  {
    hide Known, CleanupOf;
    if rs != [] {
      LoadedHandler(s, rs[..|rs| - 1], d);
    }
  }

  lemma {:induction false} UndoKeepsHandlers(s: State, us: seq<Cleanup>)
    ensures UndoAll(s, us).handlers == s.handlers
    decreases |us|
  {
    hide Lookup, RemoveFirst;
    if us != [] {
      UndoKeepsHandlers(Undone(s, us[0]), us[1..]);
    }
  }

  /** Undo puts definitions back, not handlers. Whatever cleanups run in whatever order, a definition
      has its old handler again exactly when the last registration that used it, if any, gave it that
      handler. */
  lemma HandlerBackIff(s: State, rs: seq<Registration>, us: seq<Cleanup>, d: Def)
    requires d in s.handlers
    ensures var after := UndoAll(Loaded(s, rs).0, us).handlers;
            d in after && (after[d] == s.handlers[d] <==> LastHandler(rs, d) in {None, Some(s.handlers[d])})
  {
    hide Loaded, UndoAll, LastHandler;
    UndoKeepsHandlers(Loaded(s, rs).0, us);
    LoadedHandler(s, rs, d);
  }

  /** Every registered definition has a handler. */
  predicate Handled(s: State) {
    forall n :: n in s.registry ==> s.registry[n] in s.handlers
  }

  /** Every name leads to the same definition as before, with the same handler. */
  predicate SameTools(s: State, s': State)
    requires Handled(s)
  {
    && s'.registry == s.registry
    && forall n :: n in s.registry ==> s.registry[n] in s'.handlers && s'.handlers[s.registry[n]] == s.handlers[s.registry[n]]
  }

  lemma {:induction false} FreshNotReused(s: State, rs: seq<Registration>, n: string)
    requires Fresh(s, rs) && n in s.registry
    ensures LastHandler(rs, s.registry[n]) == None
  {
    if rs != [] {
      FreshPrefix(s, rs, |rs| - 1);
      FreshNotReused(s, rs[..|rs| - 1], n);
    }
  }

  /** New definitions touch no old handler: with them, a restored registry has its handlers back too. */
  lemma FreshKeepsHandlers(s: State, rs: seq<Registration>, us: seq<Cleanup>)
    requires Handled(s) && Fresh(s, rs)
    ensures var s' := UndoAll(Loaded(s, rs).0, us); SameTools(s, s') <==> s'.registry == s.registry
  {
    hide Loaded, UndoAll, LastHandler, Fresh;
    forall n | n in s.registry
      ensures var after := UndoAll(Loaded(s, rs).0, us).handlers;
              s.registry[n] in after && after[s.registry[n]] == s.handlers[s.registry[n]]
    {
      FreshNotReused(s, rs, n);
      HandlerBackIff(s, rs, us, s.registry[n]);
    }
  }

  /** Undoing newest first needs no fresh definitions: every name leads to the same definition again,
      reused or not, and to the same handler exactly when no definition of the registry was last
      registered with another one. */
  lemma ReverseRestoresToolsIff(s: State, rs: seq<Registration>)
    requires Handled(s)
    ensures var (top, cs) := Loaded(s, rs);
            var s' := UndoAll(top, Reverse(cs));
            && s' == s.(handlers := top.handlers)
            && (SameTools(s, s') <==>
                 forall n :: n in s.registry ==> LastHandler(rs, s.registry[n]) in {None, Some(s.handlers[s.registry[n]])})
  {
    hide Loaded, UndoAll, Reverse, LastHandler;
    var (top, cs) := Loaded(s, rs);
    ReverseRestores(s, rs);
    forall n | n in s.registry
      ensures s.registry[n] in top.handlers
      ensures top.handlers[s.registry[n]] == s.handlers[s.registry[n]]
              <==> LastHandler(rs, s.registry[n]) in {None, Some(s.handlers[s.registry[n]])}
    {
      UndoKeepsHandlers(top, Reverse(cs));
      HandlerBackIff(s, rs, Reverse(cs), s.registry[n]);
    }
  }

  lemma {:induction false} ReverseRestores(s: State, rs: seq<Registration>)
    ensures var (top, cs) := Loaded(s, rs); UndoAll(top, Reverse(cs)) == s.(handlers := top.handlers)
  {
    if rs == [] {
      ReverseShort<Cleanup>([]);
    } else {
      hide UndoAll, Registered, CleanupOf, Reverse;
      var n := |rs| - 1;
      var (mid, cs) := Loaded(s, rs[..n]);
      var (top, added) := (Registered(mid, rs[n]), CleanupOf(mid, rs[n]));
      ReverseRestores(s, rs[..n]);
      ReverseConcat(cs, added);
      ReverseShort(added);
      UndoOne(mid, rs[n]);
      UndoConcat(top, added, Reverse(cs));
      UndoIgnoresHandlers(mid, top.handlers, Reverse(cs));
    }
  }

  lemma UndoOne(s: State, r: Registration)
    ensures |CleanupOf(s, r)| <= 1
    ensures UndoAll(Registered(s, r), CleanupOf(s, r)) == s.(handlers := Registered(s, r).handlers)
  {
    hide Known;
    var cs := CleanupOf(s, r);
    UnknownIsAbsent(s.before);
    UnknownIsAbsent(s.after);
    if cs != [] {
      assert cs[1..] == [];
      match r
      case Tool(name, def, _) =>
        assert Lookup(s.registry, name).None? ==> s.registry[name := def] - {name} == s.registry;
        assert Lookup(s.registry, name).Some? ==> s.registry[name := def][name := s.registry[name]] == s.registry;
      case BeforeHook(h) => AddRemove(s.before, h);
      case AfterHook(h) => AddRemove(s.after, h);
      case AddMiddleware(m) => AddRemove(s.middlewares, m);
    }
  }

  lemma AddRemove<T>(xs: seq<T>, x: T)
    requires x !in xs
    ensures RemoveFirst(xs + [x], x) == xs
  {
    RemoveBehind(xs, [x], x);
    assert [x][1..] == [];
    assert xs + [] == xs;
  }

  lemma {:induction false} UndoConcat(s: State, a: seq<Cleanup>, b: seq<Cleanup>)
    ensures UndoAll(s, a + b) == UndoAll(UndoAll(s, a), b)
    decreases |a|
  {
    hide Undone;
    if a == [] {
      assert a + b == b;
    } else {
      UndoConcat(Undone(s, a[0]), a[1..], b);
      assert (a + b)[1..] == a[1..] + b;
    }
  }

  lemma {:induction false} UndoIgnoresHandlers(s: State, hs: map<Def, Handler>, us: seq<Cleanup>)
    ensures UndoAll(s.(handlers := hs), us) == UndoAll(s, us).(handlers := hs)
    decreases |us|
  {
    hide Lookup, RemoveFirst;
    if us != [] {
      UndoIgnoresHandlers(Undone(s, us[0]), hs, us[1..]);
      assert Undone(s.(handlers := hs), us[0]) == Undone(s, us[0]).(handlers := hs);
    }
  }

  /** A definition registered again with another handler keeps it after the undo. */
  lemma ReusedDefinitionKeepsHandler(s: State, name: string, d: Def, h: Handler)
    requires Handled(s) && Lookup(s.registry, name) == Some(d) && s.handlers[d] != h
    ensures var (top, cs) := Loaded(s, [Tool(name, d, h)]);
            var s' := UndoAll(top, Reverse(cs));
            s'.registry == s.registry && d in s'.handlers && s'.handlers[d] == h
  {
    hide UndoAll, Reverse, Loaded;
    var rs := [Tool(name, d, h)];
    ReverseRestoresToolsIff(s, rs);
    LoadedHandler(s, rs, d);
    assert LastHandler(rs, d) == Some(h);
  }

  // ---------------------------------------------------------------- once-hooks under concurrency

  /** Hook list and running executions, each with the hooks of its snapshot still to visit. */
  datatype World = World(hooks: seq<Hook>, running: map<nat, seq<Hook>>, fired: multiset<Hook>, added: multiset<Hook>)

  datatype Step =
    | Add(hook: Hook)
    | Drop(hook: Hook)
    | Clear
    | Start(execution: nat)
    | Visit(execution: nat, matches: bool)

  /** `_claim_once`: whether the entry is still listed, and the list without it. */
  function Claimed(hooks: seq<Hook>, h: Hook): (bool, seq<Hook>) {
    if h in hooks then (true, RemoveFirst(hooks, h)) else (false, hooks)
  }

  function Stepped(w: World, s: Step): World {
    match s
    case Add(h) => if Known(w.hooks, h) then w else w.(hooks := w.hooks + [h], added := w.added + multiset{h})
    case Drop(h) => w.(hooks := RemoveFirst(w.hooks, h))
    case Clear => w.(hooks := [])
    case Start(x) => w.(running := w.running[x := w.hooks])
    case Visit(x, matches) =>
      if x !in w.running || w.running[x] == [] then w
      else
        var h := w.running[x][0];
        var w1 := w.(running := w.running[x := w.running[x][1..]]);
        if !matches then w1
        else if !h.once then w1.(fired := w1.fired + multiset{h})
        else
          var (mine, rest) := Claimed(w.hooks, h);
          if mine then w1.(hooks := rest, fired := w1.fired + multiset{h}) else w1
  }

  function Ran(steps: seq<Step>): World {
    if steps == [] then World([], map[], multiset{}, multiset{}) else Stepped(Ran(steps[..|steps| - 1]), steps[|steps| - 1])
  }

  lemma RemoveFirstCount(hooks: seq<Hook>, x: Hook, h: Hook)
    ensures multiset(RemoveFirst(hooks, x))[h] == multiset(hooks)[h] - if x == h && h in hooks then 1 else 0
  {
    if x in hooks {
      RemoveFirstBag(hooks, x);
    } else {
      RemoveAbsent(hooks, x);
    }
  }

  lemma {:induction false} RemoveAbsent(hooks: seq<Hook>, x: Hook)
    requires x !in hooks
    ensures RemoveFirst(hooks, x) == hooks
  {
    if hooks != [] {
      RemoveAbsent(hooks[1..], x);
    }
  }

  /** In every interleaving of registrations, removals and executions, a once-hook fires at most once
      per registration, counting the registrations that are still waiting. */
  lemma {:induction false} OnceFiresAtMostOnce(steps: seq<Step>, h: Hook)
    requires h.once
    ensures var w := Ran(steps); w.fired[h] + multiset(w.hooks)[h] <= w.added[h]
  {
    hide RemoveFirst, Known;
    if steps != [] {
      var w, s := Ran(steps[..|steps| - 1]), steps[|steps| - 1];
      OnceFiresAtMostOnce(steps[..|steps| - 1], h);
      match s
      case Add(x) =>
      case Drop(x) => RemoveFirstCount(w.hooks, x, h);
      case Clear =>
      case Start(x) =>
      case Visit(x, _) =>
        if x in w.running && w.running[x] != [] {
          RemoveFirstCount(w.hooks, w.running[x][0], h);
        }
    }
  }

  /** How many registrations of hook `h` were taken out by removals and clearings. */
  function Taken(steps: seq<Step>, h: Hook): nat {
    if steps == [] then 0
    else
      var n := |steps| - 1;
      var before := multiset(Ran(steps[..n]).hooks)[h];
      Taken(steps[..n], h)
      + match steps[n]
        case Drop(x) => if x == h && before > 0 then 1 else 0
        case Clear => before
        case _ => 0
  }

  /** Nothing is lost: every registration of a once-hook has fired, still waits, or was taken out. */
  lemma {:induction false} OnceConserved(steps: seq<Step>, h: Hook)
    requires h.once
    ensures var w := Ran(steps); w.fired[h] + multiset(w.hooks)[h] + Taken(steps, h) == w.added[h]
  {
    hide RemoveFirst, Known;
    if steps != [] {
      var w, s := Ran(steps[..|steps| - 1]), steps[|steps| - 1];
      OnceConserved(steps[..|steps| - 1], h);
      match s
      case Add(x) =>
      case Drop(x) => RemoveFirstCount(w.hooks, x, h);
      case Clear =>
      case Start(x) =>
      case Visit(x, _) =>
        if x in w.running && w.running[x] != [] {
          RemoveFirstCount(w.hooks, w.running[x][0], h);
        }
    }
  }

  /** What an execution does with the next hook of its snapshot: it fires a hook whose condition matches,
      a once-hook only if it is still listed, and then it takes it off the list. */
  lemma VisitExact(w: World, x: nat, matches: bool)
    requires x in w.running && w.running[x] != []
    ensures var h, w' := w.running[x][0], Stepped(w, Visit(x, matches));
            && w'.running == w.running[x := w.running[x][1..]] && w'.added == w.added
            && w'.fired == (if matches && (!h.once || h in w.hooks) then w.fired + multiset{h} else w.fired)
            && multiset(w'.hooks) == (if matches && h.once && h in w.hooks then multiset(w.hooks) - multiset{h} else multiset(w.hooks))
    ensures Stepped(w, Start(x)).running[x] == w.hooks
  {
    hide RemoveFirst;
    var h := w.running[x][0];
    if h in w.hooks {
      RemoveFirstBag(w.hooks, h);
    }
  }

  // ---------------------------------------------------------------- what one registration does

  /** Two entries with the same function and condition, whether they run once or not. */
  predicate Alike(a: Hook, b: Hook) { a.fn == b.fn && a.condition == b.condition }

  predicate AllUnlike(hooks: seq<Hook>) { forall i, j :: 0 <= i < j < |hooks| ==> !Alike(hooks[i], hooks[j]) }

  /** A hook goes to the end of its list and leaves an undo, unless one like it is there already; then
      nothing happens. Registering never leaves two alike hooks in a list. */
  lemma HookAdded(s: State, h: Hook)
    ensures var b, a := Registered(s, BeforeHook(h)), Registered(s, AfterHook(h));
            && b == s.(before := if exists e :: e in s.before && Alike(e, h) then s.before else s.before + [h])
            && a == s.(after := if exists e :: e in s.after && Alike(e, h) then s.after else s.after + [h])
            && CleanupOf(s, BeforeHook(h)) == (if exists e :: e in s.before && Alike(e, h) then [] else [RemoveBefore(h)])
            && CleanupOf(s, AfterHook(h)) == (if exists e :: e in s.after && Alike(e, h) then [] else [RemoveAfter(h)])
            && (AllUnlike(s.before) ==> AllUnlike(b.before)) && (AllUnlike(s.after) ==> AllUnlike(a.after))
  {
    KnownIff(s.before, h);
    KnownIff(s.after, h);
    hide Known;
  }

  lemma KnownIff(hooks: seq<Hook>, h: Hook)
    ensures Known(hooks, h) <==> exists e :: e in hooks && Alike(e, h)
  {
    if e :| e in hooks && Alike(e, h) {
      var i :| 0 <= i < |hooks| && hooks[i] == e;
    }
    if Known(hooks, h) {
      var i :| 0 <= i < |hooks| && hooks[i].fn == h.fn && hooks[i].condition == h.condition;
      assert hooks[i] in hooks && Alike(hooks[i], h);
    }
  }

  /** A tool takes its name and gets its handler; a middleware goes to the end of the list once. Nothing
      else is touched, and the undo remembers what the name stood for. */
  lemma ToolAdded(s: State, name: string, def: Def, handler: Handler, m: Middleware)
    ensures var t, w := Registered(s, Tool(name, def, handler)), Registered(s, AddMiddleware(m));
            && (forall n :: n in t.registry <==> n == name || n in s.registry)
            && (forall n :: n in t.registry ==> t.registry[n] == if n == name then def else s.registry[n])
            && (forall d :: d in t.handlers <==> d == def || d in s.handlers)
            && (forall d :: d in t.handlers ==> t.handlers[d] == if d == def then handler else s.handlers[d])
            && t.before == s.before && t.after == s.after && t.middlewares == s.middlewares
            && CleanupOf(s, Tool(name, def, handler))
               == [RestoreTool(name, def, if name in s.registry then Some(s.registry[name]) else None)]
            && w == s.(middlewares := if m in s.middlewares then s.middlewares else s.middlewares + [m])
            && CleanupOf(s, AddMiddleware(m)) == if m in s.middlewares then [] else [RemoveMiddleware(m)]
  {
  }
}
