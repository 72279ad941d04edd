// backend/executors/compact_tokens.py: token estimates with an incremental bounded cache.
module Tokens {

  const PER_MESSAGE_OVERHEAD := 8
  const TOKEN_CACHE_MAX := 32
  const CJK_ADJUSTMENT := 2

  /** Message content: absent, a string, or another value with its printed form and its truth value. */
  datatype Content = NoContent | Text(text: string) | Other(printed: string, truthy: bool)

  datatype Message = Message(content: Content, name: string)

  predicate IsCjk(c: char) {
    || '\U{4E00}' <= c <= '\U{9FFF}' || '\U{3400}' <= c <= '\U{4DBF}' || '\U{F900}' <= c <= '\U{FAFF}'
    || '\U{20000}' <= c <= '\U{2A6DF}' || '\U{3000}' <= c <= '\U{303F}' || '\U{3040}' <= c <= '\U{30FF}'
    || '\U{AC00}' <= c <= '\U{D7AF}'
  }

  function CountCjk(text: string): nat {
    if text == "" then 0 else CountCjk(text[1..]) + if IsCjk(text[0]) then 1 else 0
  }

  function Printed(content: Content): string {
    match content
    case NoContent => ""
    case Text(text) => text
    case Other(printed, _) => printed
  }

  function MessageChars(m: Message): nat { |Printed(m.content)| + |m.name| + PER_MESSAGE_OVERHEAD }

  function MessageCjk(m: Message): nat { CountCjk(Printed(m.content)) + CountCjk(m.name) }

  /** The first 32 characters of the content, used to recognise a list; falsy content counts as empty. */
  function Verifier(m: Message): string {
    var c := if m.content.Other? && !m.content.truthy then "" else Printed(m.content);
    if |c| <= 32 then c else c[..32]
  }

  function CharsToTokens(chars: nat, cjk: nat): nat { (chars + cjk * CJK_ADJUSTMENT) / 4 }

  function SumChars(ms: seq<Message>): nat {
    if ms == [] then 0 else SumChars(ms[..|ms| - 1]) + MessageChars(ms[|ms| - 1])
  }

  function SumCjk(ms: seq<Message>): nat {
    if ms == [] then 0 else SumCjk(ms[..|ms| - 1]) + MessageCjk(ms[|ms| - 1])
  }

  /** The estimate without a cache. */
  function Direct(ms: seq<Message>): nat { CharsToTokens(SumChars(ms), SumCjk(ms)) }

  // ---------------------------------------------------------------- one estimate on cache values

  /** The identity of a message list. */
  type ListId = nat

  datatype Entry = Entry(n: nat, chars: nat, cjk: nat, verifier: string)

  /** The cache and its keys in insertion order, as in a dictionary. */
  datatype Cache = Cache(entries: map<ListId, Entry>, order: seq<ListId>)

  predicate Ordered(c: Cache) {
    && (forall i :: 0 <= i < |c.order| ==> c.order[i] in c.entries)
    && (forall k :: k in c.entries ==> k in c.order)
    && (forall i, j :: 0 <= i < j < |c.order| ==> c.order[i] != c.order[j])
  }

  function LastVerifier(ms: seq<Message>): string {
    if ms == [] then "" else Verifier(ms[|ms| - 1])
  }

  predicate Unchanged(e: Entry, ms: seq<Message>) {
    e.n == |ms| && LastVerifier(ms) == e.verifier
  }

  predicate GrownByOne(e: Entry, ms: seq<Message>) {
    e.n + 1 == |ms| && (e.n < 2 || Verifier(ms[|ms| - 2]) == e.verifier)
  }

  /** Deletes the oldest half when the cache is full. */
  function Evict(c: Cache): (r: Cache) {
    if |c.order| >= TOKEN_CACHE_MAX then
      var half := TOKEN_CACHE_MAX / 2;
      Cache(map k | k in c.entries && k !in c.order[..half] :: c.entries[k], c.order[half..])
    else c
  }

  function Put(c: Cache, key: ListId, e: Entry): Cache {
    Cache(c.entries[key := e], if key in c.order then c.order else c.order + [key])
  }

  function Estimate(c: Cache, key: ListId, ms: seq<Message>): (Cache, nat) {
    if key in c.entries && Unchanged(c.entries[key], ms) then
      (c, CharsToTokens(c.entries[key].chars, c.entries[key].cjk))
    else if key in c.entries && GrownByOne(c.entries[key], ms) then
      var last := ms[|ms| - 1];
      var e := Entry(|ms|, c.entries[key].chars + MessageChars(last), c.entries[key].cjk + MessageCjk(last), Verifier(last));
      (Put(c, key, e), CharsToTokens(e.chars, e.cjk))
    else
      var e := Entry(|ms|, SumChars(ms), SumCjk(ms), LastVerifier(ms));
      (Put(Evict(c), key, e), CharsToTokens(e.chars, e.cjk))
  }

  /** The module-level cache and the estimator that updates it. */
  class Estimator {
    var entries: map<ListId, Entry>
    var order: seq<ListId>

    function State(): Cache reads this { Cache(entries, order) }

    constructor ()
      ensures State() == Cache(map[], [])
    {
      entries, order := map[], [];
    }

    method Total(messages: seq<Message>) returns (chars: nat, cjk: nat)
      ensures chars == SumChars(messages) && cjk == SumCjk(messages)
    {
      chars, cjk := 0, 0;
      for k := 0 to |messages|
        invariant chars == SumChars(messages[..k]) && cjk == SumCjk(messages[..k])
      {
        assert messages[..k + 1][..k] == messages[..k];
        chars, cjk := chars + MessageChars(messages[k]), cjk + MessageCjk(messages[k]);
      }
      assert messages[..|messages|] == messages;
    }

    method EstimateTokens(key: ListId, messages: seq<Message>) returns (tokens: nat)
      modifies this
      ensures (State(), tokens) == Estimate(old(State()), key, messages)
    {
      var n := |messages|;
      if key in entries {
        var cached := entries[key];
        if Unchanged(cached, messages) {
          return CharsToTokens(cached.chars, cached.cjk);
        }
        if GrownByOne(cached, messages) {
          var last := messages[n - 1];
          var chars, cjk := cached.chars + MessageChars(last), cached.cjk + MessageCjk(last);
          Store(key, Entry(n, chars, cjk, Verifier(last)));
          return CharsToTokens(chars, cjk);
        }
      }
      var chars, cjk := Total(messages);
      if |order| >= TOKEN_CACHE_MAX {
        var half := TOKEN_CACHE_MAX / 2;
        entries := map k | k in entries && k !in order[..half] :: entries[k];
        order := order[half..];
      }
      Store(key, Entry(n, chars, cjk, LastVerifier(messages)));
      tokens := CharsToTokens(chars, cjk);
    }

    method Store(key: ListId, e: Entry)
      modifies this
      ensures State() == Put(old(State()), key, e)
    {
      entries := entries[key := e];
      if key !in order {
        order := order + [key];
      }
    }
  }

  // ---------------------------------------------------------------- runs

  /** What happens to the process: a message is appended to a list, a list is estimated, or the cache
      is cleared by selecting a calibration. */
  datatype Event = Append(list: ListId, message: Message) | Ask(list: ListId) | Clear

  type Lists = ListId -> seq<Message>

  datatype World = World(lists: Lists, cache: Cache)

  function Step(w: World, e: Event): World {
    match e
    case Append(l, m) => World((k: ListId) => if k == l then w.lists(k) + [m] else w.lists(k), w.cache)
    case Ask(l) => World(w.lists, Estimate(w.cache, l, w.lists(l)).0)
    case Clear => World(w.lists, Cache(map[], []))
  }

  function Run(w: World, events: seq<Event>): World {
    if events == [] then w else Step(Run(w, events[..|events| - 1]), events[|events| - 1])
  }

  function Initially(lists: Lists): World { World(lists, Cache(map[], [])) }

  // ---------------------------------------------------------------- the cache is exact

  /** An entry holds the totals of a prefix of its list. */
  predicate TrueOf(e: Entry, ms: seq<Message>) {
    e.n <= |ms| && e.chars == SumChars(ms[..e.n]) && e.cjk == SumCjk(ms[..e.n])
  }

  ghost predicate Good(w: World) {
    && (forall k :: k in w.cache.entries ==> TrueOf(w.cache.entries[k], w.lists(k)))
    && Ordered(w.cache)
    && |w.cache.order| <= TOKEN_CACHE_MAX
  }

  lemma EntryExact(e: Entry, ms: seq<Message>)
    requires TrueOf(e, ms)
    ensures e.n == |ms| ==> CharsToTokens(e.chars, e.cjk) == Direct(ms)
    ensures e.n + 1 == |ms| ==>
              && e.chars + MessageChars(ms[|ms| - 1]) == SumChars(ms)
              && e.cjk + MessageCjk(ms[|ms| - 1]) == SumCjk(ms)
  {
    assert ms[..|ms|] == ms;
  }

  lemma EvictKeeps(c: Cache)
    requires Ordered(c) && |c.order| <= TOKEN_CACHE_MAX
    ensures Ordered(Evict(c)) && |Evict(c).order| < TOKEN_CACHE_MAX
    ensures forall k :: k in Evict(c).entries ==> k in c.entries && Evict(c).entries[k] == c.entries[k]
  {
    if |c.order| >= TOKEN_CACHE_MAX {
      var half := TOKEN_CACHE_MAX / 2;
      var r := Evict(c);
      assert c.order == c.order[..half] + r.order;
      forall k | k in r.entries ensures k in r.order {
        assert k in c.order[..half] + r.order;
      }
      forall i | 0 <= i < |r.order| ensures r.order[i] in r.entries {
        assert r.order[i] == c.order[half + i];
      }
    }
  }

  lemma PutKeeps(c: Cache, key: ListId, e: Entry)
    requires Ordered(c)
    ensures Ordered(Put(c, key, e))
    ensures |Put(c, key, e).order| == if key in c.order then |c.order| else |c.order| + 1
  {
    var r := Put(c, key, e);
    if key !in c.order {
      assert r.order[|c.order|] == key;
      forall k | k in r.entries ensures k in r.order {
        if k != key {
          assert k in c.order;
        }
      }
    }
  }

  /** One estimate on an exact cache gives the direct sum and leaves the cache exact and bounded. */
  lemma EstimateExact(w: World, l: ListId)
    requires Good(w)
    ensures Estimate(w.cache, l, w.lists(l)).1 == Direct(w.lists(l))
    ensures Good(Step(w, Ask(l)))
  {
    var ms, c := w.lists(l), w.cache;
    if l in c.entries {
      EntryExact(c.entries[l], ms);
    }
    if l in c.entries && Unchanged(c.entries[l], ms) {
    } else if l in c.entries && GrownByOne(c.entries[l], ms) {
      assert ms[..|ms|] == ms;
      PutKeeps(c, l, Estimate(c, l, ms).0.entries[l]);
    } else {
      assert ms[..|ms|] == ms;
      EvictKeeps(c);
      PutKeeps(Evict(c), l, Entry(|ms|, SumChars(ms), SumCjk(ms), LastVerifier(ms)));
    }
  }

  lemma AppendKeepsEntries(w: World, l: ListId, m: Message)
    requires Good(w)
    ensures Good(Step(w, Append(l, m)))
  {
    var w' := Step(w, Append(l, m));
    forall k | k in w'.cache.entries ensures TrueOf(w'.cache.entries[k], w'.lists(k)) {
      var e := w.cache.entries[k];
      assert TrueOf(e, w.lists(k));
      assert w'.lists(k)[..e.n] == w.lists(k)[..e.n];
    }
  }

  lemma {:induction false} RunGood(lists: Lists, events: seq<Event>)
    ensures Good(Run(Initially(lists), events))
    decreases |events|
  {
    hide Good, Step;
    if events == [] {
      InitiallyGood(lists);
    } else {
      var before := events[..|events| - 1];
      RunGood(lists, before);
      StepGood(Run(Initially(lists), before), events[|events| - 1]);
    }
  }

  lemma InitiallyGood(lists: Lists)
    ensures Good(Initially(lists))
  {
  }

  lemma StepGood(w: World, e: Event)
    requires Good(w)
    ensures Good(Step(w, e))
  {
    match e
    case Append(l, m) => AppendKeepsEntries(w, l, m);
    case Ask(l) => EstimateExact(w, l);
    case Clear =>
  }

  /** After any interleaving of appends to any lists, estimates, evictions and clears, an estimate is
      what a full recomputation gives, and the cache never holds more than 32 entries. */
  lemma CachedEstimateIsDirect(lists: Lists, events: seq<Event>, l: ListId)
    ensures var w := Run(Initially(lists), events);
            && Estimate(w.cache, l, w.lists(l)).1 == Direct(w.lists(l))
            && |w.cache.entries| <= TOKEN_CACHE_MAX
  {
    hide Estimate, Run;
    var w := Run(Initially(lists), events);
    RunGood(lists, events);
    EstimateExact(w, l);
    OrderCounts(w.cache);
  }

  lemma OrderCounts(c: Cache)
    requires Ordered(c)
    ensures |c.entries| == |c.order|
  {
    DistinctCount(c.order, c.entries.Keys);
  }

  lemma {:induction false} DistinctCount(s: seq<ListId>, elements: set<ListId>)
    requires forall i, j :: 0 <= i < j < |s| ==> s[i] != s[j]
    requires forall k :: k in elements <==> k in s
    ensures |elements| == |s|
  {
    if s == [] {
      assert elements == {};
    } else {
      var init, last := s[..|s| - 1], s[|s| - 1];
      assert s == init + [last];
      DistinctCount(init, elements - {last});
    }
  }

  // ---------------------------------------------------------------- messages rewritten in place

  function Weight(m: Message): nat { MessageChars(m) + MessageCjk(m) * CJK_ADJUSTMENT }

  function SumWeight(ms: seq<Message>): nat { SumChars(ms) + SumCjk(ms) * CJK_ADJUSTMENT }

  /** By how much the rewritten messages outweigh the ones they replace. */
  function Rewriting(was: seq<Message>, now: seq<Message>): int
    requires |was| == |now|
  {
    if was == [] then 0
    else
      var n := |was| - 1;
      Rewriting(was[..n], now[..n]) + if was[n] == now[n] then 0 else Weight(now[n]) - Weight(was[n])
  }

  lemma {:induction false} RewritingExact(was: seq<Message>, now: seq<Message>)
    requires |was| == |now|
    ensures SumWeight(now) == SumWeight(was) + Rewriting(was, now)
  {
    hide MessageChars, MessageCjk;
    if was != [] {
      var n := |was| - 1;
      RewritingExact(was[..n], now[..n]);
    }
  }

  lemma SumWeightSnoc(ms: seq<Message>, m: Message)
    ensures SumWeight(ms + [m]) == SumWeight(ms) + Weight(m)
  {
    hide MessageChars, MessageCjk;
    assert (ms + [m])[..|ms|] == ms;
  }

  lemma QuarterSame(a: nat, delta: int)
    requires a + delta >= 0
    ensures a / 4 == (a + delta) / 4 <==> 0 <= a % 4 + delta < 4
  {
  }

  /** What the cache counts for a list it takes for the one it knows: the old totals, and the new last
      message if the list looks one longer. */
  function Counted(was: seq<Message>, now: seq<Message>): nat {
    SumWeight(was) + if |now| == |was| + 1 then Weight(now[|now| - 1]) else 0
  }

  /** The list has the known length or one message more, and the last message of the known length still
      begins with the known 32 characters; of a list known with one message or none, one more is enough. */
  predicate TakenForKnown(e: Entry, now: seq<Message>) {
    || (|now| == e.n && (if e.n == 0 then e.verifier == "" else e.verifier == Verifier(now[e.n - 1])))
    || (|now| == e.n + 1 && (e.n <= 1 || e.verifier == Verifier(now[e.n - 1])))
  }

  lemma KnownLength(e: Entry, now: seq<Message>)
    ensures Unchanged(e, now) ==> |now| == e.n
    ensures GrownByOne(e, now) ==> |now| == e.n + 1
  {
  }

  lemma KnownIff(e: Entry, now: seq<Message>)
    ensures TakenForKnown(e, now) <==> Unchanged(e, now) || GrownByOne(e, now)
  {
    hide Verifier;
  }

  /** The guard is not a proof of freshness. For a list whose messages were rewritten in place since its
      entry was made, the estimate is right exactly when the guard notices (the length or the first 32
      characters of the last known message changed) or the rewritten messages outweigh the old ones by
      so little that the count stays within the same four characters. */
  lemma RewrittenListIsStale(w: World, l: ListId, now: seq<Message>)
    requires Good(w) && l in w.cache.entries
    ensures var e := w.cache.entries[l];
            var was := w.lists(l)[..e.n];
            Estimate(w.cache, l, now).1 == Direct(now)
            <==> !TakenForKnown(e, now)
                 || 0 <= Counted(was, now) % 4 + Rewriting(was, now[..e.n]) < 4
  {
    hide MessageChars, MessageCjk, Verifier, Rewriting, SumChars, SumCjk, TakenForKnown, Unchanged, GrownByOne;
    var e := w.cache.entries[l];
    KnownIff(e, now);
    KnownLength(e, now);
    var was := w.lists(l)[..e.n];
    if Unchanged(e, now) || GrownByOne(e, now) {
      RewritingExact(was, now[..e.n]);
      if |now| == e.n {
        assert now[..e.n] == now;
      } else {
        SumWeightSnoc(now[..e.n], now[e.n]);
        assert now == now[..e.n] + [now[e.n]];
      }
      QuarterSame(Counted(was, now), Rewriting(was, now[..e.n]));
    }
  }

  // ---------------------------------------------------------------- what a message counts for

  /** The places in `s`, from `k` on, where a character of the CJK ranges stands. */
  function CjkFrom(s: string, k: nat): set<nat> {
    set i: nat | k <= i < |s| &&
      (|| 0x4E00 <= s[i] as int <= 0x9FFF || 0x3400 <= s[i] as int <= 0x4DBF || 0xF900 <= s[i] as int <= 0xFAFF
       || 0x20000 <= s[i] as int <= 0x2A6DF || 0x3000 <= s[i] as int <= 0x303F || 0x3040 <= s[i] as int <= 0x30FF
       || 0xAC00 <= s[i] as int <= 0xD7AF)
  }

  function CjkAt(s: string): set<nat> { CjkFrom(s, 0) }

  lemma CjkStep(s: string, k: nat)
    requires k < |s|
    ensures k !in CjkFrom(s, k + 1)
    ensures CjkFrom(s, k) == if IsCjk(s[k]) then CjkFrom(s, k + 1) + {k} else CjkFrom(s, k + 1)
  {
  }

  lemma {:induction false} CjkCountedFrom(s: string, k: nat)
    requires k <= |s|
    ensures CountCjk(s[k..]) == |CjkFrom(s, k)|
    decreases |s| - k
  {
    if k == |s| {
      assert CjkFrom(s, k) == {};
    } else {
      hide IsCjk, CjkFrom;
      CjkCountedFrom(s, k + 1);
      CjkStep(s, k);
      assert s[k..][1..] == s[k + 1..];
    }
  }

  lemma CjkCounted(s: string)
    ensures CountCjk(s) == |CjkAt(s)|
  {
    hide CountCjk, CjkFrom;
    CjkCountedFrom(s, 0);
    assert s[0..] == s;
  }

  /** The text of a message as it is counted. */
  predicate CountedText(m: Message, t: string) {
    match m.content
    case NoContent => t == ""
    case Text(text) => t == text
    case Other(printed, _) => t == printed
  }

  /** Every message adds its text, its name and eight characters, and two more for each CJK character in
      either; four of them make a token, a rest makes none. */
  lemma EstimateCounts(ms: seq<Message>, m: Message, t: string)
    requires CountedText(m, t)
    ensures Direct(ms) == SumWeight(ms) / 4 && SumWeight([]) == 0
    ensures SumWeight(ms + [m]) == SumWeight(ms) + |t| + |m.name| + 8 + 2 * (|CjkAt(t)| + |CjkAt(m.name)|)
  {
    hide CjkAt, CountCjk;
    SumWeightSnoc(ms, m);
    CjkCounted(t);
    CjkCounted(m.name);
  }

  /** A list is recognised by the first 32 characters of the last message's text, none when it is falsy. */
  lemma VerifierExact(m: Message, t: string)
    requires CountedText(m, t)
    ensures var v := Verifier(m);
            if m.content.Other? && !m.content.truthy then v == ""
            else |v| == (if |t| < 32 then |t| else 32) && v == t[..|v|]
  {
  }

  /** A full cache loses its sixteen oldest entries before another is made, and no other. */
  lemma EvictsOldest(c: Cache)
    requires Ordered(c)
    ensures |c.order| < 32 ==> Evict(c) == c
    ensures |c.order| >= 32 ==>
              && Evict(c).order == c.order[16..]
              && forall k :: k in Evict(c).entries <==> k in c.order[16..]
    ensures forall k :: k in Evict(c).entries ==> k in c.entries && Evict(c).entries[k] == c.entries[k]
  {
    if |c.order| >= 32 {
      var r := Evict(c);
      assert c.order == c.order[..16] + c.order[16..];
      forall k | k in c.order[16..] ensures k in r.entries {
        var i :| 16 <= i < |c.order| && c.order[i] == k;
        assert forall j :: 0 <= j < 16 ==> c.order[j] != k;
      }
      forall k | k in r.entries ensures k in c.order[16..] {
        assert k in c.order[..16] + c.order[16..];
      }
    }
  }

  /** After an estimate the list has an entry for what it now holds, so the same question again is
      answered from the cache: it gives the same number and changes nothing. */
  lemma AskedTwice(w: World, l: ListId)
    requires Good(w)
    ensures var (c, t) := Estimate(w.cache, l, w.lists(l));
            && l in c.entries && c.entries[l].n == |w.lists(l)|
            && c.entries[l].verifier == LastVerifier(w.lists(l))
            && Estimate(c, l, w.lists(l)) == (c, t)
  {
    hide Verifier, MessageChars, MessageCjk, CharsToTokens, Evict, SumChars, SumCjk;
  }
}
