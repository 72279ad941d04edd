// backend/editing/edit.py, replace_all in the character layer: when its passes are one replacement.
module AllAtOnce {
  import opened Wrappers
  import opened Text
  import opened Normalize
  import opened Replacers
  import opened Indent
  import opened Edit

  // ---------------------------------------------------------------- one left-to-right replacement

  /** What stands at the start of `s` has the normal form `u`. */
  predicate Block(s: string, u: string) { |s| >= |u| && FoldAll(s[..|u|]) == u }

  /** `s` read once from the left: everything with the normal form `u` gives way to the new text, with
      its quotes restored. */
  function AtOnce(s: string, u: string, newString: string): string
    requires u != ""
    decreases |s|
  {
    if s == "" then ""
    else if Block(s, u) then QuotesPreserved(s[..|u|], newString) + AtOnce(s[|u|..], u, newString)
    else [s[0]] + AtOnce(s[1..], u, newString)
  }

  /** The same, where only the candidates in `done` have had their pass. */
  function Partly(s: string, u: string, newString: string, done: set<string>): string
    requires u != ""
    decreases |s|
  {
    if s == "" then ""
    else if Block(s, u) then
      (if s[..|u|] in done then QuotesPreserved(s[..|u|], newString) else s[..|u|]) + Partly(s[|u|..], u, newString, done)
    else [s[0]] + Partly(s[1..], u, newString, done)
  }

  lemma FoldConcat(a: string, b: string)
    ensures FoldAll(a + b) == FoldAll(a) + FoldAll(b)
  {
  }

  lemma FoldSlice(s: string, i: nat, j: nat)
    requires i <= j <= |s|
    ensures FoldAll(s[i..j]) == FoldAll(s)[i..j]
  {
  }

  lemma FoldAt(s: string, m: string, q: int)
    requires At(s, m, q)
    ensures At(FoldAll(s), FoldAll(m), q)
  {
    FoldSlice(s, q, q + |m|);
  }

  lemma NewFolds(m: string, newString: string)
    ensures FoldAll(QuotesPreserved(m, newString)) == FoldAll(newString)
  {
    hide QuotesPreserved, FoldAll;
    QuotesKeepNormalForm(m, newString);
    CharNormal(QuotesPreserved(m, newString));
    CharNormal(newString);
  }

  /** On normal forms, the single replacement is Python's replace. */
  lemma {:induction false} AtOnceFolds(s: string, u: string, newString: string)
    requires u != ""
    ensures FoldAll(AtOnce(s, u, newString)) == Replace(FoldAll(s), u, FoldAll(newString))
    decreases |s|
  {
    hide Replace, Count, QuotesPreserved, Find;
    if s == "" {
      ReplaceEmpty(u, FoldAll(newString));
      assert FoldAll(s) == "";
    } else {
      hide FoldAll;
      BlockIsAt(s, u);
      FoldLength(s);
      ReplaceStep(FoldAll(s), u, FoldAll(newString));
      if Block(s, u) {
        AtOnceFolds(s[|u|..], u, newString);
        NewFolds(s[..|u|], newString);
        FoldConcat(QuotesPreserved(s[..|u|], newString), AtOnce(s[|u|..], u, newString));
        FoldSlice(s, |u|, |s|);
        assert s[|u|..|s|] == s[|u|..] && FoldAll(s)[|u|..|s|] == FoldAll(s)[|u|..];
      } else {
        AtOnceFolds(s[1..], u, newString);
        FoldConcat([s[0]], AtOnce(s[1..], u, newString));
        FoldSlice(s, 1, |s|);
        FoldSlice(s, 0, 1);
        assert s[1..|s|] == s[1..] && FoldAll(s)[1..|s|] == FoldAll(s)[1..];
        assert s[0..1] == [s[0]] && FoldAll(s)[0..1] == [FoldAll(s)[0]];
      }
    }
  }

  lemma BlockIsAt(s: string, u: string)
    ensures Block(s, u) <==> At(FoldAll(s), u, 0)
  {
    if |s| >= |u| {
      FoldSlice(s, 0, |u|);
      assert s[0..|u|] == s[..|u|];
    }
  }

  lemma {:induction false} NothingDone(s: string, u: string, newString: string)
    requires u != ""
    ensures Partly(s, u, newString, {}) == s
    decreases |s|
  {
    hide Block;
    if s != "" {
      if Block(s, u) {
        BlockFits(s, u);
        NothingDone(s[|u|..], u, newString);
      } else {
        NothingDone(s[1..], u, newString);
      }
    }
  }

  lemma BlockFits(s: string, u: string)
    requires Block(s, u)
    ensures |u| <= |s|
  {
  }

  lemma OccursTail(s: string, k: nat, m: string)
    requires k <= |s| && Occurs(s[k..], m)
    ensures Occurs(s, m)
  {
    hide At;
    var q :| 0 <= q <= |s[k..]| && At(s[k..], m, q);
    AtSuffix(s, m, k, q);
  }

  lemma {:induction false} AllDone(s: string, u: string, newString: string, done: set<string>)
    requires u != "" && forall m :: Occurs(s, m) && FoldAll(m) == u ==> m in done
    ensures Partly(s, u, newString, done) == AtOnce(s, u, newString)
    decreases |s|
  {
    hide QuotesPreserved, FoldAll, Occurs;
    if s != "" {
      var n := if Block(s, u) then |u| else 1;
      forall m | Occurs(s[n..], m) && FoldAll(m) == u ensures m in done {
        OccursTail(s, n, m);
      }
      AllDone(s[n..], u, newString, done);
      if Block(s, u) {
        HeadOccurs(s, |u|);
      }
    }
  }

  lemma HeadOccurs(s: string, n: nat)
    requires n <= |s|
    ensures Occurs(s, s[..n])
  {
    assert At(s, s[..n], 0);
  }

  // ---------------------------------------------------------------- what the text must not do

  /** Laid over `v` at shift `k`, `u` agrees with `v` wherever both have a character. */
  predicate Agrees(u: string, v: string, k: int) {
    forall t :: 0 <= t < |u| && 0 <= k + t < |v| ==> u[t] == v[k + t]
  }

  /** `u` can lie over an inserted `v`, or over the seam that an empty `v` leaves. */
  predicate Touches(u: string, v: string) {
    exists k :: -|u| < k < |v| && Agrees(u, v, k)
  }

  /** An occurrence of `u` that starts inside another makes `u` end the way it begins. */
  lemma OverlapBorders(t: string, u: string, p: nat, q: nat)
    requires p < q < p + |u| && At(t, u, p) && At(t, u, q)
    ensures Bordered(u)
  {
    var b := p + |u| - q;
    assert u[..b] == t[q..q + |u|][..b] == t[q..p + |u|] == t[p..p + |u|][q - p..] == u[|u| - b..];
  }

  /** An occurrence of `u` that overlaps `v` in `x + v + y`, or straddles the seam, shows how they touch. */
  lemma MeetingTouches(u: string, v: string, x: string, y: string, q: nat)
    requires At(x + v + y, u, q) && |x| < q + |u| && q < |x| + |v|
    ensures Touches(u, v)
  {
    var t, k := x + v + y, q - |x|;
    forall i | 0 <= i < |u| && 0 <= k + i < |v| ensures u[i] == v[k + i] {
      assert u[i] == t[q..q + |u|][i] == t[q + i] == v[k + i];
    }
    assert Agrees(u, v, k);
  }

  // ---------------------------------------------------------------- a pass takes exactly its own blocks

  lemma {:induction false} ReplaceSkips(b: string, rest: string, m: string, r: string)
    requires m != "" && forall q :: 0 <= q < |b| ==> !At(b + rest, m, q)
    ensures Replace(b + rest, m, r) == b + Replace(rest, m, r)
    decreases |b|
  {
    hide Replace, At, Count;
    if b == "" {
      assert b + rest == rest && b + Replace(rest, m, r) == Replace(rest, m, r);
    } else {
      var s := b + rest;
      ReplaceStep(s, m, r);
      assert s[1..] == b[1..] + rest;
      forall q | 0 <= q < |b[1..]| ensures !At(b[1..] + rest, m, q) {
        AtSuffix(s, m, 1, q);
      }
      ReplaceSkips(b[1..], rest, m, r);
      assert [b[0]] + (b[1..] + Replace(rest, m, r)) == b + Replace(rest, m, r);
    }
  }

  lemma PartlyChar(s: string, u: string, newString: string, done: set<string>)
    requires u != "" && s != "" && !Block(s, u)
    ensures Partly(s, u, newString, done) == [s[0]] + Partly(s[1..], u, newString, done)
  {
    hide Block, QuotesPreserved;
  }

  lemma OneMoreLeads(s: string, j: nat, tail: string)
    requires s != "" && j <= |s| - 1
    ensures [s[0]] + (s[1..][..j] + tail) == s[..j + 1] + tail && s[1..][j..] == s[j + 1..]
  {
  }

  /** The characters before the first block stay as they are. */
  lemma {:induction false} Leading(s: string, u: string, newString: string, done: set<string>) returns (k: nat)
    requires u != ""
    ensures k <= |s| && Partly(s, u, newString, done) == s[..k] + Partly(s[k..], u, newString, done)
    ensures k == |s| || Block(s[k..], u)
    ensures s != "" && !Block(s, u) ==> k > 0
    decreases |s|
  {
    hide Block, Partly;
    k := 0;
    if s == "" || Block(s, u) {
      assert s[0..] == s && s[..0] + Partly(s, u, newString, done) == Partly(s, u, newString, done);
    } else {
      var j := Leading(s[1..], u, newString, done);
      PartlyChar(s, u, newString, done);
      OneMoreLeads(s, j, Partly(s[j + 1..], u, newString, done));
      k := j + 1;
    }
  }

  /** Where no block starts, the partly replaced text has no occurrence either. */
  lemma NoneAtHead(s: string, u: string, newString: string, done: set<string>, m: string)
    requires u != "" && s != "" && !Block(s, u) && FoldAll(m) == u
    requires !Bordered(u) && !Touches(u, FoldAll(newString))
    ensures !At(Partly(s, u, newString, done), m, 0)
  {
    hide QuotesPreserved, FoldAll, Touches, Bordered;
    var t := Partly(s, u, newString, done);
    var k := Leading(s, u, newString, done);
    FoldLength(m);
    if k >= |u| {
      assert t[..|u|] == s[..|u|];
      HeadIsBlock(t, s, u, m);
    } else if At(t, m, 0) {
      HeadBeforeBlock(s, k, u, newString, done, m, t);
    }
  }

  lemma HeadIsBlock(t: string, s: string, u: string, m: string)
    requires |s| >= |u| && |t| >= |u| && t[..|u|] == s[..|u|] && |m| == |u| && FoldAll(m) == u
    ensures At(t, m, 0) ==> Block(s, u)
  {
    assert t[0..|m|] == t[..|u|];
  }

  lemma FoldLength(s: string)
    ensures |FoldAll(s)| == |s|
  {
  }

  lemma HeadBeforeBlock(s: string, k: nat, u: string, newString: string, done: set<string>, m: string, t: string)
    requires u != "" && 0 < k < |u| && k <= |s| && (k == |s| || Block(s[k..], u)) && FoldAll(m) == u && At(t, m, 0)
    requires t == s[..k] + Partly(s[k..], u, newString, done)
    ensures Bordered(u) || Touches(u, FoldAll(newString))
  {
    hide QuotesPreserved, FoldAll, Touches, Bordered, At;
    FoldAt(t, m, 0);
    FoldLength(m);
    if k < |s| {
      var b, rest := s[k..][..|u|], Partly(s[k..][|u|..], u, newString, done);
      var put := if b in done then QuotesPreserved(b, newString) else b;
      assert t == s[..k] + put + rest;
      FoldThree(s[..k], put, rest);
      FoldLength(s[..k]);
      if b in done {
        NewFolds(b, newString);
        MeetingTouches(u, FoldAll(newString), FoldAll(s[..k]), FoldAll(rest), 0);
      } else {
        AtMiddle(FoldAll(s[..k]), u, FoldAll(rest));
        OverlapBorders(FoldAll(t), u, 0, k);
      }
    } else {
      TooShort(t, m);
    }
  }

  lemma TooShort(t: string, m: string)
    requires At(t, m, 0)
    ensures |m| <= |t|
  {
  }

  lemma FoldThree(a: string, b: string, c: string)
    ensures FoldAll(a + b + c) == FoldAll(a) + FoldAll(b) + FoldAll(c)
  {
  }

  lemma AtMiddle(a: string, m: string, b: string)
    ensures At(a + m + b, m, |a|)
  {
    assert (a + m + b)[|a|..|a| + |m|] == m;
  }

  /** The pass for candidate `m` over the partly replaced text replaces the blocks that read `m`, and
      nothing else. */
  lemma {:induction false} PassAdvances(s: string, u: string, newString: string, done: set<string>, m: string)
    requires u != "" && !Bordered(u) && !Touches(u, FoldAll(newString)) && FoldAll(m) == u && m !in done && m != ""
    ensures Replace(Partly(s, u, newString, done), m, QuotesPreserved(m, newString)) == Partly(s, u, newString, done + {m})
    decreases |s|
  {
    hide Replace, Count, QuotesPreserved, FoldAll, Bordered, Touches, At;
    var r := QuotesPreserved(m, newString);
    if s == "" {
      ReplaceEmpty(m, r);
    } else if Block(s, u) {
      var b, rest := s[..|u|], Partly(s[|u|..], u, newString, done);
      PassAdvances(s[|u|..], u, newString, done, m);
      FoldLength(m);
      if b == m {
        AtMiddle("", m, rest);
        assert "" + m + rest == m + rest;
        ReplaceStep(m + rest, m, r);
        assert (m + rest)[|m|..] == rest;
      } else {
        var put := if b in done then QuotesPreserved(b, newString) else b;
        forall q | 0 <= q < |put| ensures !At(put + rest, m, q) {
          NoneInBlock(b, put, rest, u, newString, m, q);
        }
        ReplaceSkips(put, rest, m, r);
      }
    } else {
      var t := Partly(s, u, newString, done);
      PassAdvances(s[1..], u, newString, done, m);
      NoneAtHead(s, u, newString, done, m);
      ReplaceStep(t, m, r);
      assert t[1..] == Partly(s[1..], u, newString, done);
    }
  }

  lemma NoneInBlock(b: string, put: string, rest: string, u: string, newString: string, m: string, q: nat)
    requires u != "" && !Bordered(u) && !Touches(u, FoldAll(newString)) && FoldAll(m) == u && FoldAll(b) == u && b != m
    requires put == b || put == QuotesPreserved(b, newString)
    requires q < |put|
    ensures !At(put + rest, m, q)
  {
    hide QuotesPreserved, FoldAll, Bordered, Touches, At;
    if At(put + rest, m, q) {
      FoldLength(m);
      FoldLength(b);
      FoldLength(put);
      FoldAt(put + rest, m, q);
      FoldConcat(put, rest);
      if put == b {
        AtMiddle("", b, rest);
        assert "" + b + rest == b + rest;
        if q == 0 {
          SameAt(b + rest, b, m);
        } else {
          FoldAt(b + rest, b, 0);
          OverlapBorders(FoldAll(b + rest), u, 0, q);
        }
      } else {
        NewFolds(b, newString);
        assert "" + FoldAll(put) + FoldAll(rest) == FoldAll(put) + FoldAll(rest);
        MeetingTouches(u, FoldAll(newString), "", FoldAll(rest), q);
      }
    }
  }

  lemma SameAt(t: string, a: string, b: string)
    requires At(t, a, 0) && At(t, b, 0) && |a| == |b|
    ensures a == b
  {
  }

  /** All passes, in any order of distinct candidates. */
  lemma {:induction false} PassesAdvance(content: string, ms: seq<string>, u: string, oldString: string, newString: string)
    requires u != "" && !Bordered(u) && !Touches(u, FoldAll(newString)) && NoneEmpty(ms)
    requires forall i :: 0 <= i < |ms| ==> FoldAll(ms[i]) == u
    requires forall i, j :: 0 <= i < j < |ms| ==> ms[i] != ms[j]
    ensures ReplaceEach(content, ms, CharNormalized, oldString, newString)
            == Partly(content, u, newString, set m | m in ms)
  {
    hide Replace, Partly, QuotesPreserved, FoldAll, Touches, Bordered;
    if ms == [] {
      NothingDone(content, u, newString);
      assert (set m | m in ms) == {};
    } else {
      var front, m := ms[..|ms| - 1], ms[|ms| - 1];
      PassesAdvance(content, front, u, oldString, newString);
      assert ms == front + [m];
      assert (set x | x in ms) == (set x | x in front) + {m};
      CharReplIs(oldString, newString, m);
      PassAdvances(content, u, newString, (set x | x in front), m);
    }
  }

  // ---------------------------------------------------------------- the class of the character layer

  /** When the character layer wins, and what its class is. */
  lemma CharClass(ratio: Ratio, content: string, oldString: string)
    requires oldString != ""
    ensures var c, u := EquivalenceClass(ratio, content, oldString), FoldAll(oldString);
            && (c.layer == Some(CharNormalized) <==> !Occurs(content, oldString) && Occurs(FoldAll(content), u))
            && (c.layer == Some(CharNormalized) ==>
                 && (forall m :: m in c.matches <==> Occurs(content, m) && FoldAll(m) == u)
                 && (forall i, j :: 0 <= i < j < |c.matches| ==> c.matches[i] != c.matches[j])
                 && c.matches != [] && At(content, c.matches[0], Find(FoldAll(content), u, 0)))
  {
    hide Candidates, FirstSeen, Occurs, FoldAll, Find, At;
    var usable := Usable(CharNormalized, ratio, content, oldString);
    CharUsable(ratio, content, oldString);
    SimpleUsable(ratio, content, oldString);
    SliceWithForm(content, FoldAll(oldString));
    assert REPLACERS[0] == Simple && REPLACERS[1..][0] == CharNormalized;
    assert ClassFrom(ratio, content, oldString, REPLACERS)
           == if Occurs(content, oldString) then Class(Some(Simple), Usable(Simple, ratio, content, oldString))
              else ClassFrom(ratio, content, oldString, REPLACERS[1..]);
    var later := REPLACERS[1..][1..];
    assert ClassFrom(ratio, content, oldString, REPLACERS[1..])
           == if usable != [] then Class(Some(CharNormalized), usable) else ClassFrom(ratio, content, oldString, later);
    LaterLayers();
    LayerAmong(ratio, content, oldString, later);
    forall m | m in usable ensures Occurs(FoldAll(content), FoldAll(oldString)) {
    }
    assert usable != [] ==> usable[0] in usable;
    CharDistinct(ratio, content, oldString);
  }

  lemma CharDistinct(ratio: Ratio, content: string, oldString: string)
    ensures var ms := Usable(CharNormalized, ratio, content, oldString);
            forall i, j :: 0 <= i < j < |ms| ==> ms[i] != ms[j]
  {
    hide FirstSeen, Candidates;
  }

  lemma LayerAmong(ratio: Ratio, content: string, oldString: string, layers: seq<Layer>)
    ensures var c := ClassFrom(ratio, content, oldString, layers); c.layer.Some? ==> c.layer.value in layers
  {
    hide ClassFrom, Usable;
    ClassWinner(ratio, content, oldString, layers);
    var c := ClassFrom(ratio, content, oldString, layers);
    if c.layer.Some? {
      var w: nat :| WinsAt(ratio, content, oldString, layers, w)
                    && c == Class(Some(layers[w]), Usable(layers[w], ratio, content, oldString));
    }
  }

  lemma LaterLayers()
    ensures CharNormalized !in REPLACERS[1..][1..]
  {
  }

  lemma SimpleUsable(ratio: Ratio, content: string, oldString: string)
    requires oldString != ""
    ensures Usable(Simple, ratio, content, oldString) != [] <==> Occurs(content, oldString)
  {
    hide Occurs;
    if Occurs(content, oldString) {
      assert Candidates(Simple, ratio, content, oldString) == [oldString];
      assert oldString in Usable(Simple, ratio, content, oldString);
    }
  }

  /** Text with normal form `u` is in the content exactly when `u` is in its normal form. */
  lemma SliceWithForm(content: string, u: string)
    ensures Occurs(FoldAll(content), u) <==> exists m :: Occurs(content, m) && FoldAll(m) == u
  {
    hide FoldAll;
    if Occurs(FoldAll(content), u) {
      var q :| 0 <= q <= |FoldAll(content)| && At(FoldAll(content), u, q);
      FoldLength(content);
      FoldSlice(content, q, q + |u|);
      assert At(content, content[q..q + |u|], q);
      assert Occurs(content, content[q..q + |u|]);
    }
    forall m | Occurs(content, m) && FoldAll(m) == u ensures Occurs(FoldAll(content), u) {
      var q :| 0 <= q <= |content| && At(content, m, q);
      FoldAt(content, m, q);
      FoldLength(content);
    }
  }

  lemma CharUsable(ratio: Ratio, content: string, oldString: string)
    requires oldString != ""
    ensures var ms, u := Usable(CharNormalized, ratio, content, oldString), FoldAll(oldString);
            && (forall m :: m in ms <==> Occurs(content, m) && FoldAll(m) == u)
            && (ms != [] ==> At(content, ms[0], Find(FoldAll(content), u, 0)))
  {
    hide FirstSeen, Occurs, FoldAll, Find, Spans, At, NText, NSrc;
    var cands, u := Candidates(CharNormalized, ratio, content, oldString), FoldAll(oldString);
    var ms := Usable(CharNormalized, ratio, content, oldString);
    FoldLength(oldString);
    CharNormal(oldString);
    forall m ensures m in ms <==> Occurs(content, m) && FoldAll(m) == u {
      CharCandidate(ratio, content, oldString, m);
    }
    if ms != [] {
      assert ms[0] in ms;
      FirstCandidate(ratio, content, oldString);
      FirstKept(content, cands);
    }
  }

  lemma CharCandidate(ratio: Ratio, content: string, oldString: string, m: string)
    requires oldString != ""
    ensures m in Candidates(CharNormalized, ratio, content, oldString) && Occurs(content, m)
            <==> Occurs(content, m) && FoldAll(m) == FoldAll(oldString)
    ensures FoldAll(m) == FoldAll(oldString) ==> m != ""
  {
    hide FoldAll, Spans, NText, NSrc;
    var spans := Spans(CHAR_TRANSFORMS, content, oldString);
    CharNormal(oldString);
    CharNormal(m);
    FoldLength(m);
    FoldLength(oldString);
    if m in Candidates(CharNormalized, ratio, content, oldString) {
      var _, _ := SpanLayersYieldEquivalents(CharNormalized, ratio, content, oldString, m);
    }
    if Occurs(content, m) && FoldAll(m) == FoldAll(oldString) {
      var q :| 0 <= q <= |content| && At(content, m, q);
      CharSpansExact(content, oldString, q, q + |m|);
      var k :| 0 <= k < |spans| && spans[k] == (q, q + |m|);
      assert Slices(content, spans)[k] == m;
    }
  }

  lemma FirstCandidate(ratio: Ratio, content: string, oldString: string)
    requires oldString != "" && Candidates(CharNormalized, ratio, content, oldString) != []
    ensures var q, u := Find(FoldAll(content), FoldAll(oldString), 0), FoldAll(oldString);
            && 0 <= q && q + |u| <= |content|
            && Candidates(CharNormalized, ratio, content, oldString)[0] == content[q..q + |u|]
            && At(content, content[q..q + |u|], q)
            && Occurs(content, content[q..q + |u|]) && content[q..q + |u|] != ""
  {
    hide Find, SpansFrom, NText, NSrc, Occurs, FoldAll;
    FoldLength(content);
    FoldLength(oldString);
    CharNormal(content);
    CharNormal(oldString);
    var text, src, u := FoldAll(content), UpFrom(0, |content|), FoldAll(oldString);
    FirstSpan(text, src, u);
    SliceOccurs(content, Find(text, u, 0), |u|);
  }

  lemma FirstSpan(text: string, src: seq<nat>, u: string)
    requires |src| == |text| + 1 && u != "" && SpansFrom(text, src, u, 0) != []
    ensures var q := Find(text, u, 0); 0 <= q && q + |u| <= |text| && SpansFrom(text, src, u, 0)[0] == (src[q], src[q + |u|])
  {
    hide Find;
  }

  lemma SliceOccurs(s: string, q: nat, n: nat)
    requires q + n <= |s|
    ensures At(s, s[q..q + n], q) && Occurs(s, s[q..q + n])
  {
    assert At(s, s[q..q + n], q);
  }

  lemma {:induction false} FirstKept(content: string, cands: seq<string>)
    requires cands != [] && cands[0] != "" && Occurs(content, cands[0])
    ensures FirstSeen(content, cands) != [] && FirstSeen(content, cands)[0] == cands[0]
  {
    hide Occurs;
    var front := cands[..|cands| - 1];
    if front != [] {
      FirstKept(content, front);
    }
  }

  // ---------------------------------------------------------------- one candidate

  predicate Foldable(c: char) { c == '\'' || c == '"' || c == '-' || c == ' ' }

  /** More than two strings have the normal form `u`: it has a quote or a dash, or two spaces. */
  predicate ManyForms(u: string) {
    || (exists k :: 0 <= k < |u| && Foldable(u[k]) && u[k] != ' ')
    || (exists i, j :: 0 <= i < j < |u| && u[i] == ' ' && u[j] == ' ')
  }

  lemma FoldBack(c: char)
    ensures Foldable(Fold(c)) || Fold(c) == c
    ensures Fold(c) == ' ' ==> c == ' ' || c == '\U{3000}'
  {
  }

  lemma ThreeForms(u: string, a: string, b: string, c: string)
    requires FoldAll(a) == u && FoldAll(b) == u && FoldAll(c) == u && a != b && a != c && b != c
    ensures ManyForms(u)
  {
    hide Fold, Foldable, ManyForms;
    var i := DiffersAt(u, a, b);
    if u[i] == ' ' {
      FoldBack(a[i]);
      FoldBack(b[i]);
      FoldBack(c[i]);
      if c[i] == a[i] {
        var j := DiffersAt(u, a, c);
        TwoFoldable(u, i, j);
      } else {
        var j := DiffersAt(u, b, c);
        TwoFoldable(u, i, j);
      }
    } else {
      TwoFoldable(u, i, i);
    }
  }

  lemma DiffersAt(u: string, a: string, b: string) returns (i: nat)
    requires FoldAll(a) == u && FoldAll(b) == u && a != b
    ensures i < |u| && |a| == |b| == |u| && a[i] != b[i] && Fold(a[i]) == Fold(b[i]) == u[i] && Foldable(u[i])
  {
    hide Fold, Foldable;
    i :| 0 <= i < |u| && a[i] != b[i];
    assert FoldAll(a)[i] == u[i] && FoldAll(b)[i] == u[i];
    FoldBack(a[i]);
    FoldBack(b[i]);
  }

  lemma TwoFoldable(u: string, i: nat, j: nat)
    requires i < |u| && j < |u| && Foldable(u[i]) && Foldable(u[j]) && (i != j || u[i] != ' ')
    ensures ManyForms(u)
  {
    hide Foldable;
    if u[i] == ' ' && u[j] == ' ' {
      var lo, hi := if i < j then i else j, if i < j then j else i;
      assert lo < hi && u[lo] == ' ' && u[hi] == ' ';
    }
  }

  lemma BlockIsOnly(s: string, u: string, m: string)
    requires FoldAll(m) == u && |m| == |u| && forall x :: Occurs(s, x) && FoldAll(x) == u ==> x == m
    ensures At(s, m, 0) <==> Block(s, u)
  {
    hide FoldAll, Occurs;
    if |s| >= |u| {
      HeadOccurs(s, |u|);
      assert s[0..|m|] == s[..|u|];
    }
  }

  /** With one candidate the single pass is the single replacement. */
  lemma {:induction false} SingleAtOnce(s: string, u: string, newString: string, m: string)
    requires u != "" && m != "" && FoldAll(m) == u && forall x :: Occurs(s, x) && FoldAll(x) == u ==> x == m
    ensures Replace(s, m, QuotesPreserved(m, newString)) == AtOnce(s, u, newString)
    decreases |s|
  {
    hide Replace, Count, QuotesPreserved, FoldAll, Occurs;
    var r := QuotesPreserved(m, newString);
    if s == "" {
      ReplaceEmpty(m, r);
    } else {
      var n := if Block(s, u) then |u| else 1;
      FoldLength(m);
      forall x | Occurs(s[n..], x) && FoldAll(x) == u ensures x == m {
        OccursTail(s, n, x);
      }
      SingleAtOnce(s[n..], u, newString, m);
      ReplaceStep(s, m, r);
      BlockIsOnly(s, u, m);
    }
  }

  // ---------------------------------------------------------------- the sufficient condition

  /** The passes of replace_all over any content are one replacement. */
  predicate PassesIndependent(u: string, v: string) {
    !ManyForms(u) || (!Bordered(u) && !Touches(u, v))
  }

  /** When the normal form of the old text has no border and can touch neither the normal form of the
      new text nor the seam it leaves, or when it has at most two forms, replace_all in the character
      layer is one left-to-right replacement of everything with that normal form; on normal forms it is
      Python's replace. */
  lemma AllAtOnce(ratio: Ratio, content: string, oldString: string, newString: string)
    requires EquivalenceClass(ratio, content, oldString).layer == Some(CharNormalized)
    requires oldString != "" && oldString != newString
    requires PassesIndependent(FoldAll(oldString), FoldAll(newString))
    ensures var u, result := FoldAll(oldString), AtOnce(content, FoldAll(oldString), newString);
            && Replacement(ratio, content, oldString, newString, true) == Success(result)
            && FoldAll(result) == Replace(FoldAll(content), u, FoldAll(newString))
  {
    hide EquivalenceClass, Replacement, ReplaceEach, Replace, FoldAll, Occurs, QuotesPreserved, AtOnce, ManyForms, Bordered, Touches, Find, At;
    var u, ms := FoldAll(oldString), EquivalenceClass(ratio, content, oldString).matches;
    FoldLength(oldString);
    CharClass(ratio, content, oldString);
    ReplaceAllOutcome(ratio, content, oldString, newString);
    AtOnceFolds(content, u, newString);
    forall i | 0 <= i < |ms| ensures FoldAll(ms[i]) == u {
      assert ms[i] in ms;
    }
    if !Bordered(u) && !Touches(u, FoldAll(newString)) {
      PassesAdvance(content, ms, u, oldString, newString);
      AllDone(content, u, newString, (set m | m in ms));
    } else {
      if |ms| >= 2 {
        TwoForms(content, ms, oldString);
      }
      var m := ms[0];
      assert ms == [m];
      SingleAtOnce(content, u, newString, m);
      CharReplIs(oldString, newString, m);
      OnePass(content, m, oldString, newString);
    }
  }

  lemma TwoForms(content: string, ms: seq<string>, oldString: string)
    requires |ms| >= 2 && ms[0] != ms[1] && !Occurs(content, oldString)
    requires forall m :: m in ms <==> Occurs(content, m) && FoldAll(m) == FoldAll(oldString)
    ensures ManyForms(FoldAll(oldString))
  {
    hide FoldAll, Occurs, ManyForms;
    assert ms[0] in ms && ms[1] in ms;
    ThreeForms(FoldAll(oldString), ms[0], ms[1], oldString);
  }

  lemma OnePass(content: string, m: string, oldString: string, newString: string)
    requires m != ""
    ensures ReplaceEach(content, [m], CharNormalized, oldString, newString)
            == Replace(content, m, ReplFor(CharNormalized, oldString, newString, m))
  {
    hide Replace, ReplFor;
    assert [m][..0] == [];
  }
}
