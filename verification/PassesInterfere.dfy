// backend/editing/edit.py, replace_all in the character layer: contents over which its passes interfere.
module PassesInterfere {
  import opened Wrappers
  import opened Text
  import opened Normalize
  import opened Replacers
  import opened Indent
  import opened Edit
  import opened AllAtOnce

  // ---------------------------------------------------------------- other forms of a normal text

  predicate Normal(s: string) { FoldAll(s) == s }

  /** A character that folds to `c`, is none of the quotes that restoration looks for, and occurs in no
      normal form. */
  function Marker(c: char): char {
    match c
    case '\'' => '\U{201B}'
    case '"' => '\U{201F}'
    case '-' => '\U{2010}'
    case ' ' => '\U{3000}'
    case _ => c
  }

  lemma MarkerForm(c: char)
    requires Foldable(c)
    ensures Fold(Marker(c)) == c && Marker(c) != c
  {
  }

  function Marked(s: string, p: nat): string
    requires p < |s|
  {
    s[p := Marker(s[p])]
  }

  lemma MarkedForm(s: string, p: nat)
    requires Normal(s) && p < |s| && Foldable(s[p])
    ensures FoldAll(Marked(s, p)) == s && Marked(s, p) != s && Marker(s[p]) !in s
    ensures forall i :: 0 <= i < |s| && i != p ==> Marked(s, p)[i] == s[i] && s[i] != Marker(s[p])
  {
    MarkerForm(s[p]);
    forall i | 0 <= i < |s| ensures s[i] != Marker(s[p]) {
      assert FoldAll(s)[i] == Fold(s[i]);
    }
  }

  lemma NormalLacks(s: string, c: char)
    requires Normal(s) && Fold(c) != c
    ensures c !in s
  {
    forall i | 0 <= i < |s| ensures s[i] != c {
      assert FoldAll(s)[i] == Fold(s[i]);
    }
  }

  lemma NormalConcat(a: string, b: string)
    requires Normal(a) && Normal(b)
    ensures Normal(a + b)
  {
    FoldConcat(a, b);
  }

  lemma NormalSlice(s: string, i: nat, j: nat)
    requires Normal(s) && i <= j <= |s|
    ensures Normal(s[i..j])
  {
    FoldSlice(s, i, j);
  }

  lemma {:induction false} NormalReplace(s: string, m: string, r: string)
    requires m != "" && Normal(s) && Normal(r)
    ensures Normal(Replace(s, m, r))
    decreases |s|
  {
    hide Replace, Count, FoldAll, At;
    if s == "" {
      ReplaceEmpty(m, r);
    } else {
      ReplaceStep(s, m, r);
      if At(s, m, 0) {
        AtFits(s, m, 0);
        NormalSlice(s, |m|, |s|);
        assert s[|m|..|s|] == s[|m|..];
        NormalReplace(s[|m|..], m, r);
        NormalConcat(r, Replace(s[|m|..], m, r));
      } else {
        NormalSlice(s, 1, |s|);
        NormalSlice(s, 0, 1);
        assert s[1..|s|] == s[1..] && s[0..1] == [s[0]];
        NormalReplace(s[1..], m, r);
        NormalConcat([s[0]], Replace(s[1..], m, r));
      }
    }
  }

  lemma AtFits(s: string, m: string, q: int)
    requires At(s, m, q)
    ensures 0 <= q && q + |m| <= |s|
  {
  }

  /** The first place of `u` that can be written in another way. */
  lemma FirstPlace(u: string) returns (p: nat)
    requires ManyForms(u)
    ensures p < |u| && Foldable(u[p]) && forall i :: 0 <= i < p ==> !Foldable(u[i])
  {
    p := 0;
    while !Foldable(u[p])
      invariant p < |u| && forall i :: 0 <= i < p ==> !Foldable(u[i])
      invariant exists k :: p <= k < |u| && Foldable(u[k])
      decreases |u| - p
    {
      p := p + 1;
    }
  }

  /** A third form, besides `u` itself and `u` marked at `p`. */
  lemma ThirdForm(u: string, p: nat) returns (z: string)
    requires Normal(u) && ManyForms(u) && p < |u| && Foldable(u[p])
    ensures FoldAll(z) == u && z != u && z != Marked(u, p)
  {
    MarkedForm(u, p);
    if exists j :: 0 <= j < |u| && j != p && Foldable(u[j]) {
      var j :| 0 <= j < |u| && j != p && Foldable(u[j]);
      z := Marked(u, j);
      MarkedForm(u, j);
    } else {
      var c := if u[p] == '\'' then '\U{201A}' else if u[p] == '"' then '\U{201E}' else '\U{2011}';
      z := u[p := c];
      assert u[p] != ' ';
      assert forall i :: 0 <= i < |u| ==> FoldAll(u)[i] == Fold(u[i]);
    }
  }

  // ---------------------------------------------------------------- replacements that can be computed

  lemma ReplaceNone(s: string, m: string, r: string)
    requires m != "" && forall q :: 0 <= q < |s| ==> !At(s, m, q)
    ensures Replace(s, m, r) == s
  {
    hide Replace, At, Count;
    assert s + "" == s;
    ReplaceSkips(s, "", m, r);
    ReplaceEmpty(m, r);
  }

  lemma ReplaceShort(s: string, m: string, r: string)
    requires |s| < |m|
    ensures Replace(s, m, r) == s
  {
    hide Replace;
    ReplaceNone(s, m, r);
  }

  /** A character that `m` has and `s` lacks keeps `m` out of `s`. */
  lemma ReplaceLacking(s: string, m: string, r: string, c: char)
    requires c in m && c !in s
    ensures Replace(s, m, r) == s
  {
    hide Replace;
    var p :| 0 <= p < |m| && m[p] == c;
    forall q | 0 <= q < |s| ensures !At(s, m, q) {
      if q + |m| <= |s| {
        assert s[q..q + |m|][p] == s[q + p];
      }
    }
    ReplaceNone(s, m, r);
  }

  /** With a character that occurs nowhere else, `m` is replaced where it stands. */
  lemma ReplaceMarked(a: string, m: string, b: string, p: nat, r: string)
    requires p < |m| && m[p] !in a && m[p] !in b && forall i :: 0 <= i < |m| && i != p ==> m[i] != m[p]
    ensures Replace(a + m + b, m, r) == a + r + b
  {
    hide Replace, Count;
    var t := m + b;
    assert a + m + b == a + t;
    forall q | 0 <= q < |a| ensures !At(a + t, m, q) {
      if q + |m| <= |a + t| {
        MarkerStays(a, m, b, p, q);
        assert (a + t)[q..q + |m|][p] == (a + t)[q + p];
      }
    }
    ReplaceSkips(a, t, m, r);
    assert t[0..|m|] == m && t[|m|..] == b;
    ReplaceStep(t, m, r);
    ReplaceLacking(b, m, r, m[p]);
  }

  lemma MarkerStays(a: string, m: string, b: string, p: nat, q: nat)
    requires p < |m| && m[p] !in a && m[p] !in b && forall i :: 0 <= i < |m| && i != p ==> m[i] != m[p]
    requires q + p < |a| + |m| + |b| && q != |a|
    ensures (a + (m + b))[q + p] != m[p]
  {
    var t, i := a + (m + b), q + p;
    if i < |a| {
      assert t[i] == a[i] && a[i] in a;
    } else if i < |a| + |m| {
      assert t[i] == m[i - |a|];
    } else {
      assert t[i] == b[i - |a| - |m|] && b[i - |a| - |m|] in b;
    }
  }

  /** No occurrence of `u` straddles the seam between `a` and `b`. */
  predicate Apart(a: string, b: string, u: string) {
    forall q :: 0 <= q < |a| < q + |u| ==> !At(a + b, u, q)
  }

  lemma {:induction false} ReplaceApart(a: string, b: string, u: string, r: string)
    requires u != "" && Apart(a, b, u)
    ensures Replace(a + b, u, r) == Replace(a, u, r) + Replace(b, u, r)
    decreases |a|
  {
    hide Replace, Count, At;
    if a == "" {
      assert a + b == b && "" + Replace(b, u, r) == Replace(b, u, r);
      ReplaceEmpty(u, r);
    } else {
      ReplaceStep(a + b, u, r);
      ReplaceStep(a, u, r);
      ApartHead(a, b, u);
      var n := if At(a, u, 0) then |u| else 1;
      AtFitsIf(a, u);
      assert (a + b)[n..] == a[n..] + b;
      forall q | 0 <= q < |a[n..]| < q + |u| ensures !At(a[n..] + b, u, q) {
        AtSuffix(a + b, u, n, q);
      }
      ReplaceApart(a[n..], b, u, r);
    }
  }

  lemma AtFitsIf(s: string, m: string)
    ensures At(s, m, 0) ==> |m| <= |s|
  {
  }

  lemma ApartHead(a: string, b: string, u: string)
    requires a != "" && Apart(a, b, u)
    ensures At(a + b, u, 0) <==> At(a, u, 0)
  {
    if |u| <= |a| {
      assert (a + b)[0..|u|] == a[0..|u|];
    }
  }

  /** A letter that is neither the first nor the last character of `u`. */
  function Sep(u: string): (c: char)
    requires u != ""
    ensures c != u[0] && c != u[|u| - 1] && Fold(c) == c && 'a' <= c <= 'c'
  {
    if 'a' != u[0] && 'a' != u[|u| - 1] then 'a'
    else if 'b' != u[0] && 'b' != u[|u| - 1] then 'b'
    else 'c'
  }

  function Gap(u: string): (g: string)
    requires u != ""
    ensures |g| == |u| && Normal(g) && forall i :: 0 <= i < |g| ==> g[i] == Sep(u)
  {
    var g := seq(|u|, _ => Sep(u));
    assert FoldAll(g) == g;
    g
  }

  /** No occurrence of `u` reaches into the gap. */
  lemma GapOcc(a: string, u: string, b: string, q: nat)
    requires u != "" && At(a + Gap(u) + b, u, q)
    ensures q + |u| <= |a| || q >= |a| + |u|
  {
    var t := a + Gap(u) + b;
    assert forall i :: |a| <= i < |a| + |u| ==> t[i] == Gap(u)[i - |a|];
    assert t[q..q + |u|][0] == t[q] && t[q..q + |u|][|u| - 1] == t[q + |u| - 1];
  }

  lemma ReplaceGap(a: string, u: string, b: string, r: string)
    requires u != ""
    ensures Replace(a + Gap(u) + b, u, r) == Replace(a, u, r) + Gap(u) + Replace(b, u, r)
  {
    hide Replace, Gap;
    var g := Gap(u);
    assert a + g + b == a + (g + b);
    forall q | 0 <= q < |a| < q + |u| ensures !At(a + (g + b), u, q) {
      if At(a + g + b, u, q) {
        GapOcc(a, u, b, q);
      }
    }
    ReplaceApart(a, g + b, u, r);
    forall q | 0 <= q < |g| < q + |u| ensures !At(g + b, u, q) {
      GapStart(u, b, q);
    }
    ReplaceApart(g, b, u, r);
    forall q | 0 <= q < |g| ensures !At(g, u, q) {
      GapStart(u, "", q);
      assert g + "" == g;
    }
    ReplaceNone(g, u, r);
  }

  lemma GapStart(u: string, b: string, q: nat)
    requires u != "" && q < |u|
    ensures !At(Gap(u) + b, u, q)
  {
    assert "" + Gap(u) + b == Gap(u) + b;
    if At(Gap(u) + b, u, q) {
      GapOcc("", u, b, q);
    }
  }

  /** Replacing makes a text longer or shorter with each occurrence. */
  lemma {:induction false} ReplaceGrows(s: string, m: string, r: string)
    requires m != ""
    ensures |r| >= |m| ==> |Replace(s, m, r)| >= |s|
    ensures |r| <= |m| ==> |Replace(s, m, r)| <= |s|
    decreases |s|
  {
    hide Find;
    if Find(s, m, 0) >= 0 {
      FoundInside(s, m);
      ReplaceGrows(s[Find(s, m, 0) + |m|..], m, r);
    }
  }

  /** Replacing an occurrence by something else changes the text. */
  lemma ReplaceChanges(s: string, m: string, r: string)
    requires m != "" && r != m && Occurs(s, m)
    ensures Replace(s, m, r) != s
  {
    hide Find, Replace, At;
    OccursFind(s, m);
    var q := Find(s, m, 0);
    FoundInside(s, m);
    ReplaceUnfold(s, m, r);
    var rest := s[q + |m|..];
    ReplaceGrows(rest, m, r);
    if |r| == |m| {
      AtSlice(s, m, q);
      assert (s[..q] + r + Replace(rest, m, r))[q..q + |m|] == r;
    }
  }

  lemma AtSlice(s: string, m: string, q: int)
    requires At(s, m, q)
    ensures s[q..q + |m|] == m
  {
  }

  // ---------------------------------------------------------------- a class of two candidates

  lemma Quiet(m: string, newString: string)
    requires !HasDoubleCurly(m) && !HasSingleCurly(m)
    ensures QuotesPreserved(m, newString) == newString
  {
  }

  lemma MarkedQuiet(u: string, p: nat)
    requires Normal(u) && p < |u| && Foldable(u[p])
    ensures !HasDoubleCurly(u) && !HasSingleCurly(u)
    ensures !HasDoubleCurly(Marked(u, p)) && !HasSingleCurly(Marked(u, p))
  {
    hide FoldAll;
    NormalLacks(u, '\U{201C}');
    NormalLacks(u, '\U{201D}');
    NormalLacks(u, '\U{2018}');
    NormalLacks(u, '\U{2019}');
  }

  /** The content has `m1` and `m2` where their normal form occurs, and `m1` first. */
  ghost predicate TwoReadings(content: string, u: string, m1: string, q1: nat, m2: string, q2: nat) {
    && u != "" && m1 != m2 && FoldAll(m1) == u && FoldAll(m2) == u && At(content, m1, q1) && At(content, m2, q2)
    && forall q :: At(FoldAll(content), u, q) ==> q1 <= q && (At(content, m1, q) || At(content, m2, q))
  }

  lemma ReadingOf(content: string, u: string, m1: string, q1: nat, m2: string, q2: nat, m: string)
    requires TwoReadings(content, u, m1, q1, m2, q2) && Occurs(content, m) && FoldAll(m) == u
    ensures m == m1 || m == m2
  {
    hide FoldAll;
    var q :| 0 <= q <= |content| && At(content, m, q);
    FoldAt(content, m, q);
    FoldLength(m);
    FoldLength(m1);
    FoldLength(m2);
  }

  lemma ClassOfTwo(ratio: Ratio, content: string, oldString: string, m1: string, q1: nat, m2: string, q2: nat)
    requires TwoReadings(content, FoldAll(oldString), m1, q1, m2, q2) && oldString != m1 && oldString != m2
    ensures EquivalenceClass(ratio, content, oldString) == Class(Some(CharNormalized), [m1, m2])
  {
    hide EquivalenceClass, FoldAll, Occurs, Find, At;
    var u := FoldAll(oldString);
    var c := EquivalenceClass(ratio, content, oldString);
    FoldLength(oldString);
    CharClass(ratio, content, oldString);
    OccursAt(content, m1, q1);
    OccursAt(content, m2, q2);
    SliceWithForm(content, u);
    if Occurs(content, oldString) {
      ReadingOf(content, u, m1, q1, m2, q2, oldString);
    }
    FoldAt(content, m1, q1);
    FirstIs(FoldAll(content), u, q1);
    forall m | m in c.matches ensures m == m1 || m == m2 {
      ReadingOf(content, u, m1, q1, m2, q2, m);
    }
    FoldLength(m1);
    FoldLength(c.matches[0]);
    assert c.matches[0] in c.matches;
    SameAtPlace(content, c.matches[0], m1, q1);
    ListOfTwo(c.matches, m1, m2);
  }

  lemma OccursAt(s: string, m: string, q: nat)
    requires At(s, m, q)
    ensures Occurs(s, m)
  {
  }

  lemma SameAtPlace(t: string, a: string, b: string, q: nat)
    requires At(t, a, q) && At(t, b, q) && |a| == |b|
    ensures a == b
  {
  }

  lemma FirstIs(t: string, u: string, q: nat)
    requires At(t, u, q) && forall k :: At(t, u, k) ==> q <= k
    ensures Find(t, u, 0) == q
  {
    hide At;
  }

  lemma ListOfTwo(ms: seq<string>, m1: string, m2: string)
    requires ms != [] && ms[0] == m1 && m2 in ms && m1 != m2
    requires forall m :: m in ms ==> m == m1 || m == m2
    requires forall i, j :: 0 <= i < j < |ms| ==> ms[i] != ms[j]
    ensures ms == [m1, m2]
  {
    var j :| 0 <= j < |ms| && ms[j] == m2;
    var last := |ms| - 1;
    assert ms[1] in ms && ms[last] in ms;
    SameIndex(ms, if ms[1] == m1 then 0 else j, 1);
    SameIndex(ms, if ms[last] == m1 then 0 else j, last);
  }

  lemma SameIndex(ms: seq<string>, i: nat, j: nat)
    requires forall i, j :: 0 <= i < j < |ms| ==> ms[i] != ms[j]
    requires i < |ms| && j < |ms| && ms[i] == ms[j]
    ensures i == j
  {
  }

  lemma TwoPassOutcome(ratio: Ratio, content: string, oldString: string, newString: string, m1: string, m2: string)
    requires oldString != "" && oldString != newString && m1 != "" && m2 != ""
    requires EquivalenceClass(ratio, content, oldString) == Class(Some(CharNormalized), [m1, m2])
    requires QuotesPreserved(m1, newString) == newString && QuotesPreserved(m2, newString) == newString
    ensures Replacement(ratio, content, oldString, newString, true)
            == Success(Replace(Replace(content, m1, newString), m2, newString))
  {
    hide EquivalenceClass, Replacement, Replace, QuotesPreserved, ReplaceEach;
    ReplaceAllOutcome(ratio, content, oldString, newString);
    CharReplIs(oldString, newString, m1);
    CharReplIs(oldString, newString, m2);
    EachOfTwo(content, m1, m2, oldString, newString);
  }

  lemma EachOfTwo(content: string, m1: string, m2: string, oldString: string, newString: string)
    requires m1 != "" && m2 != ""
    ensures ReplaceEach(content, [m1, m2], CharNormalized, oldString, newString)
            == Replace(Replace(content, m1, ReplFor(CharNormalized, oldString, newString, m1)), m2,
                       ReplFor(CharNormalized, oldString, newString, m2))
  {
    hide Replace, ReplFor;
    assert [m1, m2][..1] == [m1];
    OnePass(content, m1, oldString, newString);
  }

  // ---------------------------------------------------------------- replace_all as one replacement

  /** If the character layer wins, replacing all yields Python's replace on normal forms. */
  ghost predicate OneReplacement(ratio: Ratio, content: string, oldString: string, newString: string) {
    oldString != "" && oldString != newString && EquivalenceClass(ratio, content, oldString).layer == Some(CharNormalized)
    ==>
      var r := Replacement(ratio, content, oldString, newString, true);
      r.Success? && FoldAll(r.value) == Replace(FoldAll(content), FoldAll(oldString), FoldAll(newString))
  }

  /** How a content shows that it is not: the two passes leave something else. */
  lemma TwoPassesFail(ratio: Ratio, content: string, oldString: string, v: string, u: string, p: nat, first: bool, q1: nat, q2: nat)
    requires u != "" && Normal(u) && p < |u| && Foldable(u[p]) && FoldAll(oldString) == u && u != v
    requires oldString != u && oldString != Marked(u, p) && Normal(v)
    requires var m1, m2 := if first then Marked(u, p) else u, if first then u else Marked(u, p);
             && TwoReadings(content, u, m1, q1, m2, q2)
             && FoldAll(Replace(Replace(content, m1, v), m2, v)) != Replace(FoldAll(content), u, v)
    ensures !OneReplacement(ratio, content, oldString, v)
  {
    hide EquivalenceClass, Replacement, Replace, TwoReadings, FoldAll, QuotesPreserved, HasDoubleCurly, HasSingleCurly;
    var m1, m2 := if first then Marked(u, p) else u, if first then u else Marked(u, p);
    FoldLength(oldString);
    ClassOfTwo(ratio, content, oldString, m1, q1, m2, q2);
    MarkedQuiet(u, p);
    Quiet(m1, v);
    Quiet(m2, v);
    TwoPassOutcome(ratio, content, oldString, v, m1, m2);
    assert oldString != v;
  }

  // ---------------------------------------------------------------- inserted text that the old text can touch

  function Before(u: string, k: int): string
    requires -|u| < k
  {
    if k < 0 then u[..-k] else ""
  }

  function Behind(u: string, v: string, k: int): string
    requires -|u| < k < |v|
  {
    if k + |u| > |v| then u[|v| - k..] else ""
  }

  /** With the right neighbours, `v` makes `u` occur. */
  lemma TouchOccurs(u: string, v: string, k: int)
    requires -|u| < k < |v| && Agrees(u, v, k)
    ensures At(Before(u, k) + v + Behind(u, v, k), u, if k < 0 then 0 else k)
  {
    var x, s := Before(u, k) + v + Behind(u, v, k), if k < 0 then 0 else k;
    assert |x| >= s + |u|;
    forall t | 0 <= t < |u| ensures x[s + t] == u[t] {
      if 0 <= k + t < |v| {
        assert u[t] == v[k + t];
      }
    }
    assert x[s..s + |u|] == u;
  }

  /** The text that gets an unwanted occurrence, and a copy of `u` to put `u` into the class. */
  function TouchContent(u: string, v: string, k: int, p: nat): string
    requires -|u| < k < |v| && p < |u|
  {
    Before(u, k) + Marked(u, p) + (Behind(u, v, k) + Gap(u) + u)
  }

  /** In `a + u + c` with short neighbours, `u` occurs in the middle only. */
  lemma OnlyMiddle(a: string, u: string, c: string, q: nat)
    requires |a| < |u| && |c| < |u| && At(a + u + c, u, q) && (!Bordered(u) || (a == "" && c == ""))
    ensures q == |a|
  {
    hide Bordered;
    AtMiddle(a, u, c);
    if q < |a| {
      OverlapBorders(a + u + c, u, q, |a|);
    } else if q > |a| {
      OverlapBorders(a + u + c, u, |a|, q);
    }
  }

  lemma Neighbours(u: string, v: string, k: int)
    requires u != "" && Normal(u) && -|u| < k < |v|
    ensures Normal(Before(u, k)) && |Before(u, k)| < |u| && Normal(Behind(u, v, k)) && |Behind(u, v, k)| < |u|
    ensures 0 <= k && k + |u| <= |v| ==> Before(u, k) == "" && Behind(u, v, k) == ""
  {
    hide FoldAll;
    NormalEmpty();
    if k < 0 {
      NormalSlice(u, 0, -k);
      assert u[0..-k] == u[..-k];
    }
    if k + |u| > |v| {
      NormalSlice(u, |v| - k, |u|);
      assert u[|v| - k..|u|] == u[|v| - k..];
    }
  }

  lemma AroundFolds(a: string, u: string, c: string, p: nat)
    requires Normal(a) && Normal(u) && Normal(c) && p < |u| && Foldable(u[p])
    ensures FoldAll(a + Marked(u, p) + (c + Gap(u) + u)) == (a + u + c) + Gap(u) + u
  {
    hide FoldAll, Gap, Marked;
    MarkedForm(u, p);
    FoldThree(c, Gap(u), u);
    FoldThree(a, Marked(u, p), c + Gap(u) + u);
    assert a + u + (c + Gap(u) + u) == (a + u + c) + Gap(u) + u;
  }

  lemma AroundPlaces(a: string, u: string, c: string, q: nat)
    requires u != "" && |a| < |u| && |c| < |u| && (!Bordered(u) || (a == "" && c == ""))
    requires At((a + u + c) + Gap(u) + u, u, q)
    ensures q == |a| || q == |a| + |u| + |c| + |u|
  {
    hide Bordered, Gap, At;
    var f := (a + u + c) + Gap(u) + u;
    AtFits(f, u, q);
    GapOcc(a + u + c, u, u, q);
    if q + |u| <= |a + u + c| {
      assert f == (a + u + c) + (Gap(u) + u);
      AtPrefix(a + u + c, Gap(u) + u, u, q);
      OnlyMiddle(a, u, c, q);
    }
  }

  lemma AtLast(a: string, u: string)
    ensures At(a + u, u, |a|)
  {
    assert (a + u)[|a|..|a| + |u|] == u;
  }

  lemma AroundReadings(a: string, u: string, c: string, p: nat)
    requires Normal(a) && Normal(u) && Normal(c) && p < |u| && Foldable(u[p])
    requires |a| < |u| && |c| < |u| && (!Bordered(u) || (a == "" && c == ""))
    ensures TwoReadings(a + Marked(u, p) + (c + Gap(u) + u), u, Marked(u, p), |a|, u, |a| + |u| + |c| + |u|)
  {
    hide FoldAll, Bordered, Gap, Marked, At;
    var m, g := Marked(u, p), Gap(u);
    var content := a + m + (c + g + u);
    MarkedForm(u, p);
    AroundFolds(a, u, c, p);
    AtMiddle(a, m, c + g + u);
    assert content == (a + m + (c + g)) + u;
    AtLast(a + m + (c + g), u);
    forall q | At(FoldAll(content), u, q) ensures |a| <= q && (At(content, m, q) || At(content, u, q)) {
      AtFits(FoldAll(content), u, q);
      AroundPlaces(a, u, c, q);
    }
  }

  lemma TouchReadings(u: string, v: string, k: int, p: nat)
    requires Normal(u) && p < |u| && Foldable(u[p]) && -|u| < k < |v|
    requires !Bordered(u) || (0 <= k && k + |u| <= |v|)
    ensures var a, c := Before(u, k), Behind(u, v, k);
            && FoldAll(TouchContent(u, v, k, p)) == (a + u + c) + Gap(u) + u
            && TwoReadings(TouchContent(u, v, k, p), u, Marked(u, p), |a|, u, |a| + |u| + |c| + |u|)
  {
    hide FoldAll, Bordered, Gap, Marked, At, Before, Behind, TwoReadings, Foldable;
    Neighbours(u, v, k);
    AroundFolds(Before(u, k), u, Behind(u, v, k), p);
    AroundReadings(Before(u, k), u, Behind(u, v, k), p);
  }

  lemma NormalEmpty()
    ensures Normal("")
  {
  }

  lemma AtPrefix(a: string, b: string, u: string, q: nat)
    requires q + |u| <= |a| && At(a + b, u, q)
    ensures At(a, u, q)
  {
    assert (a + b)[q..q + |u|] == a[q..q + |u|];
  }

  lemma ReplaceWhole(u: string, r: string)
    requires u != ""
    ensures Replace(u, u, r) == r
  {
    hide Replace;
    AtMiddle("", u, "");
    assert "" + u + "" == u && u[|u|..] == "";
    ReplaceStep(u, u, r);
    ReplaceEmpty(u, r);
    assert r + "" == r;
  }

  lemma ReplaceMiddle(a: string, u: string, c: string, r: string)
    requires |a| < |u| && |c| < |u| && (!Bordered(u) || (a == "" && c == ""))
    ensures Replace(a + u + c, u, r) == a + r + c
  {
    hide Replace, Bordered, At;
    assert a + u + c == a + (u + c);
    forall q | 0 <= q < |a| ensures !At(a + (u + c), u, q) {
      if At(a + u + c, u, q) {
        OnlyMiddle(a, u, c, q);
      }
    }
    ReplaceSkips(a, u + c, u, r);
    AtMiddle("", u, c);
    assert "" + u + c == u + c && (u + c)[|u|..] == c;
    ReplaceStep(u + c, u, r);
    ReplaceShort(c, u, r);
  }

  lemma AroundPasses(a: string, u: string, c: string, p: nat, v: string)
    requires Normal(a) && Normal(u) && Normal(c) && p < |u| && Foldable(u[p])
    ensures Replace(Replace(a + Marked(u, p) + (c + Gap(u) + u), Marked(u, p), v), u, v)
            == Replace(a + v + c, u, v) + Gap(u) + v
  {
    hide Replace, FoldAll, Gap, Marked;
    var m, g := Marked(u, p), Gap(u);
    MarkedForm(u, p);
    MarkerAbsent(u, p, a);
    NormalConcat(c, g);
    NormalConcat(c + g, u);
    MarkerAbsent(u, p, c + g + u);
    MarkedAt(u, p);
    ReplaceMarked(a, m, c + g + u, p, v);
    assert a + v + (c + g + u) == (a + v + c) + g + u;
    ReplaceGap(a + v + c, u, u, v);
    ReplaceWhole(u, v);
  }

  lemma MarkedAt(u: string, p: nat)
    requires p < |u|
    ensures |Marked(u, p)| == |u| && Marked(u, p)[p] == Marker(u[p])
  {
  }

  lemma MarkerAbsent(u: string, p: nat, s: string)
    requires p < |u| && Foldable(u[p]) && Normal(s)
    ensures Marker(u[p]) !in s
  {
    MarkerForm(u[p]);
    NormalLacks(s, Marker(u[p]));
  }

  /** When `u` can lie over `v`, the pass for `u` takes an occurrence that an earlier pass has made. */
  lemma TouchFails(ratio: Ratio, u: string, v: string, k: int) returns (oldString: string, content: string)
    requires Normal(u) && Normal(v) && ManyForms(u) && u != v && -|u| < k < |v| && Agrees(u, v, k)
    requires !Bordered(u) || (0 <= k && k + |u| <= |v|)
    ensures FoldAll(oldString) == u && !OneReplacement(ratio, content, oldString, v)
  {
    hide Replace, Bordered, FoldAll, ManyForms, Gap, Marked, OneReplacement, TwoReadings, Agrees, At, Before, Behind;
    var p := FirstPlace(u);
    oldString := ThirdForm(u, p);
    content := TouchContent(u, v, k, p);
    var a, c, g := Before(u, k), Behind(u, v, k), Gap(u);
    var x := a + v + c;
    Neighbours(u, v, k);
    TouchReadings(u, v, k, p);
    AroundPasses(a, u, c, p, v);
    NormalConcat(a, v);
    NormalConcat(a + v, c);
    TouchOccurs(u, v, k);
    AtFits(x, u, if k < 0 then 0 else k);
    OccursAt(x, u, if k < 0 then 0 else k);
    ReplaceChanges(x, u, v);
    var y := Replace(x, u, v);
    NormalReplace(x, u, v);
    NormalConcat(y, g);
    NormalConcat(y + g, v);
    assert FoldAll(content) == (a + u + c) + g + u;
    ReplaceGap(a + u + c, u, u, v);
    ReplaceMiddle(a, u, c, v);
    ReplaceWhole(u, v);
    SameEnds(y, x, g + v);
    assert y + g + v == y + (g + v) && x + g + v == x + (g + v);
    TwoPassesFail(ratio, content, oldString, v, u, p, true, |a|, |a| + |u| + |c| + |u|);
  }

  lemma SameEnds(a: string, b: string, c: string)
    ensures a + c == b + c ==> a == b
  {
    if a + c == b + c {
      assert (a + c)[..|a|] == a && (b + c)[..|b|] == b;
    }
  }

  // ---------------------------------------------------------------- old text that overlaps itself

  /** `u` ends with its first `b` characters. */
  predicate HasBorder(u: string, b: nat) { 0 < b < |u| && u[..b] == u[|u| - b..] }

  lemma LongestBorder(u: string) returns (b: nat)
    requires Bordered(u)
    ensures HasBorder(u, b) && forall c :: b < c ==> !HasBorder(u, c)
  {
    var w :| 0 < w < |u| && u[..w] == u[|u| - w..];
    assert HasBorder(u, w);
    b := |u|;
    while !HasBorder(u, b)
      invariant w <= b && forall c :: b < c ==> !HasBorder(u, c)
      decreases b
    {
      b := b - 1;
    }
  }

  /** Overlapping occurrences of `u` at distance `d` give it a border of the rest. */
  lemma OverlapIs(t: string, u: string, p: nat, q: nat)
    requires p < q < p + |u| && At(t, u, p) && At(t, u, q)
    ensures HasBorder(u, p + |u| - q)
  {
    var b := p + |u| - q;
    assert u[..b] == t[q..q + |u|][..b] == t[q..p + |u|] == t[p..p + |u|][q - p..] == u[|u| - b..];
  }

  /** The first place with another form lies before any repetition. */
  lemma PlaceInPeriod(u: string, p: nat, b: nat)
    requires p < |u| && Foldable(u[p]) && (forall i :: 0 <= i < p ==> !Foldable(u[i])) && HasBorder(u, b)
    ensures p < |u| - b
  {
    var d := |u| - b;
    forall k | d <= k < |u| ensures u[k] == u[k - d] {
      assert u[d..][k - d] == u[..b][k - d];
    }
  }

  /** `u` moved on by its period. */
  lemma Rotates(u: string, b: nat)
    requires HasBorder(u, b)
    ensures u[..|u| - b] + u == u + u[b..] && u == u[|u| - b..] + u[b..]
  {
    var d := |u| - b;
    assert u[d..] == u[..b];
    forall i | d <= i < |u| ensures u[i] == u[i - d] {
      assert u[d..][i - d] == u[..b][i - d];
    }
    assert u == u[..b] + u[b..];
  }

  /** Two words that the same step moves on agree from the left ... */
  lemma {:induction false} AgreeLeft(e: string, u: string, v: string, f: string, k: nat)
    requires e != "" && e + u == u + f && e + v == v + f && k < |u| && k < |v|
    ensures u[k] == v[k]
    decreases k
  {
    assert (e + u)[k] == (u + f)[k] == u[k] && (e + v)[k] == (v + f)[k] == v[k];
    if k >= |e| {
      AgreeLeft(e, u, v, f, k - |e|);
    }
  }

  /** ... and from the right. */
  lemma {:induction false} AgreeRight(e: string, u: string, v: string, f: string, k: nat)
    requires e != "" && |e| == |f| && e + u == u + f && e + v == v + f && k < |u| && k < |v|
    ensures u[|u| - 1 - k] == v[|v| - 1 - k]
    decreases k
  {
    var i, j := |e| + |u| - 1 - k, |e| + |v| - 1 - k;
    assert (e + u)[i] == (u + f)[i] && (e + v)[j] == (v + f)[j];
    if k >= |e| {
      AgreeRight(e, u, v, f, k - |e|);
    }
  }

  /** `e + u` has `u` at its start and behind `e` only, if `e` is the smallest period. */
  lemma OnlyTwo(u: string, b: nat, q: nat)
    requires HasBorder(u, b) && (forall c :: b < c ==> !HasBorder(u, c)) && At(u[..|u| - b] + u, u, q)
    ensures q == 0 || q == |u| - b
  {
    hide At;
    var e := u[..|u| - b];
    Rotates(u, b);
    AtMiddle("", u, u[b..]);
    assert "" + u + u[b..] == e + u;
    AtFits(e + u, u, q);
    if 0 < q < |u| {
      OverlapIs(e + u, u, 0, q);
    }
  }

  /** A content whose class begins with the occurrence that stands second in an overlap. */
  function PeriodContent(u: string, b: nat, p: nat): string
    requires HasBorder(u, b) && p < |u| - b
  {
    u + Gap(u) + (Marked(u[..|u| - b], p) + u)
  }

  lemma MarkedFront(u: string, d: nat, p: nat)
    requires p < d <= |u|
    ensures Marked(u[..d], p) + u[d..] == Marked(u, p) && |Marked(u[..d], p)| == d
  {
  }

  /** The overlap as it is written: marked in front, plain behind. */
  lemma PeriodText(u: string, b: nat, p: nat)
    requires Normal(u) && HasBorder(u, b) && p < |u| - b && Foldable(u[p])
    ensures var e := u[..|u| - b];
            && FoldAll(Marked(e, p) + u) == e + u && Marker(e[p]) == Marker(u[p])
            && Marked(e, p) + u == Marked(u, p) + u[b..]
  {
    hide FoldAll, Marked;
    var d := |u| - b;
    var e := u[..d];
    NormalSlice(u, 0, d);
    assert u[0..d] == e;
    MarkedForm(e, p);
    FoldConcat(Marked(e, p), u);
    Rotates(u, b);
    MarkedFront(u, d, p);
    assert Marked(e, p) + (u[d..] + u[b..]) == Marked(e, p) + u[d..] + u[b..];
  }

  lemma PeriodFolds(u: string, b: nat, p: nat)
    requires Normal(u) && HasBorder(u, b) && p < |u| - b && Foldable(u[p])
    ensures FoldAll(PeriodContent(u, b, p)) == u + Gap(u) + (u[..|u| - b] + u)
  {
    hide FoldAll, Gap, Marked;
    PeriodText(u, b, p);
    FoldThree(u, Gap(u), Marked(u[..|u| - b], p) + u);
  }

  lemma PeriodPlaces(u: string, b: nat, q: nat)
    requires HasBorder(u, b) && (forall c :: b < c ==> !HasBorder(u, c))
    requires At(u + Gap(u) + (u[..|u| - b] + u), u, q)
    ensures q == 0 || q == 2 * |u| || q == 3 * |u| - b
  {
    hide Gap, At;
    var e := u[..|u| - b];
    GapOcc(u, u, e + u, q);
    AtFits(u + Gap(u) + (e + u), u, q);
    if q >= 2 * |u| {
      AtBehind(u + Gap(u), e + u, u, q);
      OnlyTwo(u, b, q - 2 * |u|);
    }
  }

  lemma AtHead(t: string, m: string, b: string)
    requires t == m + b
    ensures At(t, m, 0)
  {
    assert t[0..|m|] == m;
  }

  lemma AtTail(t: string, a: string, m: string)
    requires t == a + m
    ensures At(t, m, |a|)
  {
    assert t[|a|..|a| + |m|] == m;
  }

  lemma Assoc(a: string, b: string, c: string)
    ensures (a + b) + c == a + (b + c)
  {
  }

  lemma PeriodHas(u: string, b: nat, p: nat)
    requires Normal(u) && HasBorder(u, b) && p < |u| - b && Foldable(u[p])
    ensures var content := PeriodContent(u, b, p);
            At(content, u, 0) && At(content, Marked(u, p), 2 * |u|) && At(content, u, 3 * |u| - b)
  {
    PeriodText(u, b, p);
    MarkedAt(u[..|u| - b], p);
    PeriodPlaced(u, Gap(u), Marked(u[..|u| - b], p), Marked(u, p), u[b..], PeriodContent(u, b, p), 2 * |u|, 3 * |u| - b);
  }

  lemma PeriodPlaced(u: string, g: string, me: string, m: string, z: string, t: string, q: nat, r: nat)
    requires me + u == m + z && t == u + g + (me + u) && q == |u| + |g| && r == q + |me|
    ensures At(t, u, 0) && At(t, m, q) && At(t, u, r)
  {
    hide At;
    PlacesInThree(u, g, me, u, m, z);
  }

  lemma PlacesInThree(u: string, g: string, me: string, w: string, m: string, z: string)
    requires me + w == m + z
    ensures var t := u + g + (me + w); At(t, u, 0) && At(t, m, |u| + |g|) && At(t, w, |u| + |g| + |me|)
  {
    hide At;
    var t := u + g + (me + w);
    Assoc(u, g, me + w);
    AtHead(t, u, g + (me + w));
    Assoc(u + g, me, w);
    AtTail(t, u + g + me, w);
    Assoc(u + g, m, z);
    AtMiddle(u + g, m, z);
  }

  lemma PeriodReadings(u: string, b: nat, p: nat)
    requires Normal(u) && HasBorder(u, b) && (forall c :: b < c ==> !HasBorder(u, c)) && p < |u| - b && Foldable(u[p])
    ensures TwoReadings(PeriodContent(u, b, p), u, u, 0, Marked(u, p), 2 * |u|)
  {
    hide FoldAll, Gap, Marked, At, PeriodContent, HasBorder;
    MarkedForm(u, p);
    PeriodFolds(u, b, p);
    PeriodHas(u, b, p);
    var content := PeriodContent(u, b, p);
    forall q | At(FoldAll(content), u, q) ensures 0 <= q && (At(content, u, q) || At(content, Marked(u, p), q)) {
      AtFits(FoldAll(content), u, q);
      PeriodPlaces(u, b, q);
    }
  }

  lemma AtBehind(a: string, b: string, u: string, q: nat)
    requires |a| <= q && At(a + b, u, q)
    ensures At(b, u, q - |a|)
  {
    assert (a + b)[q..q + |u|] == b[q - |a|..q - |a| + |u|];
  }

  /** The first pass takes the plain copy in the overlap. */
  lemma PeriodFirstPass(u: string, b: nat, p: nat, v: string)
    requires Normal(u) && HasBorder(u, b) && (forall c :: b < c ==> !HasBorder(u, c)) && p < |u| - b && Foldable(u[p])
    ensures Replace(PeriodContent(u, b, p), u, v) == v + Gap(u) + (Marked(u[..|u| - b], p) + v)
  {
    hide Replace, FoldAll, Gap, Marked, At;
    var e := u[..|u| - b];
    var me := Marked(e, p);
    ReplaceGap(u, u, me + u, v);
    ReplaceWhole(u, v);
    MarkedAt(e, p);
    forall q | 0 <= q < |me| ensures !At(me + u, u, q) {
      PlainNotBefore(u, b, p, q);
    }
    ReplaceSkips(me, u, u, v);
  }

  lemma PlainNotBefore(u: string, b: nat, p: nat, q: nat)
    requires Normal(u) && HasBorder(u, b) && (forall c :: b < c ==> !HasBorder(u, c)) && p < |u| - b && Foldable(u[p])
    requires q < |u| - b
    ensures !At(Marked(u[..|u| - b], p) + u, u, q)
  {
    hide FoldAll, Marked, At;
    var e := u[..|u| - b];
    var w := Marked(e, p) + u;
    PeriodText(u, b, p);
    MarkedAt(e, p);
    MarkerForm(u[p]);
    if q == 0 {
      DiffersNotAt(w, u, 0, p);
    } else if At(w, u, q) {
      FoldAt(w, u, q);
      OnlyTwo(u, b, q);
    }
  }

  lemma DiffersNotAt(t: string, u: string, q: nat, p: nat)
    requires p < |u| && q + p < |t| && t[q + p] != u[p]
    ensures !At(t, u, q)
  {
    if q + |u| <= |t| {
      assert t[q..q + |u|][p] == t[q + p];
    }
  }

  /** The second pass finds its candidate in the overlap, if at all. */
  lemma PeriodSecondPass(u: string, b: nat, p: nat, v: string)
    requires Normal(u) && Normal(v) && HasBorder(u, b) && p < |u| - b && Foldable(u[p])
    ensures var me, m := Marked(u[..|u| - b], p), Marked(u, p);
            var text := v + Gap(u) + (me + v);
            Replace(text, m, v) == if At(me + v, m, 0) then v + Gap(u) + v + (me + v)[|u|..] else text
  {
    hide Replace, FoldAll, Gap, Marked, At;
    var e, m, g := u[..|u| - b], Marked(u, p), Gap(u);
    var me := Marked(e, p);
    MarkedForm(u, p);
    MarkedAt(u, p);
    MarkedAt(e, p);
    assert e[p] == u[p];
    NormalSlice(u, 0, |e|);
    assert u[0..|e|] == e;
    MarkedForm(e, p);
    NormalConcat(v, g);
    MarkerAbsent(u, p, v + g);
    MarkerAbsent(u, p, v);
    if At(me + v, m, 0) {
      TakeAgain(v + g, me, v, m, p);
    } else {
      NotTaken(v + g, me, v, m, p);
    }
  }

  lemma TakeAgain(a: string, me: string, v: string, m: string, p: nat)
    requires p < |m| && m[p] !in a && m[p] !in v && (forall i :: 0 <= i < |m| && i != p ==> m[i] != m[p])
    requires |me| <= |m| && At(me + v, m, 0)
    ensures |me + v| >= |m| && Replace(a + (me + v), m, v) == a + v + (me + v)[|m|..]
  {
    hide Replace, At;
    AtSlice(me + v, m, 0);
    AtFits(me + v, m, 0);
    var z := (me + v)[|m|..];
    assert me + v == m + z && z == v[|m| - |me|..];
    assert forall c :: c in z ==> c in v;
    ReplaceMarked(a, m, z, p, v);
    Assoc(a, m, z);
  }

  lemma NotTaken(a: string, me: string, v: string, m: string, p: nat)
    requires p < |m| && p < |me| && m[p] == me[p] && m[p] !in a && m[p] !in v
    requires forall i :: 0 <= i < |me| && i != p ==> me[i] != m[p]
    requires !At(me + v, m, 0)
    ensures Replace(a + (me + v), m, v) == a + (me + v)
  {
    hide Replace, At;
    var t := a + (me + v);
    forall q | 0 <= q < |t| ensures !At(t, m, q) {
      OnlyMarkedPlace(a, me, v, m, p, q);
    }
    ReplaceNone(t, m, v);
  }

  lemma OnlyMarkedPlace(a: string, me: string, v: string, m: string, p: nat, q: nat)
    requires p < |m| && p < |me| && m[p] == me[p] && m[p] !in a && m[p] !in v
    requires forall i :: 0 <= i < |me| && i != p ==> me[i] != m[p]
    requires !At(me + v, m, 0)
    ensures !At(a + (me + v), m, q)
  {
    var t := a + (me + v);
    if q == |a| {
      if At(t, m, q) {
        AtBehind(a, me + v, m, q);
      }
    } else if q + |m| <= |t| {
      MarkerStays(a, me, v, p, q);
      assert t[q..q + |m|][p] == t[q + p];
    }
  }

  /** Unless `v` moves on by the same step as `u`, the passes over an overlap go wrong. */
  lemma PeriodFails(ratio: Ratio, u: string, v: string, b: nat, p: nat) returns (oldString: string, content: string)
    requires Normal(u) && Normal(v) && ManyForms(u) && u != v && p < |u| && Foldable(u[p])
    requires HasBorder(u, b) && (forall c :: b < c ==> !HasBorder(u, c)) && p < |u| - b
    requires u[..|u| - b] + v != v + u[b..]
    ensures FoldAll(oldString) == u && !OneReplacement(ratio, content, oldString, v)
  {
    hide Replace, HasBorder, FoldAll, ManyForms, Gap, Marked, OneReplacement, TwoReadings, At, PeriodContent;
    oldString := ThirdForm(u, p);
    content := PeriodContent(u, b, p);
    var e, m, g := u[..|u| - b], Marked(u, p), Gap(u);
    PeriodFolds(u, b, p);
    PeriodReadings(u, b, p);
    PeriodFirstPass(u, b, p, v);
    PeriodSecondPass(u, b, p, v);
    PeriodTarget(u, b, v);
    PeriodOutcome(u, b, p, v);
    TwoPassesFail(ratio, content, oldString, v, u, p, false, 0, 2 * |u|);
  }

  lemma PeriodTarget(u: string, b: nat, v: string)
    requires HasBorder(u, b)
    ensures Replace(u + Gap(u) + (u[..|u| - b] + u), u, v) == v + Gap(u) + (v + u[b..])
  {
    hide Replace, Gap, At;
    Rotates(u, b);
    ReplaceGap(u, u, u + u[b..], v);
    ReplaceWhole(u, v);
    AtMiddle("", u, u[b..]);
    assert "" + u + u[b..] == u + u[b..] && (u + u[b..])[|u|..] == u[b..];
    ReplaceStep(u + u[b..], u, v);
    ReplaceShort(u[b..], u, v);
  }

  lemma PeriodOutcome(u: string, b: nat, p: nat, v: string)
    requires Normal(u) && Normal(v) && u != v && HasBorder(u, b) && p < |u| - b && Foldable(u[p])
    requires u[..|u| - b] + v != v + u[b..]
    ensures var me, m := Marked(u[..|u| - b], p), Marked(u, p);
            var outcome := if At(me + v, m, 0) then v + Gap(u) + v + (me + v)[|u|..] else v + Gap(u) + (me + v);
            FoldAll(outcome) != v + Gap(u) + (v + u[b..])
  {
    hide FoldAll, Gap, At, Marked;
    var e, m := u[..|u| - b], Marked(u, p);
    var me := Marked(e, p);
    NormalSlice(u, 0, |e|);
    assert u[0..|e|] == e;
    MarkedForm(e, p);
    MarkedAt(e, p);
    MarkedAt(u, p);
    if At(me + v, m, 0) {
      FoundAgain(u, b, p, me, v);
    } else {
      NotFoundAgain(u, v, me, e, u[b..]);
    }
  }

  lemma NotFoundAgain(u: string, v: string, me: string, e: string, f: string)
    requires u != "" && Normal(v) && FoldAll(me) == e && e + v != v + f
    ensures FoldAll(v + Gap(u) + (me + v)) != v + Gap(u) + (v + f)
  {
    hide FoldAll, Gap;
    FoldConcat(me, v);
    FoldThree(v, Gap(u), me + v);
    Cancel(v + Gap(u), e + v, v + f);
  }

  lemma FoundAgain(u: string, b: nat, p: nat, me: string, v: string)
    requires HasBorder(u, b) && Normal(v) && u != v && |me| == |u| - b && p < |me| && At(me + v, Marked(u, p), 0)
    ensures |me + v| >= |u| && FoldAll(v + Gap(u) + v + (me + v)[|u|..]) != v + Gap(u) + (v + u[b..])
  {
    MarkedAt(u, p);
    hide FoldAll, Gap, At, Marked;
    AtSlice(me + v, Marked(u, p), 0);
    AtFits(me + v, Marked(u, p), 0);
    MarkedTail(u, |me|, p, me, v);
    Rotates(u, b);
    var z := v[b..];
    assert (me + v)[|u|..] == z && v == v[..b] + z;
    NormalSlice(v, b, |v|);
    assert v[b..|v|] == z;
    FoldThree(v, Gap(u), v);
    FoldConcat(v + Gap(u) + v, z);
    Cancel(v + Gap(u) + v, z, u[b..]);
    Assoc(v + Gap(u), v, u[b..]);
  }

  lemma Cancel(a: string, x: string, y: string)
    ensures a + x == a + y ==> x == y
  {
    if a + x == a + y {
      assert (a + x)[|a|..] == x && (a + y)[|a|..] == y;
    }
  }

  /** Where the marked candidate is found again, `v` starts the way `u` goes on behind its period. */
  lemma MarkedTail(u: string, d: nat, p: nat, me: string, v: string)
    requires p < d <= |u| && |me| == d && |me + v| >= |u| && (me + v)[0..|u|] == Marked(u, p)
    ensures v[..|u| - d] == u[d..]
  {
    assert forall i :: p < i < |u| ==> Marked(u, p)[i] == u[i];
    forall i | 0 <= i < |u| - d ensures v[i] == u[d + i] {
      assert (me + v)[0..|u|][d + i] == v[i];
    }
  }

  // ---------------------------------------------------------------- a border put in place of the text

  /** Two copies that overlap by `v`. */
  function BorderContent(u: string, v: string, p: nat): string
    requires HasBorder(u, |v|) && p < |u|
  {
    Marked(u, p) + u[|v|..]
  }

  /** Behind the mark, the content reads like its normal form. */
  lemma BorderText(u: string, v: string, p: nat)
    requires HasBorder(u, |v|) && p < |u|
    ensures var content, f := BorderContent(u, v, p), u + u[|v|..];
            |content| == |f| && forall i :: p < i < |f| ==> content[i] == f[i]
  {
  }

  lemma AtCarries(f: string, content: string, u: string, p: nat, q: nat)
    requires At(f, u, q) && p < q && |content| == |f| && forall i :: p < i < |f| ==> content[i] == f[i]
    ensures At(content, u, q)
  {
    assert content[q..q + |u|] == f[q..q + |u|];
  }

  lemma BorderPlaces(u: string, v: string, p: nat, q: nat)
    requires HasBorder(u, |v|)
    requires p < |u| && Foldable(u[p]) && forall i :: 0 <= i < p ==> !Foldable(u[i])
    requires At(u + u[|v|..], u, q)
    ensures q == 0 || At(BorderContent(u, v, p), u, q)
  {
    hide At, Foldable, BorderContent;
    var f := u + u[|v|..];
    AtFits(f, u, q);
    if q > 0 {
      AtHead(f, u, u[|v|..]);
      OverlapIs(f, u, 0, q);
      PlaceInPeriod(u, p, |u| - q);
      BorderText(u, v, p);
      AtCarries(f, BorderContent(u, v, p), u, p, q);
    }
  }

  lemma BorderOverlap(u: string, v: string)
    requires HasBorder(u, |v|)
    ensures At(u + u[|v|..], u, |u| - |v|)
  {
    var d := |u| - |v|;
    assert u + u[|v|..] == u[..d] + u[d..] + u[|v|..] == u[..d] + (u[..|v|] + u[|v|..]) == u[..d] + u;
    AtTail(u + u[|v|..], u[..d], u);
  }

  lemma BorderReadings(u: string, v: string, p: nat)
    requires Normal(u) && HasBorder(u, |v|) && p < |u|
    requires Foldable(u[p]) && forall i :: 0 <= i < p ==> !Foldable(u[i])
    ensures FoldAll(BorderContent(u, v, p)) == u + u[|v|..]
    ensures TwoReadings(BorderContent(u, v, p), u, Marked(u, p), 0, u, |u| - |v|)
  {
    MarkedForm(u, p);
    hide FoldAll, At, Foldable, Marked;
    var content, m := BorderContent(u, v, p), Marked(u, p);
    NormalSlice(u, |v|, |u|);
    assert u[|v|..|u|] == u[|v|..];
    FoldConcat(m, u[|v|..]);
    AtHead(content, m, u[|v|..]);
    BorderOverlap(u, v);
    hide BorderContent;
    BorderPlaces(u, v, p, |u| - |v|);
    forall q | At(FoldAll(content), u, q) ensures 0 <= q && (At(content, m, q) || At(content, u, q)) {
      AtFits(FoldAll(content), u, q);
      BorderPlaces(u, v, p, q);
    }
  }

  lemma BorderPasses(u: string, v: string, p: nat)
    requires Normal(u) && HasBorder(u, |v|) && u[..|v|] == v && p < |u| && Foldable(u[p])
    ensures Replace(Replace(BorderContent(u, v, p), Marked(u, p), v), u, v) == v
  {
    assert 0 < |v| < |u|;
    hide FoldAll, Replace, Foldable, Marked, HasBorder;
    var m, c := Marked(u, p), u[|v|..];
    assert v + c == u;
    BorderFirstPass(u, c, p, v);
    ReplaceWhole(u, v);
  }

  lemma BorderFirstPass(u: string, c: string, p: nat, v: string)
    requires Normal(u) && p < |u| && Foldable(u[p]) && forall i :: 0 <= i < |c| ==> c[i] in u
    ensures Replace(Marked(u, p) + c, Marked(u, p), v) == v + c
  {
    hide FoldAll, Replace, Foldable, Marked, Marker, Fold, Normal;
    MarkedForm(u, p);
    MarkedAt(u, p);
    MarkerAbsent(u, p, u);
    ReplaceMarkedHead(Marked(u, p), c, p, v);
  }

  lemma ReplaceMarkedHead(m: string, c: string, p: nat, v: string)
    requires p < |m| && m[p] !in c && forall i :: 0 <= i < |m| && i != p ==> m[i] != m[p]
    ensures Replace(m + c, m, v) == v + c
  {
    hide Replace;
    NilConcat(m);
    NilConcat(v);
    ReplaceMarked("", m, c, p, v);
  }

  lemma NilConcat(s: string)
    ensures "" + s == s && s + "" == s
  {
  }

  lemma BorderTarget(u: string, v: string)
    requires HasBorder(u, |v|) && u[..|v|] == v
    ensures Replace(u + u[|v|..], u, v) == u
  {
    hide Replace, At;
    var c := u[|v|..];
    AtHead(u + c, u, c);
    assert (u + c)[|u|..] == c;
    ReplaceStep(u + c, u, v);
    ReplaceShort(c, u, v);
  }

  lemma BorderFails(ratio: Ratio, u: string, v: string, p: nat) returns (oldString: string, content: string)
    requires Normal(u) && Normal(v) && ManyForms(u) && u != v && HasBorder(u, |v|) && u[..|v|] == v
    requires p < |u| && Foldable(u[p]) && forall i :: 0 <= i < p ==> !Foldable(u[i])
    ensures FoldAll(oldString) == u && !OneReplacement(ratio, content, oldString, v)
  {
    hide Replace, FoldAll, ManyForms, Marked, OneReplacement, TwoReadings, At, Foldable, BorderContent;
    oldString := ThirdForm(u, p);
    BorderOverlap(u, v);
    content := BorderContent(u, v, p);
    BorderReadings(u, v, p);
    BorderPasses(u, v, p);
    BorderTarget(u, v);
    TwoPassesFail(ratio, content, oldString, v, u, p, true, 0, |u| - |v|);
  }

  // ---------------------------------------------------------------- nothing put in place of a power

  /** Two marked halves with a plain copy between them: taking the copy out leaves text that was no
      candidate. `d` is the period. */
  function PowerContent(u: string, d: nat, p: nat): string
    requires u != "" && 2 * d <= |u| && p < d
  {
    u + Gap(u) + (Marked(u[..d], p) + (u + Marked(u[d..], p)))
  }

  /** What is left of the halves. */
  function Leftover(u: string, d: nat, p: nat): string
    requires 2 * d <= |u| && p < d
  {
    Marked(u[..d], p) + Marked(u[d..], p)
  }

  lemma HalvesFold(u: string, d: nat, p: nat)
    requires Normal(u) && 2 * d <= |u| && p < d && Foldable(u[p]) && Foldable(u[d + p])
    ensures FoldAll(Marked(u[..d], p)) == u[..d] && FoldAll(Marked(u[d..], p)) == u[d..]
  {
    NormalSlice(u, 0, d);
    NormalSlice(u, d, |u|);
    assert u[0..d] == u[..d] && u[d..|u|] == u[d..];
    MarkedForm(u[..d], p);
    MarkedForm(u[d..], p);
  }

  /** `u[..d]` also ends `u`, so `u` goes on behind it as from its start. */
  lemma PowerTurns(u: string, b: nat)
    requires HasBorder(u, b) && u[..|u| - b] == u[b..]
    ensures u[..|u| - b] + (u + u[|u| - b..]) == u + u
  {
    var d := |u| - b;
    Rotates(u, b);
    assert u[..d] + (u + u[d..]) == (u[..d] + u) + u[d..];
    assert u + (u[..d] + u[d..]) == u + u[..d] + u[d..];
  }

  lemma PowerFolds(u: string, b: nat, p: nat)
    requires Normal(u) && HasBorder(u, b) && u[..|u| - b] == u[b..] && 2 * (|u| - b) <= |u| && p < |u| - b
    requires Foldable(u[p]) && Foldable(u[|u| - b + p])
    ensures FoldAll(PowerContent(u, |u| - b, p)) == u + Gap(u) + (u + u)
    ensures FoldAll(Leftover(u, |u| - b, p)) == u
  {
    var d := |u| - b;
    HalvesFold(u, d, p);
    PowerTurns(u, b);
    hide FoldAll, Gap, Marked, Foldable, HasBorder;
    var x, y := Marked(u[..d], p), Marked(u[d..], p);
    FoldConcat(x, y);
    assert u[..d] + u[d..] == u;
    FoldConcat(u, y);
    FoldConcat(x, u + y);
    FoldThree(u, Gap(u), x + (u + y));
  }

  /** Characters at the marked places of the middle part, and nowhere else. */
  lemma PowerMarks(u: string, d: nat, p: nat)
    requires Normal(u) && 2 * d <= |u| && p < d && Foldable(u[p]) && u[d + p] == u[p]
    ensures var y, mu := Marked(u[..d], p) + (u + Marked(u[d..], p)), Marker(u[p]);
            && |y| == 2 * |u| && y[p] == mu && (forall i :: 0 <= i < |y| && i != p && i != d + |u| + p ==> y[i] != mu)
    ensures var z, mu := Leftover(u, d, p), Marker(u[p]);
            |z| == |u| && z[p] == mu && z[d + p] == mu
  {
    MarkedForm(u, p);
    MarkedAt(u[..d], p);
    MarkedAt(u[d..], p);
    var x, m, y := Marked(u[..d], p), Marked(u[d..], p), Marked(u[..d], p) + (u + Marked(u[d..], p));
    forall i | 0 <= i < |y| && i != p && i != d + |u| + p ensures y[i] != Marker(u[p]) {
      if i < d {
        assert y[i] == x[i] == u[i];
      } else if i < d + |u| {
        assert y[i] == u[i - d];
      } else {
        assert y[i] == m[i - d - |u|] == u[i - |u|];
      }
    }
  }

  /** The leftover is not there beforehand. */
  lemma LeftoverAbsent(u: string, b: nat, p: nat)
    requires Normal(u) && HasBorder(u, b) && u[..|u| - b] == u[b..] && 2 * (|u| - b) <= |u| && p < |u| - b
    requires Foldable(u[p]) && u[|u| - b + p] == u[p]
    ensures !Occurs(PowerContent(u, |u| - b, p), Leftover(u, |u| - b, p))
  {
    var d := |u| - b;
    PowerFolds(u, b, p);
    PowerMarks(u, d, p);
    MarkerAbsent(u, p, u);
    MarkedTwiceAbsent(u, Marked(u[..d], p) + (u + Marked(u[d..], p)), Leftover(u, d, p), p, d);
  }

  lemma MarkedTwiceAbsent(u: string, y: string, z: string, p: nat, d: nat)
    requires u != "" && 2 * d <= |u| && p < d && |z| == |u| && |y| == 2 * |u| && z[p] == z[d + p] && z[p] !in u
    requires FoldAll(u + Gap(u) + y) == u + Gap(u) + (u + u) && FoldAll(z) == u
    requires forall i :: 0 <= i < |y| && i != p && i != d + |u| + p ==> y[i] != z[p]
    ensures !Occurs(u + Gap(u) + y, z)
  {
    hide FoldAll, Gap, At;
    var content := u + Gap(u) + y;
    forall q | 0 <= q <= |content| ensures !At(content, z, q) {
      if q == 0 {
        NotPlain(u, u + Gap(u), y, z, p);
      } else if 2 * |u| <= q <= 3 * |u| {
        TwoMarksApart(y, z, z[p], p, d + p, d + |u| + p, q - 2 * |u|);
        if At(content, z, q) {
          AtBehind(u + Gap(u), y, z, q);
        }
      } else if At(content, z, q) {
        FoldAt(content, z, q);
        AtFits(content, z, q);
        GapOcc(u, u, u + u, q);
      }
    }
  }

  lemma NotPlain(u: string, head: string, y: string, z: string, p: nat)
    requires p < |u| <= |head| && head[..|u|] == u && |z| == |u| && z[p] !in u
    ensures !At(head + y, z, 0)
  {
    assert (head + y)[p] == head[..|u|][p] == u[p] && u[p] in u;
    DiffersNotAt(head + y, z, 0, p);
  }

  lemma TwoMarksApart(y: string, z: string, mu: char, i: nat, j: nat, k: nat, q: nat)
    requires i < j < |z| && z[i] == mu && z[j] == mu
    requires forall c :: 0 <= c < |y| && c != i && c != k ==> y[c] != mu
    requires q + |z| <= |y| && k - i >= |z|
    ensures !At(y, z, q)
  {
    if q == 0 || q == k - i {
      DiffersNotAt(y, z, q, j);
    } else {
      DiffersNotAt(y, z, q, i);
    }
  }

  /** The first pass takes the plain copy between the halves. */
  lemma PowerFirstPass(u: string, x: string, y: string)
    requires |y| < |u| && forall q :: 0 <= q < |x| ==> !At(x + u, u, q)
    ensures Replace(u + Gap(u) + (x + (u + y)), u, "") == Gap(u) + (x + y)
  {
    hide Replace, Gap, At;
    ReplaceGap(u, u, x + (u + y), "");
    ReplaceWhole(u, "");
    TakeMiddle(u, x, y);
    NilConcat(Gap(u));
  }

  lemma TakeMiddle(u: string, x: string, y: string)
    requires |y| < |u| && forall q :: 0 <= q < |x| ==> !At(x + u, u, q)
    ensures Replace(x + (u + y), u, "") == x + y
  {
    hide Replace, At;
    forall q | 0 <= q < |x| ensures !At(x + (u + y), u, q) {
      FrontOnly(x, u, y, q);
    }
    ReplaceSkips(x, u + y, u, "");
    AtHead(u + y, u, y);
    DropHead(u, y);
    ReplaceStep(u + y, u, "");
    ReplaceShort(y, u, "");
    NilConcat(y);
  }

  lemma DropHead(a: string, b: string)
    ensures (a + b)[|a|..] == b
  {
  }

  lemma FrontOnly(x: string, u: string, y: string, q: nat)
    requires q < |x| && !At(x + u, u, q)
    ensures !At(x + (u + y), u, q)
  {
    if At(x + (u + y), u, q) {
      Assoc(x, u, y);
      AtPrefix(x + u, y, u, q);
    }
  }

  /** Passes for candidates that are not there change nothing. */
  lemma {:induction false} IdlePasses(text: string, ms: seq<string>, oldString: string, newString: string)
    requires NoneEmpty(ms) && forall i :: 0 <= i < |ms| ==> !Occurs(text, ms[i])
    ensures ReplaceEach(text, ms, CharNormalized, oldString, newString) == text
  {
    hide Replace, ReplFor, Occurs;
    if ms != [] {
      var m := ms[|ms| - 1];
      IdlePasses(text, ms[..|ms| - 1], oldString, newString);
      NoOccurrence(text, m, ReplFor(CharNormalized, oldString, newString, m));
    }
  }

  lemma NoOccurrence(text: string, m: string, r: string)
    requires m != "" && !Occurs(text, m)
    ensures Replace(text, m, r) == text
  {
    hide Replace, At;
    ReplaceNone(text, m, r);
  }

  lemma {:induction false} EachFromHead(content: string, m: string, ms: seq<string>, oldString: string, newString: string)
    requires m != "" && NoneEmpty(ms) && NoneEmpty([m] + ms)
    ensures ReplaceEach(content, [m] + ms, CharNormalized, oldString, newString)
            == ReplaceEach(Replace(content, m, ReplFor(CharNormalized, oldString, newString, m)), ms, CharNormalized, oldString, newString)
  {
    hide Replace, ReplFor;
    if ms == [] {
      assert [m] + [] == [m];
      OnePass(content, m, oldString, newString);
    } else {
      var front := ms[..|ms| - 1];
      assert ([m] + ms)[..|[m] + ms| - 1] == [m] + front;
      EachFromHead(content, m, front, oldString, newString);
    }
  }

  /** What the class of the power content is: the plain copy first, and candidates that are not in what is left. */
  lemma PowerClass(ratio: Ratio, u: string, y: string, z: string)
    requires u != "" && FoldAll(u + Gap(u) + y) == u + Gap(u) + (u + u) && FoldAll(z) == u && Normal(u)
    requires !Occurs(u + Gap(u) + y, z)
    ensures var c := EquivalenceClass(ratio, u + Gap(u) + y, z);
            && c.layer == Some(CharNormalized) && c.matches != [] && c.matches[0] == u
            && (forall m :: m in c.matches && m != u ==> m != "" && !Occurs(Gap(u) + z, m))
            && (forall i, j :: 0 <= i < j < |c.matches| ==> c.matches[i] != c.matches[j])
  {
    hide EquivalenceClass, FoldAll, Gap, At, Occurs, Find;
    var content, f := u + Gap(u) + y, u + Gap(u) + (u + u);
    FoldLength(z);
    CharClass(ratio, content, z);
    Assoc(u, Gap(u), u + u);
    AtHead(f, u, Gap(u) + (u + u));
    OccursAt(f, u, 0);
    Assoc(u, Gap(u), y);
    AtHead(content, u, Gap(u) + y);
    FromStart(f, u);
    FirstIs(f, u, 0);
    var c := EquivalenceClass(ratio, content, z);
    assert c.matches[0] in c.matches;
    FoldLength(c.matches[0]);
    SameAtPlace(content, c.matches[0], u, 0);
    forall m | m in c.matches && m != u ensures m != "" && !Occurs(Gap(u) + z, m) {
      FoldLength(m);
      if Occurs(Gap(u) + z, m) {
        LeftoverOnly(u, z, m);
      }
    }
  }

  lemma FromStart(t: string, u: string)
    ensures forall k :: At(t, u, k) ==> 0 <= k
  {
  }

  lemma LeftoverOnly(u: string, z: string, m: string)
    requires u != "" && FoldAll(z) == u && FoldAll(m) == u && Occurs(Gap(u) + z, m)
    ensures m == z
  {
    hide FoldAll, Gap, At;
    var g := Gap(u);
    var q :| 0 <= q <= |g + z| && At(g + z, m, q);
    FoldAt(g + z, m, q);
    FoldConcat(g, z);
    FoldLength(m);
    FoldLength(z);
    assert "" + g + u == g + u;
    GapOcc("", u, u, q);
    AtFits(g + z, m, q);
    AtTail(g + z, g, z);
    SameAtPlace(g + z, m, z, q);
  }

  /** When nothing is put in place of a power, the leftover of a nested copy stays. */
  lemma PowerFails(ratio: Ratio, u: string, b: nat, p: nat) returns (oldString: string, content: string)
    requires Normal(u) && HasBorder(u, b) && (forall c :: b < c ==> !HasBorder(u, c)) && u[..|u| - b] == u[b..]
    requires 2 * (|u| - b) <= |u| && p < |u| - b && Foldable(u[p]) && u[|u| - b + p] == u[p]
    ensures FoldAll(oldString) == u && !OneReplacement(ratio, content, oldString, "")
  {
    var d := |u| - b;
    var x, y := Marked(u[..d], p), Marked(u[d..], p);
    oldString, content := x + y, u + Gap(u) + (x + (u + y));
    assert content == PowerContent(u, d, p) && oldString == Leftover(u, d, p);
    hide Replace, FoldAll, Gap, Marked, Foldable, At, Occurs, HasDoubleCurly, HasSingleCurly, QuotesPreserved, PowerContent, Leftover, OneReplacement;
    PowerFolds(u, b, p);
    LeftoverAbsent(u, b, p);
    MarkedAt(u[..d], p);
    MarkedAt(u[d..], p);
    forall q | 0 <= q < |x| ensures !At(x + u, u, q) {
      PlainNotBefore(u, b, p, q);
    }
    PowerFirstPass(u, x, y);
    MarkedQuiet(u, p);
    Quiet(u, "");
    LeavesPower(ratio, u, x + (u + y), x + y);
  }

  lemma LeavesPower(ratio: Ratio, u: string, y: string, z: string)
    requires u != "" && FoldAll(u + Gap(u) + y) == u + Gap(u) + (u + u) && FoldAll(z) == u && Normal(u)
    requires !Occurs(u + Gap(u) + y, z) && QuotesPreserved(u, "") == ""
    requires Replace(u + Gap(u) + y, u, "") == Gap(u) + z
    ensures !OneReplacement(ratio, u + Gap(u) + y, z, "")
  {
    hide EquivalenceClass, Replacement, Replace, ReplaceEach, FoldAll, Gap, Occurs, QuotesPreserved;
    var content := u + Gap(u) + y;
    PowerClass(ratio, u, y, z);
    PowerTarget(u);
    FoldLength(z);
    var ms := EquivalenceClass(ratio, content, z).matches;
    ReplaceAllOutcome(ratio, content, z, "");
    CharReplIs(z, "", u);
    PowerRest(ratio, content, z, u, ms, Gap(u) + z);
    FoldConcat(Gap(u), z);
    Cancel(Gap(u), u, "");
    assert Gap(u) + "" == Gap(u);
    NormalEmpty();
    FoldNothing();
  }

  lemma FoldNothing()
    ensures FoldAll("") == ""
  {
  }

  lemma PowerRest(ratio: Ratio, content: string, oldString: string, u: string, ms: seq<string>, left: string)
    requires ms != [] && ms[0] == u && u != "" && NoneEmpty(ms)
    requires forall i, j :: 0 <= i < j < |ms| ==> ms[i] != ms[j]
    requires forall m :: m in ms && m != u ==> m != "" && !Occurs(left, m)
    requires Replace(content, u, ReplFor(CharNormalized, oldString, "", u)) == left
    ensures ReplaceEach(content, ms, CharNormalized, oldString, "") == left
  {
    hide Replace, ReplFor, Occurs, ReplaceEach;
    var rest := ms[1..];
    assert ms == [u] + rest;
    forall i | 0 <= i < |rest| ensures rest[i] != "" && !Occurs(left, rest[i]) {
      assert rest[i] == ms[i + 1] && ms[i + 1] in ms && ms[0] != ms[i + 1];
    }
    EachFromHead(content, u, rest, oldString, "");
    IdlePasses(left, rest, oldString, "");
  }

  lemma PowerTarget(u: string)
    requires u != ""
    ensures Replace(u + Gap(u) + (u + u), u, "") == Gap(u)
  {
    hide Replace, Gap, At;
    ReplaceGap(u, u, u + u, "");
    ReplaceWhole(u, "");
    AtHead(u + u, u, u);
    assert (u + u)[|u|..] == u;
    ReplaceStep(u + u, u, "");
    assert "" + Gap(u) + "" == Gap(u);
  }

  // ---------------------------------------------------------------- the exact condition

  /** A border that moves `v` on like `u` leaves three possibilities: `v` starts with `u`, `v` is itself a
      border, or `v` is empty and `u` a power. */
  lemma SameStep(u: string, v: string, b: nat)
    requires HasBorder(u, b) && u[..|u| - b] + v == v + u[b..] && u != v
    ensures |v| >= |u| ==> v[..|u|] == u
    ensures 0 < |v| < |u| ==> HasBorder(u, |v|) && u[..|v|] == v
    ensures v == "" ==> u[..|u| - b] == u[b..]
  {
    var e, f := u[..|u| - b], u[b..];
    Rotates(u, b);
    forall k | 0 <= k < |u| && k < |v| ensures u[k] == v[k] {
      AgreeLeft(e, u, v, f, k);
    }
    if 0 < |v| < |u| {
      assert u[..|v|] == v;
      forall i | 0 <= i < |v| ensures u[|u| - |v|..][i] == v[i] {
        AgreeRight(e, u, v, f, |v| - 1 - i);
      }
      assert u[|u| - |v|..] == v;
    }
    if v == "" {
      assert e + v == e && v + f == f;
    }
  }

  /** The overlap of a text with itself, for any `v` put in place of it. */
  lemma BorderedFails(ratio: Ratio, u: string, v: string) returns (oldString: string, content: string)
    requires Normal(u) && Normal(v) && ManyForms(u) && u != v && Bordered(u)
    ensures FoldAll(oldString) == u && !OneReplacement(ratio, content, oldString, v)
  {
    hide FoldAll, ManyForms, OneReplacement, Foldable;
    var b := LongestBorder(u);
    var p := FirstPlace(u);
    PlaceInPeriod(u, p, b);
    if u[..|u| - b] + v != v + u[b..] {
      oldString, content := PeriodFails(ratio, u, v, b, p);
    } else {
      SameStep(u, v, b);
      if |v| >= |u| {
        assert Agrees(u, v, 0) by { StartAgrees(u, v); }
        oldString, content := TouchFails(ratio, u, v, 0);
      } else if v == "" {
        PowerPlace(u, b, p);
        oldString, content := PowerFails(ratio, u, b, p);
      } else {
        oldString, content := BorderFails(ratio, u, v, p);
      }
    }
  }

  lemma StartAgrees(u: string, v: string)
    requires |v| >= |u| && v[..|u|] == u
    ensures Agrees(u, v, 0)
  {
    forall t | 0 <= t < |u| ensures u[t] == v[t] {
      assert v[..|u|][t] == v[t];
    }
  }

  lemma PowerPlace(u: string, b: nat, p: nat)
    requires HasBorder(u, b) && (forall c :: b < c ==> !HasBorder(u, c)) && u[..|u| - b] == u[b..] && p < |u| - b
    ensures 2 * (|u| - b) <= |u| && u[|u| - b + p] == u[p]
  {
    var d := |u| - b;
    assert HasBorder(u, d);
    assert u[d..][p] == u[..b][p];
  }

  lemma {:induction false} SelfReplace(s: string, u: string)
    requires u != ""
    ensures Replace(s, u, u) == s
    decreases |s|
  {
    hide Find;
    if Find(s, u, 0) >= 0 {
      FoundInside(s, u);
      SelfReplace(s[Find(s, u, 0) + |u|..], u);
      AtSlice(s, u, Find(s, u, 0));
    }
  }

  /** Replacing by text of the same normal form keeps the normal form. */
  lemma {:induction false} SameFormPass(s: string, m: string, r: string)
    requires m != "" && FoldAll(m) == FoldAll(r)
    ensures FoldAll(Replace(s, m, r)) == FoldAll(s)
    decreases |s|
  {
    hide Find, FoldAll;
    var q := Find(s, m, 0);
    if q >= 0 {
      FoundInside(s, m);
      var rest := s[q + |m|..];
      SameFormPass(rest, m, r);
      AtSlice(s, m, q);
      assert s == s[..q] + m + rest;
      FoldThree(s[..q], m, rest);
      FoldThree(s[..q], r, Replace(rest, m, r));
    }
  }

  lemma {:induction false} SameFormPasses(s: string, ms: seq<string>, oldString: string, newString: string)
    requires NoneEmpty(ms) && forall i :: 0 <= i < |ms| ==> FoldAll(ms[i]) == FoldAll(newString)
    ensures FoldAll(ReplaceEach(s, ms, CharNormalized, oldString, newString)) == FoldAll(s)
  {
    hide Replace, FoldAll, ReplFor;
    if ms != [] {
      var front, m := ms[..|ms| - 1], ms[|ms| - 1];
      SameFormPasses(s, front, oldString, newString);
      CharReplIs(oldString, newString, m);
      NewFolds(m, newString);
      SameFormPass(ReplaceEach(s, front, CharNormalized, oldString, newString), m, ReplFor(CharNormalized, oldString, newString, m));
    }
  }

  lemma SameFormIsOne(ratio: Ratio, content: string, oldString: string, newString: string)
    requires FoldAll(oldString) == FoldAll(newString)
    ensures OneReplacement(ratio, content, oldString, newString)
  {
    hide EquivalenceClass, Replacement, ReplaceEach, Replace, FoldAll, Occurs, Find, At;
    var c := EquivalenceClass(ratio, content, oldString);
    if oldString != "" && oldString != newString && c.layer == Some(CharNormalized) {
      FoldLength(oldString);
      CharClass(ratio, content, oldString);
      ReplaceAllOutcome(ratio, content, oldString, newString);
      assert forall i :: 0 <= i < |c.matches| ==> c.matches[i] in c.matches;
      SameFormPasses(content, c.matches, oldString, newString);
      SelfReplace(FoldAll(content), FoldAll(oldString));
    }
  }

  /** Otherwise some old and new text with these normal forms and some content show that the passes are
      not one replacement. */
  lemma Interfere(ratio: Ratio, u: string, v: string) returns (oldString: string, content: string)
    requires u != "" && Normal(u) && Normal(v) && u != v && !PassesIndependent(u, v)
    ensures FoldAll(oldString) == u && !OneReplacement(ratio, content, oldString, v)
  {
    hide FoldAll, ManyForms, OneReplacement, Agrees, Bordered;
    if Bordered(u) {
      oldString, content := BorderedFails(ratio, u, v);
    } else {
      var k :| -|u| < k < |v| && Agrees(u, v, k);
      oldString, content := TouchFails(ratio, u, v, k);
    }
  }

  /** For old and new texts with normal forms `u` and `v`: whenever the character layer wins, replace_all
      is one left-to-right replacement on normal forms, over every content, if and only if both forms are
      equal, or at most two texts have the form `u`, or `u` has no border and can touch neither `v` nor
      the seam it leaves. */
  lemma AllAtOnceIff(ratio: Ratio, u: string, v: string)
    requires u != "" && Normal(u) && Normal(v)
    ensures u == v || PassesIndependent(u, v)
            <==> forall oldString, newString, content :: FoldAll(oldString) == u && FoldAll(newString) == v
                   ==> OneReplacement(ratio, content, oldString, newString)
  {
    hide FoldAll, PassesIndependent, OneReplacement;
    if u == v || PassesIndependent(u, v) {
      forall oldString, newString, content | FoldAll(oldString) == u && FoldAll(newString) == v
        ensures OneReplacement(ratio, content, oldString, newString)
      {
        if u == v {
          SameFormIsOne(ratio, content, oldString, newString);
        } else {
          IndependentIsOne(ratio, content, oldString, newString);
        }
      }
    } else {
      var oldString, content := Interfere(ratio, u, v);
      assert FoldAll(v) == v;
    }
  }

  lemma IndependentIsOne(ratio: Ratio, content: string, oldString: string, newString: string)
    requires PassesIndependent(FoldAll(oldString), FoldAll(newString))
    ensures OneReplacement(ratio, content, oldString, newString)
  {
    hide EquivalenceClass, Replacement, Replace, FoldAll, PassesIndependent, AtOnce;
    if oldString != "" && oldString != newString && EquivalenceClass(ratio, content, oldString).layer == Some(CharNormalized) {
      FoldLength(oldString);
      AllAtOnce.AllAtOnce(ratio, content, oldString, newString);
    }
  }
}
