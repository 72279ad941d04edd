// backend/editing/replacers.py: what the locators compare, and all that they yield, in order.
module LayerLaws {
  import opened Text
  import opened Normalize
  import opened Replacers

  // ---------------------------------------------------------------- what the layers compare

  /** `s` is `core` with whitespace around it. */
  predicate Padded(s: string, core: string, a: nat, b: nat) {
    && a + |core| + b == |s| && s[a..a + |core|] == core
    && Blank(s[..a]) && Blank(s[|s| - b..])
    && (core != "" ==> !IsSpace(core[0]) && !IsSpace(core[|core| - 1]))
  }

  lemma StripPads(s: string) returns (a: nat, b: nat)
    ensures Padded(s, Strip(s), a, b)
  {
    hide LStrip, RStrip, IsSpace;
    a := LStripPads(s);
    b := RStripPads(LStrip(s));
    var l := s[a..];
    assert l[|l| - b..] == s[|s| - b..] && l[..|l| - b] == s[a..|s| - b];
    if Strip(s) != "" {
      assert |l| > 0 && l[0] == Strip(s)[0];
    }
  }

  /** Trimming is the only way to take the whitespace off both ends. */
  lemma StripIff(s: string, core: string)
    ensures Strip(s) == core <==> exists a, b :: Padded(s, core, a, b)
  {
    if Strip(s) == core {
      var a, b := StripPads(s);
    }
    forall a: nat, b: nat | Padded(s, core, a, b) ensures Strip(s) == core {
      hide LStrip, RStrip, IsSpace;
      assert s == s[..a] + (core + s[|s| - b..]);
      PaddedStrips(s[..a], core, s[|s| - b..]);
    }
  }

  lemma PaddedStrips(pre: string, core: string, post: string)
    requires Blank(pre) && Blank(post) && (core != "" ==> !IsSpace(core[0]) && !IsSpace(core[|core| - 1]))
    ensures Strip(pre + (core + post)) == core
  {
    hide LStrip, RStrip, IsSpace;
    LStripDrops(pre, core + post);
    if core == "" {
      assert core + post == post;
      BlankLStrip(post);
      assert RStrip("") == "" by { BlankRStrip(""); }
    } else {
      LStripKeeps(core + post);
      RStripDrops(core, post);
      RStripKeeps(core);
    }
  }

  /** Both lines are the same text with whitespace around it. */
  ghost predicate SameCore(s: string, t: string) {
    exists core, a, b, c, d :: Padded(s, core, a, b) && Padded(t, core, c, d)
  }

  lemma SameCoreIff(s: string, t: string)
    ensures SameCore(s, t) <==> Strip(s) == Strip(t)
  {
    hide Strip, Padded;
    if Strip(s) == Strip(t) {
      var a, b := StripPads(s);
      var c, d := StripPads(t);
    }
    forall core: string, a: nat, b: nat, c: nat, d: nat | Padded(s, core, a, b) && Padded(t, core, c, d) ensures Strip(s) == Strip(t) {
      StripIff(s, core);
      StripIff(t, core);
    }
  }

  /** The indentation of a line is its leading spaces and tabs, one column each. */
  lemma WidthIff(line: string, w: nat)
    ensures Width(line) == w
            <==> && w <= |line| && (forall i :: 0 <= i < w ==> line[i] == ' ' || line[i] == '\t')
                 && (w < |line| ==> line[w] != ' ' && line[w] != '\t')
  {
    if w <= |line| && (forall i :: 0 <= i < w ==> line[i] == ' ' || line[i] == '\t') && (w < |line| ==> line[w] != ' ' && line[w] != '\t') {
      WidthIs(line, w);
    }
  }

  /** The 29 characters that count as whitespace. */
  lemma SpaceTable(c: char)
    ensures IsSpace(c) <==> c as int in {9, 10, 11, 12, 13, 28, 29, 30, 31, 32, 0x85, 0xA0, 0x1680,
                                         0x2000, 0x2001, 0x2002, 0x2003, 0x2004, 0x2005, 0x2006, 0x2007, 0x2008, 0x2009, 0x200A,
                                         0x2028, 0x2029, 0x202F, 0x205F, 0x3000}
  {
  }

  /** The smallest indentation of a non-blank line; 0 when there is none. */
  ghost predicate LeastWidth(lines: seq<string>, m: nat) {
    && (forall i :: 0 <= i < |lines| && !Blank(lines[i]) ==> m <= Width(lines[i]))
    && ((forall i :: 0 <= i < |lines| ==> Blank(lines[i])) ==> m == 0)
    && ((exists i :: 0 <= i < |lines| && !Blank(lines[i])) ==> exists i :: 0 <= i < |lines| && !Blank(lines[i]) && Width(lines[i]) == m)
  }

  lemma LeastWidthIff(lines: seq<string>, m: nat)
    ensures LeastWidth(lines, m) <==> m == CommonIndent(lines)
  {
    hide Blank, Width;
    if LeastWidth(lines, m) {
      if i :| 0 <= i < |lines| && !Blank(lines[i]) {
        var at :| 0 <= at < |lines| && !Blank(lines[at]) && Width(lines[at]) == m;
        CommonIndentIs(lines, m, at);
      }
    }
  }

  /** Line for line the same behind `a` columns of the one and `b` of the other. */
  predicate SameBehind(window: seq<string>, lines: seq<string>, a: nat, b: nat) {
    |window| == |lines| && forall j :: 0 <= j < |lines| ==>
      if Blank(lines[j]) then window[j] == lines[j]
      else !Blank(window[j]) && a <= |window[j]| && b <= |lines[j]| && window[j][a..] == lines[j][b..]
  }

  lemma RemovedAt(lines: seq<string>, j: nat)
    requires j < |lines|
    ensures var r := RemoveCommonIndent(lines)[j];
            && (Blank(r) <==> Blank(lines[j]))
            && CommonIndent(lines) <= |lines[j]| + (if Blank(lines[j]) then CommonIndent(lines) else 0)
            && (if Blank(lines[j]) then r == lines[j] else r == lines[j][CommonIndent(lines)..])
  {
    hide Blank, Width;
    if !Blank(lines[j]) {
      CutNotBlank(lines[j], CommonIndent(lines));
    }
  }

  lemma CutNotBlank(s: string, m: nat)
    requires !Blank(s) && m <= Width(s)
    ensures !Blank(s[m..])
  {
    var i :| 0 <= i < |s| && !IsSpace(s[i]);
    assert i >= m;
    assert s[m..][i - m] == s[i];
  }

  /** Two blocks are the same without their common indents. */
  lemma IndentFlexibleIff(window: seq<string>, lines: seq<string>)
    ensures RemoveCommonIndent(window) == RemoveCommonIndent(lines)
            <==> exists a, b :: LeastWidth(window, a) && LeastWidth(lines, b) && SameBehind(window, lines, a, b)
  {
    hide Blank, Width, RemoveCommonIndent, LeastWidth;
    var a, b := CommonIndent(window), CommonIndent(lines);
    forall m ensures LeastWidth(window, m) <==> m == a { LeastWidthIff(window, m); }
    forall m ensures LeastWidth(lines, m) <==> m == b { LeastWidthIff(lines, m); }
    var x, y := RemoveCommonIndent(window), RemoveCommonIndent(lines);
    forall j | 0 <= j < |lines| && |window| == |lines|
      ensures x[j] == y[j] <==> if Blank(lines[j]) then window[j] == lines[j]
                                else !Blank(window[j]) && a <= |window[j]| && b <= |lines[j]| && window[j][a..] == lines[j][b..]
    {
      RemovedAt(window, j);
      RemovedAt(lines, j);
    }
    if |window| == |lines| && SameBehind(window, lines, a, b) {
      assert x == y;
    }
    if x == y {
      assert |window| == |lines|;
    }
  }

  /** `t` holds the lines without the whitespace around them. */
  ghost predicate Trimmed(lines: seq<string>, t: seq<string>) {
    |t| == |lines| && forall j :: 0 <= j < |lines| ==> PadsTo(lines[j], t[j])
  }

  ghost predicate PadsTo(s: string, core: string) { exists a, b :: Padded(s, core, a, b) }

  lemma TrimmedIff(lines: seq<string>, t: seq<string>)
    ensures Trimmed(lines, t) <==> t == StripAll(lines)
  {
    hide PadsTo, Strip;
    forall s, core ensures PadsTo(s, core) <==> Strip(s) == core {
      PadsIff(s, core);
    }
    if Trimmed(lines, t) {
      assert t == StripAll(lines);
    }
  }

  lemma PadsIff(s: string, core: string)
    ensures PadsTo(s, core) <==> Strip(s) == core
  {
    hide Padded, Strip;
    StripIff(s, core);
  }

  /** Line for line the same core. */
  ghost predicate SameCores(window: seq<string>, lines: seq<string>) {
    |window| == |lines| && forall j :: 0 <= j < |lines| ==> SameCore(window[j], lines[j])
  }

  lemma SameCoresIff(window: seq<string>, lines: seq<string>)
    ensures SameCores(window, lines) <==> SameTrimmed(window, lines)
  {
    hide SameCore, Strip;
    forall s, t ensures SameCore(s, t) <==> Strip(s) == Strip(t) {
      SameCoreIff(s, t);
    }
  }

  /** The trimmed lines, joined, are rated at least 0.9, the search text first. */
  ghost predicate SimilarTrimmed(ratio: Ratio, lines: seq<string>, window: seq<string>) {
    exists t: seq<string>, u: seq<string> :: Trimmed(lines, t) && Trimmed(window, u) && ratio(Join(t), Join(u)) >= 0.9
  }

  lemma SimilarIff(ratio: Ratio, lines: seq<string>, window: seq<string>)
    ensures SimilarTrimmed(ratio, lines, window) <==> ratio(Join(StripAll(lines)), Join(StripAll(window))) >= CONTEXT_THRESHOLD
  {
    hide Trimmed, Join, StripAll;
    forall ls: seq<string>, t: seq<string> ensures Trimmed(ls, t) <==> t == StripAll(ls) {
      TrimmedIff(ls, t);
    }
  }

  /** What each of the window layers lets through. */
  lemma AcceptsIff(layer: Layer, ratio: Ratio, find: string, window: seq<string>)
    requires WindowLayer(layer)
    ensures var lines := PatternLines(layer, find);
            Accepts(layer, ratio, find, window)
            <==> match layer
                 case IndentationFlexible =>
                   exists a, b :: LeastWidth(window, a) && LeastWidth(lines, b) && SameBehind(window, lines, a, b)
                 case WhitespaceNormalized => NormScan(Join(window), Start) == NormScan(find, Start)
                 case ContextAware => SimilarTrimmed(ratio, lines, window)
                 case LineTrimmed | TrimmedBoundary => SameCores(window, lines)
  {
    hide Join, Norm, NormScan, SameCores, SameBehind, LeastWidth, RemoveCommonIndent, PatternLines, SimilarTrimmed, StripAll, SameTrimmed;
    var lines := PatternLines(layer, find);
    match layer
    case IndentationFlexible => IndentFlexibleIff(window, lines);
    case WhitespaceNormalized =>
      NormIsScan(Join(window));
      NormIsScan(find);
    case ContextAware => SimilarIff(ratio, lines, window);
    case LineTrimmed | TrimmedBoundary => SameCoresIff(window, lines);
  }

  /** The layer that trims its boundary looks for the lines from the first that is not blank to the last. */
  lemma BoundaryLines(find: string) returns (i: nat, j: nat)
    ensures i <= j <= |Split(find)| && PatternLines(TrimmedBoundary, find) == Split(find)[i..j]
    ensures forall k :: 0 <= k < |Split(find)| && !(i <= k < j) ==> Blank(Split(find)[k])
    ensures i < j ==> !Blank(Split(find)[i]) && !Blank(Split(find)[j - 1])
  {
    hide Split, Blank, DropBlankHead, DropBlankTail;
    var lines := Split(find);
    j := TailBlank(lines);
    i := HeadBlank(lines[..j]);
    assert lines[..j][i..] == lines[i..j];
    forall k | 0 <= k < |lines| && !(i <= k < j) ensures Blank(lines[k]) {
      assert k < i ==> lines[..j][k] == lines[k];
    }
    if i < j {
      assert lines[..j][i] == lines[i] && lines[..j][j - 1] == lines[j - 1];
    }
  }

  /** The other line layers look for the lines of the search text without its final newline. */
  lemma SearchLines(layer: Layer, find: string)
    requires layer != TrimmedBoundary
    ensures find == "" <==> PatternLines(layer, find) == []
    ensures find != "" ==> Join(PatternLines(layer, find)) == if find[|find| - 1] == '\n' then find[..|find| - 1] else find
  {
    hide FindLines, Join;
    FindLinesJoin(find);
  }

  lemma {:induction false} TailBlank(lines: seq<string>) returns (j: nat)
    ensures j <= |lines| && DropBlankTail(lines) == lines[..j]
    ensures forall k :: j <= k < |lines| ==> Blank(lines[k])
    ensures j > 0 ==> !Blank(lines[j - 1])
  {
    hide Blank;
    if lines != [] && Blank(lines[|lines| - 1]) {
      var n := |lines| - 1;
      j := TailBlank(lines[..n]);
      assert lines[..n][..j] == lines[..j];
      forall k | j <= k < |lines| ensures Blank(lines[k]) {
        assert k < n ==> lines[..n][k] == lines[k];
      }
      assert j > 0 ==> lines[..n][j - 1] == lines[j - 1];
    } else {
      j := |lines|;
      assert lines[..j] == lines;
    }
  }

  lemma {:induction false} HeadBlank(lines: seq<string>) returns (i: nat)
    ensures i <= |lines| && DropBlankHead(lines) == lines[i..]
    ensures forall k :: 0 <= k < i ==> Blank(lines[k])
    ensures i < |lines| ==> !Blank(lines[i])
  {
    hide Blank;
    if lines != [] && Blank(lines[0]) {
      var m := HeadBlank(lines[1..]);
      i := m + 1;
      assert lines[1..][m..] == lines[i..];
      forall k | 0 <= k < i ensures Blank(lines[k]) {
        assert k > 0 ==> lines[1..][k - 1] == lines[k];
      }
    } else {
      i := 0;
    }
  }

  lemma FindLinesJoin(find: string)
    ensures find == "" <==> FindLines(find) == []
    ensures find != "" ==> Join(FindLines(find)) == if find[|find| - 1] == '\n' then find[..|find| - 1] else find
  {
    var lines := Split(find);
    JoinSplit(find);
    if find != "" {
      LastLine(find);
      if lines[|lines| - 1] == "" {
        var front := lines[..|lines| - 1];
        assert lines == front + [""];
        JoinConcat(front, [""]);
        assert Join([""]) == "";
        assert find == Join(front) + "\n";
      }
    }
  }

  lemma {:induction false} LastLine(s: string)
    requires s != ""
    ensures Split(s)[|Split(s)| - 1] == "" <==> s[|s| - 1] == '\n'
    ensures s[|s| - 1] == '\n' ==> |Split(s)| > 1
  {
    if |s| > 1 {
      LastLine(s[1..]);
      assert s[1..][|s[1..]| - 1] == s[|s| - 1];
    } else {
      assert s[1..] == "";
    }
  }

  // ---------------------------------------------------------------- all candidates, in order

  predicate Increasing(idx: seq<nat>) { forall i, j :: 0 <= i < j < |idx| ==> idx[i] < idx[j] }

  lemma IncreasingCons(k: nat, idx: seq<nat>)
    requires Increasing(idx) && forall m :: 0 <= m < |idx| ==> k < idx[m]
    ensures Increasing([k] + idx)
  {
    var all := [k] + idx;
    forall a, b | 0 <= a < b < |all| ensures all[a] < all[b] {
      assert all[b] == idx[b - 1];
    }
  }

  lemma ConsHas(k: nat, idx: seq<nat>, i: nat)
    ensures i in [k] + idx <==> i == k || i in idx
  {
  }

  /** `idx` lists, in order, where accepted windows of `n` lines start from line `k` on. */
  ghost predicate AcceptedFrom(layer: Layer, ratio: Ratio, find: string, lines: seq<string>, n: nat, k: nat, idx: seq<nat>)
    requires WindowLayer(layer)
  {
    && Increasing(idx)
    && forall i: nat :: i in idx <==> k <= i && i + n <= |lines| && Accepts(layer, ratio, find, lines[i..i + n])
  }

  /** The texts of the windows of `n` lines at `idx`. */
  predicate WindowTexts(lines: seq<string>, n: nat, idx: seq<nat>, r: seq<string>) {
    |r| == |idx| && forall m :: 0 <= m < |r| ==> idx[m] + n <= |lines| && r[m] == Join(lines[idx[m]..idx[m] + n])
  }

  lemma AcceptedHere(layer: Layer, ratio: Ratio, find: string, lines: seq<string>, n: nat, k: nat, idx: seq<nat>)
    requires WindowLayer(layer) && k + n <= |lines| && AcceptedFrom(layer, ratio, find, lines, n, k + 1, idx)
    ensures Accepts(layer, ratio, find, lines[k..k + n]) ==> AcceptedFrom(layer, ratio, find, lines, n, k, [k] + idx)
    ensures !Accepts(layer, ratio, find, lines[k..k + n]) ==> AcceptedFrom(layer, ratio, find, lines, n, k, idx)
  {
    hide Accepts, Increasing;
    forall m | 0 <= m < |idx| ensures k < idx[m] {
      assert idx[m] in idx;
    }
    IncreasingCons(k, idx);
    forall i: nat ensures i in [k] + idx <==> i == k || i in idx {
      ConsHas(k, idx, i);
    }
  }

  lemma WindowHere(lines: seq<string>, n: nat, k: nat, idx: seq<nat>, r: seq<string>)
    requires k + n <= |lines| && WindowTexts(lines, n, idx, r)
    ensures WindowTexts(lines, n, [k] + idx, [Join(lines[k..k + n])] + r)
  {
    hide Join;
  }

  lemma NoWindow(layer: Layer, ratio: Ratio, find: string, lines: seq<string>, n: nat, k: nat)
    requires WindowLayer(layer) && k + n > |lines|
    ensures AcceptedFrom(layer, ratio, find, lines, n, k, []) && WindowTexts(lines, n, [], [])
  {
    hide Accepts;
  }

  lemma {:induction false} WindowsAt(layer: Layer, ratio: Ratio, find: string, lines: seq<string>, n: nat, k: nat)
      returns (idx: seq<nat>)
    requires WindowLayer(layer) && n >= 1
    ensures AcceptedFrom(layer, ratio, find, lines, n, k, idx)
    ensures WindowTexts(lines, n, idx, Windows(layer, ratio, find, lines, n, k))
    decreases |lines| - k
  {
    hide Accepts, Join, Windows, AcceptedFrom, WindowTexts;
    WindowsStep(layer, ratio, find, lines, n, k);
    if k + n > |lines| {
      NoWindow(layer, ratio, find, lines, n, k);
      idx := [];
    } else {
      var rest := Windows(layer, ratio, find, lines, n, k + 1);
      idx := WindowsAt(layer, ratio, find, lines, n, k + 1);
      AcceptedHere(layer, ratio, find, lines, n, k, idx);
      if Accepts(layer, ratio, find, lines[k..k + n]) {
        WindowHere(lines, n, k, idx, rest);
        idx := [k] + idx;
      } else {
        assert [] + rest == rest;
      }
    }
  }

  /** A window layer yields, in the order of their lines, exactly the windows it accepts. */
  lemma WindowLayerExact(layer: Layer, ratio: Ratio, content: string, find: string) returns (idx: seq<nat>)
    requires WindowLayer(layer)
    ensures var n, lines, r := |PatternLines(layer, find)|, Split(content), Candidates(layer, ratio, content, find);
            if n == 0 || (layer == ContextAware && n == 1) || (layer == WhitespaceNormalized && Blank(find)) then r == []
            else
              AcceptedFrom(layer, ratio, find, lines, n, 0, idx) && WindowTexts(lines, n, idx, r)
  {
    hide AcceptedFrom, WindowTexts, Windows, Split, PatternLines, Norm, Blank;
    NormBlank(find);
    if Applicable(layer, find) {
      idx := WindowsAt(layer, ratio, find, Split(content), |PatternLines(layer, find)|, 0);
    } else {
      idx := [];
    }
  }

  /** Line `j` is the nearest one behind line `i` that has this core, and line `i` has the other. */
  predicate Frames(lines: seq<string>, first: string, last: string, i: nat, j: nat) {
    && i < j < |lines| && Strip(lines[i]) == first && Strip(lines[j]) == last
    && forall m :: i < m < j ==> Strip(lines[m]) != last
  }

  /** `idx` lists the framed lines from `k` on, `ends` where their blocks end. */
  ghost predicate FramesFrom(lines: seq<string>, first: string, last: string, k: nat, idx: seq<nat>, ends: seq<nat>) {
    && Increasing(idx) && |ends| == |idx|
    && (forall m :: 0 <= m < |idx| ==> k <= idx[m] && Frames(lines, first, last, idx[m], ends[m]))
    && (forall i: nat, j: nat :: k <= i && Frames(lines, first, last, i, j) ==> i in idx)
  }

  lemma FramesHere(lines: seq<string>, first: string, last: string, k: nat, j: nat, idx: seq<nat>, ends: seq<nat>)
    requires FramesFrom(lines, first, last, k + 1, idx, ends) && Frames(lines, first, last, k, j)
    ensures FramesFrom(lines, first, last, k, [k] + idx, [j] + ends)
  {
    hide Frames, Increasing;
    var all, allEnds := [k] + idx, [j] + ends;
    IncreasingCons(k, idx);
    forall m | 0 <= m < |all| ensures k <= all[m] && Frames(lines, first, last, all[m], allEnds[m]) {
      assert m > 0 ==> all[m] == idx[m - 1] && allEnds[m] == ends[m - 1];
    }
    forall i: nat, e: nat | k <= i && Frames(lines, first, last, i, e) ensures i in all {
      ConsHas(k, idx, i);
    }
  }

  lemma FramesLater(lines: seq<string>, first: string, last: string, k: nat, idx: seq<nat>, ends: seq<nat>)
    requires FramesFrom(lines, first, last, k + 1, idx, ends) && forall e: nat :: !Frames(lines, first, last, k, e)
    ensures FramesFrom(lines, first, last, k, idx, ends)
  {
    hide Frames;
  }

  /** The texts of the blocks from `idx[m]` to `ends[m]`. */
  predicate BlockTexts(lines: seq<string>, idx: seq<nat>, ends: seq<nat>, r: seq<string>) {
    && |r| == |idx| == |ends|
    && forall m :: 0 <= m < |r| ==> idx[m] <= ends[m] < |lines| && r[m] == Join(lines[idx[m]..ends[m] + 1])
  }

  lemma TextHere(lines: seq<string>, k: nat, j: nat, idx: seq<nat>, ends: seq<nat>, r: seq<string>)
    requires k <= j < |lines| && BlockTexts(lines, idx, ends, r)
    ensures BlockTexts(lines, [k] + idx, [j] + ends, [Join(lines[k..j + 1])] + r)
  {
    hide Join;
  }

  lemma BlockFrames(lines: seq<string>, first: string, last: string, k: nat) returns (j: nat)
    requires k < |lines|
    ensures BlockAt(lines, first, last, k) == [] || (k <= j < |lines| && BlockAt(lines, first, last, k) == [Join(lines[k..j + 1])])
    ensures BlockAt(lines, first, last, k) != [] ==> Frames(lines, first, last, k, j)
    ensures BlockAt(lines, first, last, k) == [] ==> forall e: nat :: !Frames(lines, first, last, k, e)
  {
    hide Strip, Join;
    j := NextAnchor(lines, last, k + 1);
  }

  lemma {:induction false} BlocksFrame(lines: seq<string>, first: string, last: string, k: nat)
      returns (idx: seq<nat>, ends: seq<nat>)
    requires k <= |lines|
    ensures FramesFrom(lines, first, last, k, idx, ends) && BlockTexts(lines, idx, ends, Blocks(lines, first, last, k))
    decreases |lines| - k
  {
    hide Strip, Join, Blocks, BlockAt, FramesFrom, BlockTexts, Frames;
    if k == |lines| {
      NoBlocks(lines, first, last);
      idx, ends := [], [];
    } else {
      BlocksStep(lines, first, last, k);
      var j := BlockFrames(lines, first, last, k);
      idx, ends := BlocksFrame(lines, first, last, k + 1);
      if BlockAt(lines, first, last, k) != [] {
        FramesHere(lines, first, last, k, j, idx, ends);
        TextHere(lines, k, j, idx, ends, Blocks(lines, first, last, k + 1));
        idx, ends := [k] + idx, [j] + ends;
      } else {
        FramesLater(lines, first, last, k, idx, ends);
        assert [] + Blocks(lines, first, last, k + 1) == Blocks(lines, first, last, k + 1);
      }
    }
  }

  lemma NoBlocks(lines: seq<string>, first: string, last: string)
    ensures Blocks(lines, first, last, |lines|) == [] && FramesFrom(lines, first, last, |lines|, [], []) && BlockTexts(lines, [], [], [])
  {
    hide Strip;
  }

  /** The anchor layer yields one block for each line with the first core that has a line with the last
      core behind it, up to the nearest of those, in order. */
  lemma BlockLayerExact(content: string, find: string) returns (idx: seq<nat>, ends: seq<nat>)
    ensures var fl, lines, r := FindLines(find), Split(content), BlockCandidates(content, find);
            if |fl| < 3 || Blank(fl[0]) || Blank(fl[|fl| - 1]) then r == []
            else
              var first, last := Strip(fl[0]), Strip(fl[|fl| - 1]);
              FramesFrom(lines, first, last, 0, idx, ends) && BlockTexts(lines, idx, ends, r)
  {
    hide Strip, Join, Split, Blocks, FindLines, FramesFrom, BlockTexts, Blank;
    var fl := FindLines(find);
    idx, ends := [], [];
    if |fl| >= 3 {
      StripBlank(fl[0]);
      StripBlank(fl[|fl| - 1]);
      idx, ends := BlocksFrame(Split(content), Strip(fl[0]), Strip(fl[|fl| - 1]), 0);
    }
  }

  /** The first three layers: the text itself, and the slices at the spans of their transforms. */
  lemma SpanLayerExact(layer: Layer, ratio: Ratio, content: string, find: string)
    requires layer in {Simple, CharNormalized, EscapeNormalized}
    ensures var r := Candidates(layer, ratio, content, find);
            && (find == "" ==> r == [])
            && (layer == Simple && find != "" ==> r == if exists q :: At(content, find, q) then [find] else [])
            && (layer != Simple && find != "" ==>
                 var spans := Spans(if layer == CharNormalized then CHAR_TRANSFORMS else ESCAPE_TRANSFORMS, content, find);
                 |r| == |spans| && forall i :: 0 <= i < |r| ==>
                   spans[i].0 <= spans[i].1 <= |content| && r[i] == content[spans[i].0..spans[i].1])
  {
    hide Spans, At;
    if layer == Simple && !Occurs(content, find) {
      forall q ensures !At(content, find, q) {
        NotAt(content, find, q);
      }
    }
    if layer != Simple {
      var ts := if layer == CharNormalized then CHAR_TRANSFORMS else ESCAPE_TRANSFORMS;
      var spans := Spans(ts, content, find);
      forall i | 0 <= i < |spans| ensures spans[i].0 <= spans[i].1 <= |content| {
        assert spans[i] in spans;
        var _, _ := SpanSound(ts, content, find, spans[i].0, spans[i].1);
      }
    }
  }

  lemma NotAt(s: string, m: string, q: int)
    requires !Occurs(s, m)
    ensures !At(s, m, q)
  {
  }
}
