// backend/editing/replacers.py: nine locators, strict to loose, that yield real substrings of the content.
module Replacers {
  import opened Text
  import opened Normalize

  datatype Layer =
    | Simple | CharNormalized | EscapeNormalized | IndentationFlexible | LineTrimmed
    | TrimmedBoundary | WhitespaceNormalized | ContextAware | BlockAnchor

  const REPLACERS: seq<Layer> :=
    [Simple, CharNormalized, EscapeNormalized, IndentationFlexible, LineTrimmed,
     TrimmedBoundary, WhitespaceNormalized, ContextAware, BlockAnchor]

  const CONTEXT_THRESHOLD := 0.9

  /** difflib's similarity of two strings. */
  type Ratio = (string, string) -> real

  // ---------------------------------------------------------------- line helpers

  /** The start of line `i` in the joined text. */
  function Offset(lines: seq<string>, i: nat): nat
    requires i <= |lines|
  {
    if i == 0 then 0 else Offset(lines, i - 1) + |lines[i - 1]| + 1
  }

  method LineStarts(contentLines: seq<string>) returns (starts: seq<nat>)
    ensures |starts| == |contentLines|
    ensures forall i :: 0 <= i < |starts| ==> starts[i] == Offset(contentLines, i)
  {
    starts := [];
    var pos := 0;
    for k := 0 to |contentLines|
      invariant |starts| == k && pos == Offset(contentLines, k)
      invariant forall i :: 0 <= i < k ==> starts[i] == Offset(contentLines, i)
    {
      starts := starts + [pos];
      pos := pos + |contentLines[k]| + 1;
    }
  }

  lemma {:induction false} OffsetJoin(lines: seq<string>, i: nat)
    requires 1 <= i <= |lines|
    ensures Offset(lines, i) == |Join(lines[..i])| + 1
  {
    if i == 1 {
      assert lines[..1] == [lines[0]];
    } else {
      OffsetJoin(lines, i - 1);
      JoinConcat(lines[..i - 1], [lines[i - 1]]);
      assert lines[..i] == lines[..i - 1] + [lines[i - 1]];
    }
  }

  /** Slicing the text from the start of line `i` to the end of line `j` gives exactly those lines. */
  lemma LineWindow(lines: seq<string>, i: nat, j: nat)
    requires i <= j < |lines|
    ensures Offset(lines, i) <= Offset(lines, j) + |lines[j]| <= |Join(lines)|
    ensures Join(lines)[Offset(lines, i)..Offset(lines, j) + |lines[j]|] == Join(lines[i..j + 1])
  {
    hide Join;
    var s, lo, hi, upTo := Join(lines), Offset(lines, i), Offset(lines, j) + |lines[j]|, Join(lines[..j + 1]);
    OffsetJoin(lines, j + 1);
    assert hi == |upTo|;
    if j + 1 < |lines| {
      JoinConcat(lines[..j + 1], lines[j + 1..]);
      assert lines == lines[..j + 1] + lines[j + 1..];
    } else {
      assert lines[..j + 1] == lines;
    }
    assert hi <= |s| && s[..hi] == upTo;
    if i > 0 {
      OffsetJoin(lines, i);
      JoinConcat(lines[..i], lines[i..j + 1]);
      assert lines[..j + 1] == lines[..i] + lines[i..j + 1];
    } else {
      assert lines[0..j + 1] == lines[..j + 1];
    }
    assert lo <= hi && upTo[lo..] == Join(lines[i..j + 1]);
    assert s[lo..hi] == s[..hi][lo..];
  }

  function StripTrailingEmpty(lines: seq<string>): seq<string> {
    if lines != [] && lines[|lines| - 1] == "" then lines[..|lines| - 1] else lines
  }

  function FindLines(find: string): seq<string> {
    StripTrailingEmpty(Split(find))
  }

  function RemoveCommonIndent(lines: seq<string>): (r: seq<string>)
    ensures |r| == |lines|
  {
    var m := CommonIndent(lines);
    seq(|lines|, i requires 0 <= i < |lines| => if Blank(lines[i]) then lines[i] else lines[i][m..])
  }

  predicate SameTrimmed(window: seq<string>, lines: seq<string>) {
    |window| == |lines| && forall j :: 0 <= j < |lines| ==> Strip(window[j]) == Strip(lines[j])
  }

  function DropBlankTail(lines: seq<string>): seq<string> {
    if lines != [] && Blank(lines[|lines| - 1]) then DropBlankTail(lines[..|lines| - 1]) else lines
  }

  function DropBlankHead(lines: seq<string>): seq<string> {
    if lines != [] && Blank(lines[0]) then DropBlankHead(lines[1..]) else lines
  }

  /** `re.sub(r"\s+", " ", s)` */
  function Collapse(s: string): string
    decreases |s|
  {
    if s == "" then ""
    else if IsSpace(s[0]) then " " + Collapse(LStrip(s[1..]))
    else [s[0]] + Collapse(s[1..])
  }

  function Norm(s: string): string { Strip(Collapse(s)) }

  function StripAll(lines: seq<string>): seq<string> {
    seq(|lines|, i requires 0 <= i < |lines| => Strip(lines[i]))
  }

  // ---------------------------------------------------------------- what each layer accepts

  predicate WindowLayer(layer: Layer) {
    layer in {IndentationFlexible, LineTrimmed, TrimmedBoundary, WhitespaceNormalized, ContextAware}
  }

  /** The lines of `find` that a window is compared with. */
  function PatternLines(layer: Layer, find: string): seq<string> {
    if layer == TrimmedBoundary then DropBlankHead(DropBlankTail(Split(find))) else FindLines(find)
  }

  /** The early returns of a window layer. */
  predicate Applicable(layer: Layer, find: string) {
    && |PatternLines(layer, find)| >= (if layer == ContextAware then 2 else 1)
    && (layer == WhitespaceNormalized ==> Norm(find) != "")
  }

  predicate Accepts(layer: Layer, ratio: Ratio, find: string, window: seq<string>)
    requires WindowLayer(layer)
  {
    var lines := PatternLines(layer, find);
    match layer
    case IndentationFlexible => RemoveCommonIndent(window) == RemoveCommonIndent(lines)
    case WhitespaceNormalized => Norm(Join(window)) == Norm(find)
    case ContextAware => ratio(Join(StripAll(lines)), Join(StripAll(window))) >= CONTEXT_THRESHOLD
    case _ => SameTrimmed(window, lines)
  }

  /** The joined text of every accepted window of `n` consecutive lines from line `i` on, in order. */
  function Windows(layer: Layer, ratio: Ratio, find: string, lines: seq<string>, n: nat, i: nat): seq<string>
    requires WindowLayer(layer) && n >= 1
    decreases |lines| - i
  {
    if i + n > |lines| then []
    else
      var window := lines[i..i + n];
      (if Accepts(layer, ratio, find, window) then [Join(window)] else [])
      + Windows(layer, ratio, find, lines, n, i + 1)
  }

  /** The first line at or after `j` that trims to `last`; |lines| when there is none. */
  function NextAnchor(lines: seq<string>, last: string, j: nat): (r: nat)
    requires j <= |lines|
    ensures j <= r <= |lines| && (r < |lines| ==> Strip(lines[r]) == last)
    ensures forall k :: j <= k < r ==> Strip(lines[k]) != last
    decreases |lines| - j
  {
    if j == |lines| || Strip(lines[j]) == last then j else NextAnchor(lines, last, j + 1)
  }

  /** The block that starts with line `i`, if there is one. */
  function BlockAt(lines: seq<string>, first: string, last: string, i: nat): seq<string>
    requires i < |lines|
  {
    var j := NextAnchor(lines, last, i + 1);
    if Strip(lines[i]) == first && j < |lines| then [Join(lines[i..j + 1])] else []
  }

  function Blocks(lines: seq<string>, first: string, last: string, i: nat): seq<string>
    requires i <= |lines|
    decreases |lines| - i
  {
    if i == |lines| then [] else BlockAt(lines, first, last, i) + Blocks(lines, first, last, i + 1)
  }

  function BlockCandidates(content: string, find: string): seq<string> {
    var lines := FindLines(find);
    if |lines| < 3 || Strip(lines[0]) == "" || Strip(lines[|lines| - 1]) == "" then []
    else Blocks(Split(content), Strip(lines[0]), Strip(lines[|lines| - 1]), 0)
  }

  function Slices(content: string, spans: seq<Span>): (r: seq<string>)
    ensures |r| == |spans|
  {
    seq(|spans|, i requires 0 <= i < |spans| => Slice(content, spans[i]))
  }

  function Slice(content: string, span: Span): string {
    if span.0 <= span.1 <= |content| then content[span.0..span.1] else ""
  }

  /** Everything a layer yields, in order. */
  function Candidates(layer: Layer, ratio: Ratio, content: string, find: string): seq<string> {
    match layer
    case Simple => if find != "" && Occurs(content, find) then [find] else []
    case CharNormalized => if find == "" then [] else Slices(content, Spans(CHAR_TRANSFORMS, content, find))
    case EscapeNormalized => if find == "" then [] else Slices(content, Spans(ESCAPE_TRANSFORMS, content, find))
    case BlockAnchor => BlockCandidates(content, find)
    case _ =>
      if !Applicable(layer, find) then []
      else Windows(layer, ratio, find, Split(content), |PatternLines(layer, find)|, 0)
  }

  // ---------------------------------------------------------------- the replacers

  method CharNormalizedReplacer(content: string, find: string, transforms: seq<Transform>) returns (out: seq<string>)
    ensures out == if find == "" then [] else Slices(content, Spans(transforms, content, find))
  {
    out := [];
    if find == "" {
      return;
    }
    var spans := IterSpans(content, find, transforms);
    for k := 0 to |spans|
      invariant out == Slices(content, spans)[..k]
    {
      out := out + [Slice(content, spans[k])];
    }
  }

  /** `while find_lines and not find_lines[-1].strip()` and its mirror image. */
  method TrimBoundary(find: string) returns (lines: seq<string>)
    ensures lines == DropBlankHead(DropBlankTail(Split(find)))
  {
    lines := Split(find);
    while lines != [] && Blank(lines[|lines| - 1])
      invariant DropBlankTail(lines) == DropBlankTail(Split(find))
    {
      lines := lines[..|lines| - 1];
    }
    while lines != [] && Blank(lines[0])
      invariant DropBlankHead(lines) == DropBlankHead(DropBlankTail(Split(find)))
    {
      lines := lines[1..];
    }
  }

  /** The window loop the five line layers share. */
  lemma WindowsStep(layer: Layer, ratio: Ratio, find: string, lines: seq<string>, n: nat, i: nat)
    requires WindowLayer(layer) && n >= 1
    ensures i + n > |lines| ==> Windows(layer, ratio, find, lines, n, i) == []
    ensures i + n <= |lines| ==>
              Windows(layer, ratio, find, lines, n, i)
              == (if Accepts(layer, ratio, find, lines[i..i + n]) then [Join(lines[i..i + n])] else [])
                 + Windows(layer, ratio, find, lines, n, i + 1)
  {
    hide Accepts, Join;
  }

  method ScanWindows(layer: Layer, ratio: Ratio, content: string, find: string, n: nat) returns (out: seq<string>)
    requires WindowLayer(layer) && n >= 1
    ensures out == Windows(layer, ratio, find, Split(content), n, 0)
  {
    hide Accepts, Join, Split, Windows;
    out := [];
    var lines := Split(content);
    var starts := LineStarts(lines);
    JoinSplit(content);
    var i := 0;
    while i + n <= |lines|
      invariant 0 <= i
      invariant out + Windows(layer, ratio, find, lines, n, i) == Windows(layer, ratio, find, lines, n, 0)
      decreases |lines| - i
    {
      WindowsStep(layer, ratio, find, lines, n, i);
      if Accepts(layer, ratio, find, lines[i..i + n]) {
        var last := i + n - 1;
        LineWindow(lines, i, last);
        out := out + [content[starts[i]..starts[last] + |lines[last]|]];
      }
      i := i + 1;
    }
    WindowsStep(layer, ratio, find, lines, n, i);
  }

  method BlockAnchorReplacer(content: string, find: string) returns (out: seq<string>)
    ensures out == BlockCandidates(content, find)
  {
    out := [];
    var findLines := FindLines(find);
    if |findLines| < 3 {
      return;
    }
    var first, last := Strip(findLines[0]), Strip(findLines[|findLines| - 1]);
    if first == "" || last == "" {
      return;
    }
    out := ScanBlocks(content, first, last);
  }

  lemma BlocksStep(lines: seq<string>, first: string, last: string, i: nat)
    requires i < |lines|
    ensures Blocks(lines, first, last, i) == BlockAt(lines, first, last, i) + Blocks(lines, first, last, i + 1)
    ensures Blocks(lines, first, last, |lines|) == []
  {
    hide BlockAt;
  }

  lemma NoBlock(lines: seq<string>, first: string, last: string, i: nat)
    requires i < |lines| && Strip(lines[i]) != first
    ensures BlockAt(lines, first, last, i) == []
  {
  }

  lemma BlockEnds(lines: seq<string>, first: string, last: string, i: nat, j: nat)
    requires i < j <= |lines| && Strip(lines[i]) == first
    requires (forall k :: i < k < j ==> Strip(lines[k]) != last) && (j < |lines| ==> Strip(lines[j]) == last)
    ensures BlockAt(lines, first, last, i) == if j < |lines| then [Join(lines[i..j + 1])] else []
  {
    hide Strip, Join;
  }

  method ScanBlocks(content: string, first: string, last: string) returns (out: seq<string>)
    ensures out == Blocks(Split(content), first, last, 0)
  {
    hide Strip, Join, Split, Blocks, BlockAt;
    out := [];
    var lines := Split(content);
    var starts := LineStarts(lines);
    JoinSplit(content);
    BlocksStep(lines, first, last, 0);
    var i := 0;
    while i < |lines|
      invariant 0 <= i <= |lines|
      invariant out + Blocks(lines, first, last, i) == Blocks(lines, first, last, 0)
    {
      BlocksStep(lines, first, last, i);
      if Strip(lines[i]) == first {
        var j := i + 1;
        while j < |lines| && Strip(lines[j]) != last
          invariant i < j <= |lines| && forall k :: i < k < j ==> Strip(lines[k]) != last
        {
          j := j + 1;
        }
        BlockEnds(lines, first, last, i, j);
        if j < |lines| {
          LineWindow(lines, i, j);
          out := out + [content[starts[i]..starts[j] + |lines[j]|]];
        }
      } else {
        NoBlock(lines, first, last, i);
      }
      i := i + 1;
    }
  }

  /** Runs one layer of the cascade. */
  method RunReplacer(layer: Layer, ratio: Ratio, content: string, find: string) returns (out: seq<string>)
    ensures out == Candidates(layer, ratio, content, find)
  {
    match layer {
      case Simple => out := if find != "" && Find(content, find, 0) >= 0 then [find] else [];
      case CharNormalized => out := CharNormalizedReplacer(content, find, CHAR_TRANSFORMS);
      case EscapeNormalized => out := CharNormalizedReplacer(content, find, ESCAPE_TRANSFORMS);
      case BlockAnchor => out := BlockAnchorReplacer(content, find);
      case TrimmedBoundary =>
        var lines := TrimBoundary(find);
        if lines == [] {
          return [];
        }
        out := ScanWindows(layer, ratio, content, find, |lines|);
      case _ =>
        if !Applicable(layer, find) {
          return [];
        }
        out := ScanWindows(layer, ratio, content, find, |FindLines(find)|);
    }
  }

  // ---------------------------------------------------------------- every candidate is real

  /** `cand` is the text of the consecutive lines `i..j` of the content. */
  ghost predicate IsLineWindow(content: string, cand: string, i: nat, j: nat) {
    i < j <= |Split(content)| && cand == Join(Split(content)[i..j])
  }

  lemma {:induction false} WindowsSound(layer: Layer, ratio: Ratio, find: string, lines: seq<string>, n: nat, k: nat,
                                        cand: string) returns (i: nat)
    requires WindowLayer(layer) && n >= 1 && cand in Windows(layer, ratio, find, lines, n, k)
    ensures k <= i && i + n <= |lines| && cand == Join(lines[i..i + n])
    ensures Accepts(layer, ratio, find, lines[i..i + n])
    decreases |lines| - k
  {
    hide Accepts, Join;
    if Accepts(layer, ratio, find, lines[k..k + n]) && cand == Join(lines[k..k + n]) {
      i := k;
    } else {
      i := WindowsSound(layer, ratio, find, lines, n, k + 1, cand);
    }
  }

  lemma {:induction false} WindowsComplete(layer: Layer, ratio: Ratio, find: string, lines: seq<string>, n: nat,
                                           k: nat, i: nat)
    requires WindowLayer(layer) && n >= 1 && k <= i && i + n <= |lines|
    requires Accepts(layer, ratio, find, lines[i..i + n])
    ensures Join(lines[i..i + n]) in Windows(layer, ratio, find, lines, n, k)
    decreases i - k
  {
    hide Accepts, Join;
    if k < i {
      WindowsComplete(layer, ratio, find, lines, n, k + 1, i);
    }
  }

  lemma {:induction false} BlocksSound(lines: seq<string>, first: string, last: string, k: nat, cand: string)
      returns (i: nat, j: nat)
    requires k <= |lines| && cand in Blocks(lines, first, last, k)
    ensures k <= i < j < |lines| && cand == Join(lines[i..j + 1])
    ensures Strip(lines[i]) == first && Strip(lines[j]) == last
    ensures forall m :: i < m < j ==> Strip(lines[m]) != last
    decreases |lines| - k
  {
    hide Strip, Join;
    j := NextAnchor(lines, last, k + 1);
    if Strip(lines[k]) == first && j < |lines| && cand == Join(lines[k..j + 1]) {
      i := k;
    } else {
      i, j := BlocksSound(lines, first, last, k + 1, cand);
    }
  }

  lemma WindowLayerYields(layer: Layer, ratio: Ratio, content: string, find: string, cand: string)
      returns (i: nat, j: nat)
    requires WindowLayer(layer) && cand in Candidates(layer, ratio, content, find)
    ensures IsLineWindow(content, cand, i, j)
    ensures j - i == |PatternLines(layer, find)| && Accepts(layer, ratio, find, Split(content)[i..j])
  {
    hide Accepts, Join, Split, Strip, PatternLines, Occurs, Spans, Slices, BlockCandidates, Windows, Norm;
    var n := |PatternLines(layer, find)|;
    i := WindowsSound(layer, ratio, find, Split(content), n, 0, cand);
    j := i + n;
  }

  lemma BlockLayerYields(content: string, find: string, cand: string) returns (i: nat, j: nat)
    requires cand in BlockCandidates(content, find)
    ensures IsLineWindow(content, cand, i, j) && j - i >= 2 && |FindLines(find)| >= 3
    ensures Strip(Split(content)[i]) == Strip(FindLines(find)[0])
    ensures Strip(Split(content)[j - 1]) == Strip(FindLines(find)[|FindLines(find)| - 1])
    ensures forall m :: i < m < j - 1 ==> Strip(Split(content)[m]) != Strip(FindLines(find)[|FindLines(find)| - 1])
  {
    hide Join, Split, Strip, FindLines, Blocks;
    var fl := FindLines(find);
    i, j := BlocksSound(Split(content), Strip(fl[0]), Strip(fl[|fl| - 1]), 0, cand);
    j := j + 1;
  }

  /** The six line-based layers yield the newline-join of consecutive lines of the content. */
  lemma LineLayersYieldWindows(layer: Layer, ratio: Ratio, content: string, find: string, cand: string)
      returns (i: nat, j: nat)
    requires WindowLayer(layer) || layer == BlockAnchor
    requires cand in Candidates(layer, ratio, content, find)
    ensures IsLineWindow(content, cand, i, j)
  {
    if layer == BlockAnchor {
      i, j := BlockLayerYields(content, find, cand);
    } else {
      i, j := WindowLayerYields(layer, ratio, content, find, cand);
    }
  }

  /** The two character-level layers yield substrings with the normal form of `find`. */
  lemma SpanLayersYieldEquivalents(layer: Layer, ratio: Ratio, content: string, find: string, cand: string)
      returns (p: nat, q: nat)
    requires layer == CharNormalized || layer == EscapeNormalized
    requires cand in Candidates(layer, ratio, content, find)
    ensures var ts := if layer == CharNormalized then CHAR_TRANSFORMS else ESCAPE_TRANSFORMS;
            && p <= q <= |content| && cand == content[p..q]
            && (p, q) in Spans(ts, content, find) && NText(ts, cand) == NText(ts, find)
  {
    var ts := if layer == CharNormalized then CHAR_TRANSFORMS else ESCAPE_TRANSFORMS;
    var spans := Spans(ts, content, find);
    var k :| 0 <= k < |spans| && cand == Slice(content, spans[k]);
    p, q := spans[k].0, spans[k].1;
    var _, _ := SpanSound(ts, content, find, p, q);
  }

  /** Whatever layer yields it, a candidate is a substring of the content. */
  lemma CandidatesAreReal(layer: Layer, ratio: Ratio, content: string, find: string, cand: string)
    requires cand in Candidates(layer, ratio, content, find)
    ensures Occurs(content, cand)
  {
    hide Accepts, Join, Split, Strip, PatternLines, Windows, Blocks, Spans, Slices, Norm;
    if layer == CharNormalized || layer == EscapeNormalized {
      var p, q := SpanLayersYieldEquivalents(layer, ratio, content, find, cand);
      assert At(content, cand, p);
    } else if layer != Simple {
      var i, j := LineLayersYieldWindows(layer, ratio, content, find, cand);
      JoinSplit(content);
      LineWindow(Split(content), i, j - 1);
      assert At(content, cand, Offset(Split(content), i));
    }
  }

  // ---------------------------------------------------------------- the strictness chain

  lemma {:induction false} LStripIndent(s: string, m: nat)
    requires m <= Width(s)
    ensures LStrip(s[m..]) == LStrip(s)
  {
    assert IsSpace(' ') && IsSpace('\t');
    hide IsSpace;
    if m > 0 {
      assert Width(s) == 1 + Width(s[1..]);
      LStripIndent(s[1..], m - 1);
      assert s[1..][m - 1..] == s[m..];
    }
  }

  lemma RemoveCommonIndentKeepsTrim(lines: seq<string>, j: nat)
    requires j < |lines|
    ensures Strip(RemoveCommonIndent(lines)[j]) == Strip(lines[j])
  {
    if !Blank(lines[j]) {
      LStripIndent(lines[j], CommonIndent(lines));
    }
  }

  /** A window accepted with the common indent ignored is accepted with every line trimmed. */
  lemma IndentationImpliesTrimmed(ratio: Ratio, find: string, window: seq<string>)
    requires Accepts(IndentationFlexible, ratio, find, window)
    ensures Accepts(LineTrimmed, ratio, find, window)
  {
    var lines := FindLines(find);
    assert |window| == |RemoveCommonIndent(window)| == |lines|;
    forall j | 0 <= j < |lines| ensures Strip(window[j]) == Strip(lines[j]) {
      RemoveCommonIndentKeepsTrim(window, j);
      RemoveCommonIndentKeepsTrim(lines, j);
    }
  }

  /** How far a left-to-right reading of the normal form has got. */
  datatype Gap = Start | Inside | Pending

  /** A one-pass reading of Norm: a pending gap becomes one space in front of the next word. */
  function NormScan(s: string, g: Gap): string {
    if s == "" then ""
    else if IsSpace(s[0]) then NormScan(s[1..], if g == Start then Start else Pending)
    else
      var word := [s[0]] + NormScan(s[1..], Inside);
      if g == Pending then " " + word else word
  }

  lemma {:induction false} RStripCons(c: char, s: string)
    ensures RStrip([c] + s) == if IsSpace(c) && Blank(s) then "" else [c] + RStrip(s)
    decreases |s|
  {
    var t := [c] + s;
    if s != "" {
      assert t[|t| - 1] == s[|s| - 1];
      if IsSpace(s[|s| - 1]) {
        RStripCons(c, s[..|s| - 1]);
        assert t[..|t| - 1] == [c] + s[..|s| - 1];
        assert Blank(s) <==> Blank(s[..|s| - 1]);
      }
    } else {
      assert t[..0] == "";
    }
  }

  lemma {:induction false} CollapseBlank(s: string)
    ensures Blank(Collapse(s)) <==> Blank(s)
    ensures Blank(s) ==> RStrip(Collapse(s)) == ""
    decreases |s|
  {
    if s != "" {
      if IsSpace(s[0]) {
        var rest := LStrip(s[1..]);
        CollapseBlank(rest);
        assert Collapse(s)[0] == ' ' && Collapse(s)[1..] == Collapse(rest);
        BlankLStrip(s[1..]);
        RStripCons(' ', Collapse(rest));
        BlankCons(s);
        BlankCons(Collapse(s));
      } else {
        assert !IsSpace(Collapse(s)[0]);
      }
    }
  }

  lemma {:induction false} ScanSkipsLead(s: string, y: string, g: Gap)
    requires g != Inside
    ensures NormScan(LStrip(s) + y, g) == NormScan(s + y, g)
  {
    if s != "" && IsSpace(s[0]) {
      ScanSkipsLead(s[1..], y, g);
      assert (s + y)[1..] == s[1..] + y;
    }
  }

  /** From inside a word the scan reads the right-stripped collapsed rest. */
  lemma {:induction false} ScanInside(s: string)
    ensures NormScan(s, Inside) == RStrip(Collapse(s))
    decreases |s|, 0
  {
    hide RStrip;
    if s == "" {
      assert RStrip("") == "";
    } else if IsSpace(s[0]) {
      ScanPending(s[1..]);
    } else {
      ScanInside(s[1..]);
      RStripCons(s[0], Collapse(s[1..]));
    }
  }

  lemma WordStep(l: string)
    requires l != "" && !IsSpace(l[0])
    ensures NormScan(l, Pending) == " " + ([l[0]] + NormScan(l[1..], Inside))
    ensures Collapse(l) == [l[0]] + Collapse(l[1..])
    ensures !Blank(Collapse(l))
  {
    hide IsSpace, LStrip, Blank;
    BlankCons(Collapse(l));
  }

  /** Behind a gap it reads one space and the collapsed rest, unless only whitespace is left. */
  lemma {:induction false} ScanPending(s: string)
    ensures NormScan(s, Pending) == RStrip(" " + Collapse(LStrip(s)))
    decreases |s|, 1
  {
    assert IsSpace(' ') && NormScan("", Pending) == "" && Collapse("") == "" && Blank("");
    hide RStrip, IsSpace, NormScan, Collapse, LStrip, Blank;
    var l := LStrip(s);
    ScanSkipsLead(s, "", Pending);
    assert s + "" == s && l + "" == l;
    RStripCons(' ', Collapse(l));
    if l != "" {
      ScanInside(l[1..]);
      RStripCons(l[0], Collapse(l[1..]));
      WordStep(l);
    }
  }

  /** The scan computes collapse-then-strip. */
  lemma NormIsScan(s: string)
    ensures Norm(s) == NormScan(s, Start)
  {
    hide RStrip;
    var l := LStrip(s);
    ScanSkipsLead(s, "", Start);
    assert s + "" == s && l + "" == l;
    LStripCollapse(s);
    if l == "" {
      assert RStrip("") == "";
    } else {
      ScanInside(l[1..]);
      RStripCons(l[0], Collapse(l[1..]));
    }
  }

  lemma LStripCollapse(s: string)
    ensures LStrip(Collapse(s)) == Collapse(LStrip(s))
  {
    assert IsSpace(' ');
    hide IsSpace;
    if s != "" {
      var c := Collapse(s);
      if IsSpace(s[0]) {
        var rest := LStrip(s[1..]);
        assert c[1..] == Collapse(rest);
        assert rest != "" ==> Collapse(rest)[0] == rest[0];
      }
    }
  }

  lemma {:induction false} ScanSkipsTrail(x: string, y: string, g: Gap)
    requires y == "" || IsSpace(y[0])
    ensures NormScan(RStrip(x) + y, g) == NormScan(x + y, g)
    decreases |x|
  {
    if x != "" && IsSpace(x[|x| - 1]) {
      var x' := x[..|x| - 1];
      ScanSkipsTrail(x', y, g);
      ScanDropsSpace(x', x[|x| - 1], y, g);
      assert x' + [x[|x| - 1]] + y == x + y;
    }
  }

  lemma {:induction false} ScanDropsSpace(x: string, c: char, y: string, g: Gap)
    requires IsSpace(c) && (y == "" || IsSpace(y[0]))
    ensures NormScan(x + [c] + y, g) == NormScan(x + y, g)
    decreases |x|
  {
    if x == "" {
      assert (x + [c] + y)[1..] == y && x + y == y;
    } else {
      var g' := if !IsSpace(x[0]) then Inside else if g == Start then Start else Pending;
      ScanDropsSpace(x[1..], c, y, g');
      assert (x + [c] + y)[1..] == x[1..] + [c] + y;
      assert (x + y)[1..] == x[1..] + y;
    }
  }

  lemma ScanStrip(x: string, y: string, g: Gap)
    requires g != Inside && (y == "" || IsSpace(y[0]))
    ensures NormScan(Strip(x) + y, g) == NormScan(x + y, g)
  {
    ScanSkipsTrail(LStrip(x), y, g);
    ScanSkipsLead(x, y, g);
  }

  /** Reading `x + "\n" + y` reads `x`, then `y` from a gap that depends on `x` alone. */
  function After(x: string, g: Gap): Gap {
    if Blank(x) && g == Start then Start else Pending
  }

  lemma {:induction false} ScanThrough(x: string, y: string, g: Gap)
    ensures NormScan(x + "\n" + y, g) == NormScan(x, g) + NormScan(y, After(x, g))
    decreases |x|
  {
    var t := x + "\n" + y;
    if x == "" {
      assert t[1..] == y;
    } else {
      var g' := if !IsSpace(x[0]) then Inside else if g == Start then Start else Pending;
      ScanThrough(x[1..], y, g');
      assert t[1..] == x[1..] + "\n" + y;
      BlankCons(x);
      assert After(x, g) == After(x[1..], g');
    }
  }

  /** Lines that agree after trimming have the same whitespace-normal form once joined. */
  lemma {:induction false} TrimmedLinesScanAlike(a: seq<string>, b: seq<string>, g: Gap)
    requires SameTrimmed(a, b) && g != Inside
    ensures NormScan(Join(a), g) == NormScan(Join(b), g)
    decreases |a|
  {
    if a != [] {
      ScanStrip(a[0], "", g);
      ScanStrip(b[0], "", g);
      assert a[0] + "" == a[0] && b[0] + "" == b[0];
      StripBlank(a[0]);
      StripBlank(b[0]);
      if |a| > 1 {
        assert SameTrimmed(a[1..], b[1..]);
        TrimmedLinesScanAlike(a[1..], b[1..], After(a[0], g));
        ScanThrough(a[0], Join(a[1..]), g);
        ScanThrough(b[0], Join(b[1..]), g);
      }
    }
  }

  /** Dropping the empty line behind a final newline does not change the normal form. */
  lemma NormFindLines(find: string)
    ensures Norm(Join(FindLines(find))) == Norm(find)
  {
    var lines := Split(find);
    JoinSplit(find);
    var fl := FindLines(find);
    if fl != lines {
      assert lines == fl + [""];
      NormIsScan(Join(fl));
      NormIsScan(find);
      if fl != [] {
        JoinConcat(fl, [""]);
        ScanThrough(Join(fl), "", Start);
      } else {
        assert find == "";
      }
    }
  }

  /** A window accepted with every line trimmed is accepted with runs of whitespace collapsed. */
  lemma TrimmedImpliesWhitespace(ratio: Ratio, find: string, window: seq<string>)
    requires Accepts(LineTrimmed, ratio, find, window)
    ensures Accepts(WhitespaceNormalized, ratio, find, window)
  {
    TrimmedLinesScanAlike(window, FindLines(find), Start);
    NormIsScan(Join(window));
    NormIsScan(Join(FindLines(find)));
    NormFindLines(find);
  }

  /** ... and, when difflib rates equal strings as similar, with fuzzy comparison. */
  lemma TrimmedImpliesContext(ratio: Ratio, find: string, window: seq<string>)
    requires Accepts(LineTrimmed, ratio, find, window)
    requires forall t :: ratio(t, t) >= CONTEXT_THRESHOLD
    ensures Accepts(ContextAware, ratio, find, window)
  {
    assert StripAll(window) == StripAll(FindLines(find));
  }

  lemma NormBlank(s: string)
    ensures Norm(s) == "" <==> Blank(s)
  {
    StripBlank(Collapse(s));
    CollapseBlank(s);
  }

  /** Candidates grow from layer to layer: indentation-flexible, line-trimmed, whitespace-normalized. */
  lemma StrictnessChain(ratio: Ratio, content: string, find: string, cand: string)
    ensures cand in Candidates(IndentationFlexible, ratio, content, find) ==>
              cand in Candidates(LineTrimmed, ratio, content, find)
    ensures cand in Candidates(LineTrimmed, ratio, content, find) && !Blank(find) ==>
              cand in Candidates(WhitespaceNormalized, ratio, content, find)
  {
    hide Accepts, Join, Split, Norm, FindLines, Blank, Occurs, Spans, Blocks;
    var lines, n := Split(content), |FindLines(find)|;
    NormBlank(find);
    if cand in Candidates(IndentationFlexible, ratio, content, find) {
      var i := WindowsSound(IndentationFlexible, ratio, find, lines, n, 0, cand);
      IndentationImpliesTrimmed(ratio, find, lines[i..i + n]);
      WindowsComplete(LineTrimmed, ratio, find, lines, n, 0, i);
    }
    if cand in Candidates(LineTrimmed, ratio, content, find) && !Blank(find) {
      var i := WindowsSound(LineTrimmed, ratio, find, lines, n, 0, cand);
      TrimmedImpliesWhitespace(ratio, find, lines[i..i + n]);
      WindowsComplete(WhitespaceNormalized, ratio, find, lines, n, 0, i);
    }
  }
}
