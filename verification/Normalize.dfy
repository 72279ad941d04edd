// backend/editing/normalize.py: a normalized text with a map back to source positions.
module Normalize {
  import opened Wrappers
  import opened Text

  datatype Transform = Quotes | Dashes | Uspace | Unescape

  const CHAR_TRANSFORMS: seq<Transform> := [Quotes, Dashes, Uspace]
  const ESCAPE_TRANSFORMS: seq<Transform> := [Unescape]

  /** What a transform answers at a position: nothing, or how much it consumed and what it emitted. */
  datatype Hit = NoHit | Hit(consumed: nat, emitted: string)

  predicate IsSingleQuote(c: char) { '\U{2018}' <= c <= '\U{201B}' }
  predicate IsDoubleQuote(c: char) { '\U{201C}' <= c <= '\U{201F}' }
  predicate IsDash(c: char) { '\U{2010}' <= c <= '\U{2015}' || c == '\U{2212}' }
  predicate IsUspace(c: char) { c == ' ' || c == '\U{3000}' }

  function Unescaped(c: char): (e: Option<char>) {
    match c
    case 'n' => Some('\n')
    case 't' => Some('\t')
    case 'r' => Some('\r')
    case '"' => Some('"')
    case '\'' => Some('\'')
    case '\\' => Some('\\')
    case '`' => Some('`')
    case '0' => Some('\0')
    case _ => None
  }

  function Apply(t: Transform, s: string, i: nat): (h: Hit)
    requires i < |s|
    ensures h.Hit? ==> |h.emitted| == 1 && 1 <= h.consumed && i + h.consumed <= |s|
  {
    var c := s[i];
    match t
    case Quotes => if IsSingleQuote(c) then Hit(1, "'") else if IsDoubleQuote(c) then Hit(1, "\"") else NoHit
    case Dashes => if IsDash(c) then Hit(1, "-") else NoHit
    case Uspace => if IsUspace(c) then Hit(1, " ") else NoHit
    case Unescape =>
      if c == '\\' && i + 1 < |s| && Unescaped(s[i + 1]).Some? then Hit(2, [Unescaped(s[i + 1]).value])
      else NoHit
  }

  /** The first transform that hits; the character itself when none does. */
  function Token(ts: seq<Transform>, s: string, i: nat): (h: Hit)
    requires i < |s|
    ensures h.Hit? && |h.emitted| == 1 && 1 <= h.consumed && i + h.consumed <= |s|
  {
    if ts == [] then Hit(1, [s[i]])
    else if Apply(ts[0], s, i).Hit? then Apply(ts[0], s, i)
    else Token(ts[1..], s, i)
  }

  function TextFrom(ts: seq<Transform>, s: string, i: nat): (text: string)
    requires i <= |s|
    decreases |s| - i
  {
    if i == |s| then "" else
    var tok := Token(ts, s, i);
    tok.emitted + TextFrom(ts, s, i + tok.consumed)
  }

  function SrcFrom(ts: seq<Transform>, s: string, i: nat): (src: seq<nat>)
    requires i <= |s|
    ensures |src| == |TextFrom(ts, s, i)| + 1
    ensures src[0] == i && src[|src| - 1] == |s|
    decreases |s| - i
  {
    if i == |s| then [i] else [i] + SrcFrom(ts, s, i + Token(ts, s, i).consumed)
  }

  function NText(ts: seq<Transform>, s: string): string { TextFrom(ts, s, 0) }

  function NSrc(ts: seq<Transform>, s: string): (src: seq<nat>)
    ensures |src| == |NText(ts, s)| + 1
  {
    SrcFrom(ts, s, 0)
  }

  /** The loop over the transforms at one position, left at the first hit. */
  method FirstHit(s: string, i: nat, transforms: seq<Transform>) returns (hit: Hit)
    requires i < |s|
    ensures hit == Token(transforms, s, i)
  {
    hit := Hit(1, [s[i]]);
    var k := 0;
    while k < |transforms|
      invariant 0 <= k <= |transforms| && hit == Hit(1, [s[i]])
      invariant Token(transforms[k..], s, i) == Token(transforms, s, i)
    {
      assert transforms[k..][1..] == transforms[k + 1..];
      var r := Apply(transforms[k], s, i);
      if r.Hit? {
        return r;
      }
      k := k + 1;
    }
  }

  lemma ReadStep(ts: seq<Transform>, s: string, i: nat)
    requires i <= |s|
    ensures i == |s| ==> TextFrom(ts, s, i) == "" && SrcFrom(ts, s, i) == [i]
    ensures i < |s| ==> var tok := Token(ts, s, i);
                        && TextFrom(ts, s, i) == tok.emitted + TextFrom(ts, s, i + tok.consumed)
                        && SrcFrom(ts, s, i) == [i] + SrcFrom(ts, s, i + tok.consumed)
  {
    hide Token;
  }

  method NormalizeText(s: string, transforms: seq<Transform>) returns (text: string, src: seq<nat>)
    ensures text == NText(transforms, s) && src == NSrc(transforms, s)
  {
    hide Token, TextFrom, SrcFrom;
    text, src := "", [];
    var i, n := 0, |s|;
    while i < n
      invariant 0 <= i <= n
      invariant text + TextFrom(transforms, s, i) == TextFrom(transforms, s, 0)
      invariant src + SrcFrom(transforms, s, i) == SrcFrom(transforms, s, 0)
    {
      ReadStep(transforms, s, i);
      var hit := FirstHit(s, i, transforms);
      text := text + hit.emitted;
      assert seq(|hit.emitted|, _ => i) == [i];
      src := src + seq(|hit.emitted|, _ => i);
      i := i + hit.consumed;
    }
    ReadStep(transforms, s, n);
    src := src + [n];
  }

  // ---------------------------------------------------------------- position-map soundness

  /** The map is strictly increasing, starts at 0 and ends at the sentinel `len(s)`. */
  lemma {:induction false} SrcIncreasing(ts: seq<Transform>, s: string, i: nat)
    requires i <= |s|
    ensures forall a, b :: 0 <= a < b < |SrcFrom(ts, s, i)| ==> SrcFrom(ts, s, i)[a] < SrcFrom(ts, s, i)[b]
    ensures forall a :: 0 <= a < |SrcFrom(ts, s, i)| ==> i <= SrcFrom(ts, s, i)[a] <= |s|
    decreases |s| - i
  {
    if i < |s| {
      SrcIncreasing(ts, s, i + Token(ts, s, i).consumed);
    }
  }

  /** Restarting at the k-th mapped position yields the k-th tail of the text and of the map. */
  lemma {:induction false} Restart(ts: seq<Transform>, s: string, i: nat, k: nat)
    requires i <= |s| && k < |SrcFrom(ts, s, i)|
    ensures SrcFrom(ts, s, i)[k] <= |s|
    ensures TextFrom(ts, s, SrcFrom(ts, s, i)[k]) == TextFrom(ts, s, i)[k..]
    ensures SrcFrom(ts, s, SrcFrom(ts, s, i)[k]) == SrcFrom(ts, s, i)[k..]
    decreases k
  {
    if k > 0 {
      Restart(ts, s, i + Token(ts, s, i).consumed, k - 1);
    }
  }

  /** A token consumed inside a slice is the token of the whole string: the lookahead stays inside. */
  lemma {:induction false} TokenInSlice(ts: seq<Transform>, s: string, lo: nat, hi: nat, i: nat)
    requires lo <= i < hi <= |s| && i + Token(ts, s, i).consumed <= hi
    ensures Token(ts, s[lo..hi], i - lo) == Token(ts, s, i)
  {
    if ts != [] && Apply(ts[0], s, i).NoHit? {
      TokenInSlice(ts[1..], s, lo, hi, i);
    }
  }

  lemma {:induction false} SliceFrom(ts: seq<Transform>, s: string, lo: nat, hi: nat, i: nat, k: nat)
    requires lo <= i <= |s| && k < |SrcFrom(ts, s, i)| && SrcFrom(ts, s, i)[k] == hi <= |s|
    ensures i <= hi
    ensures TextFrom(ts, s[lo..hi], i - lo) == TextFrom(ts, s, i)[..k]
    decreases k
  {
    SrcIncreasing(ts, s, i);
    if k > 0 {
      var next := i + Token(ts, s, i).consumed;
      SliceFrom(ts, s, lo, hi, next, k - 1);
      TokenInSlice(ts, s, lo, hi, i);
    }
  }

  /** Cutting the source at two mapped positions and normalizing is cutting the normalized text. */
  lemma SliceNormalizes(ts: seq<Transform>, s: string, a: nat, b: nat)
    requires a <= b <= |NText(ts, s)|
    ensures NSrc(ts, s)[a] <= NSrc(ts, s)[b] <= |s|
    ensures NText(ts, s[NSrc(ts, s)[a]..NSrc(ts, s)[b]]) == NText(ts, s)[a..b]
  {
    hide TextFrom, SrcFrom;
    SrcIncreasing(ts, s, 0);
    Restart(ts, s, 0, a);
    SliceFrom(ts, s, NSrc(ts, s)[a], NSrc(ts, s)[b], NSrc(ts, s)[a], b - a);
    assert NText(ts, s)[a..][..b - a] == NText(ts, s)[a..b];
  }

  /** Normalization distributes over cuts at mapped positions. */
  lemma CutsNormalize(ts: seq<Transform>, s: string, a: nat, b: nat)
    requires a <= b <= |NText(ts, s)|
    ensures var p, q := NSrc(ts, s)[a], NSrc(ts, s)[b];
            p <= q <= |s| && NText(ts, s) == NText(ts, s[..p]) + NText(ts, s[p..q]) + NText(ts, s[q..])
  {
    var text, src := NText(ts, s), NSrc(ts, s);
    SliceNormalizes(ts, s, 0, a);
    SliceNormalizes(ts, s, a, b);
    SliceNormalizes(ts, s, b, |text|);
    assert s[0..src[a]] == s[..src[a]] && s[src[b]..|s|] == s[src[b]..];
    assert text == text[0..a] + text[a..b] + text[b..|text|];
  }

  // ---------------------------------------------------------------- spans

  type Span = (nat, nat)

  function SpansFrom(text: string, src: seq<nat>, nf: string, start: nat): seq<Span>
    requires |src| == |text| + 1 && start <= |text| && nf != ""
    decreases |text| - start
  {
    var idx := Find(text, nf, start);
    if idx == -1 then [] else [(src[idx], src[idx + |nf|])] + SpansFrom(text, src, nf, idx + 1)
  }

  function Spans(ts: seq<Transform>, content: string, find: string): seq<Span> {
    var nf := NText(ts, find);
    if nf == "" then [] else SpansFrom(NText(ts, content), NSrc(ts, content), nf, 0)
  }

  method IterSpans(content: string, find: string, transforms: seq<Transform>) returns (spans: seq<Span>)
    ensures spans == Spans(transforms, content, find)
  {
    spans := [];
    var nf, _ := NormalizeText(find, transforms);
    if nf == "" {
      return;
    }
    var text, src := NormalizeText(content, transforms);
    spans := ScanSpans(text, src, nf);
  }

  lemma SpansStep(text: string, src: seq<nat>, nf: string, start: nat)
    requires |src| == |text| + 1 && start <= |text| && nf != ""
    ensures var idx := Find(text, nf, start);
            && (idx == -1 ==> SpansFrom(text, src, nf, start) == [])
            && (idx != -1 ==>
                 && start <= idx < |text| && idx + |nf| <= |text|
                 && SpansFrom(text, src, nf, start) == [(src[idx], src[idx + |nf|])] + SpansFrom(text, src, nf, idx + 1))
  {
    hide Find;
  }

  /** The search loop of iter_spans: resumes one position after each match, so matches may overlap. */
  method ScanSpans(text: string, src: seq<nat>, nf: string) returns (spans: seq<Span>)
    requires |src| == |text| + 1 && nf != ""
    ensures spans == SpansFrom(text, src, nf, 0)
  {
    hide Find, At, SpansFrom;
    spans := [];
    var start := 0;
    while true
      invariant 0 <= start <= |text|
      invariant spans + SpansFrom(text, src, nf, start) == SpansFrom(text, src, nf, 0)
      decreases |text| - start
    {
      SpansStep(text, src, nf, start);
      var idx := Find(text, nf, start);
      if idx == -1 {
        break;
      }
      spans := spans + [(src[idx], src[idx + |nf|])];
      start := idx + 1;
    }
  }

  /** Normalized position `a` starts an occurrence of `nf` whose source span is (p, q). */
  predicate MatchAt(text: string, src: seq<nat>, nf: string, a: nat, p: nat, q: nat)
    requires |src| == |text| + 1
  {
    At(text, nf, a) && src[a] == p && src[a + |nf|] == q
  }

  lemma {:induction false} SpansFromSound(text: string, src: seq<nat>, nf: string, start: nat, p: nat, q: nat)
      returns (a: nat)
    requires |src| == |text| + 1 && start <= |text| && nf != ""
    requires (p, q) in SpansFrom(text, src, nf, start)
    ensures start <= a && MatchAt(text, src, nf, a, p, q)
    decreases |text| - start
  {
    var idx := Find(text, nf, start);
    if (p, q) == (src[idx], src[idx + |nf|]) {
      a := idx;
    } else {
      a := SpansFromSound(text, src, nf, idx + 1, p, q);
    }
  }

  lemma {:induction false} SpansFromComplete(text: string, src: seq<nat>, nf: string, start: nat, a: nat, p: nat, q: nat)
    requires |src| == |text| + 1 && start <= a <= |text| && nf != ""
    requires MatchAt(text, src, nf, a, p, q)
    ensures (p, q) in SpansFrom(text, src, nf, start)
    decreases |text| - start
  {
    hide Find, At, SpansFrom;
    SpansStep(text, src, nf, start);
    var idx := Find(text, nf, start);
    if idx < a {
      SpansFromComplete(text, src, nf, idx + 1, a, p, q);
    }
  }

  /** `p` and `q` are the source positions of the normalized positions `a <= b`. */
  ghost predicate Aligned(ts: seq<Transform>, s: string, a: nat, b: nat, p: nat, q: nat) {
    a <= b <= |NText(ts, s)| && NSrc(ts, s)[a] == p && NSrc(ts, s)[b] == q && p <= q <= |s|
  }

  /** Every span yielded lies between two mapped positions and normalizes to the normal form of `find`. */
  lemma SpanSound(ts: seq<Transform>, content: string, find: string, p: nat, q: nat) returns (a: nat, b: nat)
    requires (p, q) in Spans(ts, content, find)
    ensures Aligned(ts, content, a, b, p, q) && NText(ts, content[p..q]) == NText(ts, find)
  {
    var nf, text, src := NText(ts, find), NText(ts, content), NSrc(ts, content);
    a := SpansFromSound(text, src, nf, 0, p, q);
    b := a + |nf|;
    SliceNormalizes(ts, content, a, b);
  }

  /** No match between mapped positions is missed. */
  lemma SpanComplete(ts: seq<Transform>, content: string, find: string, a: nat, b: nat, p: nat, q: nat)
    requires NText(ts, find) != ""
    requires Aligned(ts, content, a, b, p, q) && NText(ts, content[p..q]) == NText(ts, find)
    ensures (p, q) in Spans(ts, content, find)
  {
    var nf, text, src := NText(ts, find), NText(ts, content), NSrc(ts, content);
    SliceNormalizes(ts, content, a, b);
    assert |text[a..b]| == |nf|;
    SpansFromComplete(text, src, nf, 0, a, p, q);
  }

  /** Every span cuts the content into three parts whose normal forms concatenate to that of the content. */
  lemma SpanSplits(ts: seq<Transform>, content: string, find: string, p: nat, q: nat)
    requires (p, q) in Spans(ts, content, find)
    ensures p <= q <= |content| && NText(ts, content[p..q]) == NText(ts, find)
    ensures NText(ts, content) == NText(ts, content[..p]) + NText(ts, find) + NText(ts, content[q..])
  {
    var a, b := SpanSound(ts, content, find, p, q);
    CutsNormalize(ts, content, a, b);
  }

  // ---------------------------------------------------------------- the character layer

  /** What the character transforms make of one character. */
  function Fold(c: char): char {
    if IsSingleQuote(c) then '\'' else if IsDoubleQuote(c) then '"'
    else if IsDash(c) then '-' else if IsUspace(c) then ' ' else c
  }

  lemma CharToken(s: string, i: nat)
    requires i < |s|
    ensures Token(CHAR_TRANSFORMS, s, i) == Hit(1, [Fold(s[i])])
  {
    var c := s[i];
    assert CHAR_TRANSFORMS[1..] == [Dashes, Uspace];
    assert [Dashes, Uspace][1..] == [Uspace];
    assert [Uspace][1..] == [];
    assert Token([Uspace], s, i) == Hit(1, [if IsUspace(c) then ' ' else c]);
    assert Token([Dashes, Uspace], s, i) == if IsDash(c) then Hit(1, "-") else Token([Uspace], s, i);
  }

  function FoldAll(s: string): (r: string)
    ensures |r| == |s| && forall k :: 0 <= k < |s| ==> r[k] == Fold(s[k])
  {
    seq(|s|, k requires 0 <= k < |s| => Fold(s[k]))
  }

  function UpFrom(i: nat, n: nat): (r: seq<nat>)
    requires i <= n
    ensures |r| == n - i + 1 && forall k :: 0 <= k < |r| ==> r[k] == i + k
    decreases n - i
  {
    if i == n then [i] else [i] + UpFrom(i + 1, n)
  }

  lemma {:induction false} CharTextFrom(s: string, i: nat)
    requires i <= |s|
    ensures TextFrom(CHAR_TRANSFORMS, s, i) == FoldAll(s[i..])
    decreases |s| - i
  {
    if i < |s| {
      CharToken(s, i);
      CharTextFrom(s, i + 1);
      assert FoldAll(s[i..]) == [Fold(s[i])] + FoldAll(s[i + 1..]);
    }
  }

  lemma {:induction false} CharSrcFrom(s: string, i: nat)
    requires i <= |s|
    ensures SrcFrom(CHAR_TRANSFORMS, s, i) == UpFrom(i, |s|)
    decreases |s| - i
  {
    if i < |s| {
      hide SrcFrom;
      CharSrcStep(s, i);
      CharSrcFrom(s, i + 1);
    }
  }

  lemma CharSrcStep(s: string, i: nat)
    requires i < |s|
    ensures SrcFrom(CHAR_TRANSFORMS, s, i) == [i] + SrcFrom(CHAR_TRANSFORMS, s, i + 1)
  {
    hide Token, SrcFrom;
    CharToken(s, i);
    ReadStep(CHAR_TRANSFORMS, s, i);
  }

  /** The character layer keeps length and maps position by position. */
  lemma CharNormal(s: string)
    ensures NText(CHAR_TRANSFORMS, s) == FoldAll(s)
    ensures NSrc(CHAR_TRANSFORMS, s) == UpFrom(0, |s|)
  {
    CharTextFrom(s, 0);
    CharSrcFrom(s, 0);
    assert s[0..] == s;
  }

  lemma CharConcat(a: string, b: string)
    ensures NText(CHAR_TRANSFORMS, a + b) == NText(CHAR_TRANSFORMS, a) + NText(CHAR_TRANSFORMS, b)
  {
    CharNormal(a);
    CharNormal(b);
    CharNormal(a + b);
  }

  /** In the character layer every position is mapped, so every equivalent substring is yielded. */
  lemma CharSpansExact(content: string, find: string, p: nat, q: nat)
    requires find != "" && p <= q <= |content|
    ensures (p, q) in Spans(CHAR_TRANSFORMS, content, find) <==>
            NText(CHAR_TRANSFORMS, content[p..q]) == NText(CHAR_TRANSFORMS, find)
  {
    CharNormal(content);
    CharNormal(find);
    assert Aligned(CHAR_TRANSFORMS, content, p, q, p, q);
    if (p, q) in Spans(CHAR_TRANSFORMS, content, find) {
      var _, _ := SpanSound(CHAR_TRANSFORMS, content, find, p, q);
    } else if NText(CHAR_TRANSFORMS, content[p..q]) == NText(CHAR_TRANSFORMS, find) {
      SpanComplete(CHAR_TRANSFORMS, content, find, p, q, p, q);
    }
  }

  /** The escape layer does not look inside an escape: in `\\n` (backslash, backslash, n) the
      substring `\n` normalizes to a newline, yet it is not yielded for a newline. */
  lemma EscapeSkipsUnaligned()
    ensures var content := ['\\', '\\', 'n'];
            && NText(ESCAPE_TRANSFORMS, content[1..3]) == "\n" == NText(ESCAPE_TRANSFORMS, "\n")
            && Spans(ESCAPE_TRANSFORMS, content, "\n") == []
  {
    var ts, content := ESCAPE_TRANSFORMS, ['\\', '\\', 'n'];
    assert content[1..3] == ['\\', 'n'];
    assert TextFrom(ts, ['\\', 'n'], 0) == "\n" + TextFrom(ts, ['\\', 'n'], 2);
    assert ts[1..] == [];
    assert Token(ts, "\n", 0) == Hit(1, "\n");
    assert TextFrom(ts, "\n", 0) == "\n" + TextFrom(ts, "\n", 1);
    assert Token(ts, content, 2) == Hit(1, "n");
    assert TextFrom(ts, content, 2) == "n" + TextFrom(ts, content, 3);
    assert NText(ts, content) == "\\" + TextFrom(ts, content, 2) == ['\\', 'n'];
  }

  /** The only characters turned into a space are the two that are keys of the space table; the
      no-break space and the other Unicode spaces are left alone. */
  lemma FoldedToSpace(c: char)
    ensures Fold(c) == ' ' <==> c == ' ' || c == '\U{3000}'
    ensures Fold('\U{00A0}') == '\U{00A0}' && Fold('\U{2003}') == '\U{2003}'
  {
  }

  // ---------------------------------------------------------------- the two normal forms, read off the text

  /** Character by character, each quote, dash and wide space becomes its ASCII counterpart and
      everything else stays. */
  lemma CharTable(s: string)
    ensures var r := NText(CHAR_TRANSFORMS, s);
            |r| == |s| && forall k :: 0 <= k < |s| ==>
              if s[k] in ['\U{2018}', '\U{2019}', '\U{201A}', '\U{201B}'] then r[k] == '\''
              else if s[k] in ['\U{201C}', '\U{201D}', '\U{201E}', '\U{201F}'] then r[k] == '"'
              else if s[k] in ['\U{2010}', '\U{2011}', '\U{2012}', '\U{2013}', '\U{2014}', '\U{2015}', '\U{2212}'] then r[k] == '-'
              else if s[k] == '\U{3000}' then r[k] == ' '
              else r[k] == s[k]
  {
    hide NText;
    CharNormal(s);
  }

  /** What an escape stands for, by the character behind its backslash. */
  const ESCAPES := map['n' := '\n', 't' := '\t', 'r' := '\r', '"' := '"', '\'' := '\'', '\\' := '\\', '`' := '`', '0' := '\0']

  lemma EscapeToken(s: string, i: nat)
    requires i < |s|
    ensures Token(ESCAPE_TRANSFORMS, s, i)
            == if s[i] == '\\' && i + 1 < |s| && s[i + 1] in ESCAPES then Hit(2, [ESCAPES[s[i + 1]]]) else Hit(1, [s[i]])
  {
    assert ESCAPE_TRANSFORMS[1..] == [];
  }

  lemma {:induction false} EscapeSuffix(s: string, i: nat, k: nat)
    requires i <= k <= |s|
    ensures TextFrom(ESCAPE_TRANSFORMS, s, k) == TextFrom(ESCAPE_TRANSFORMS, s[i..], k - i)
    decreases |s| - k
  {
    hide Token, TextFrom, SrcFrom;
    var ts, t := ESCAPE_TRANSFORMS, s[i..];
    ReadStep(ts, s, k);
    ReadStep(ts, t, k - i);
    if k < |s| {
      SameToken(s, i, k);
      EscapeSuffix(s, i, k + Token(ts, s, k).consumed);
    }
  }

  lemma SameToken(s: string, i: nat, k: nat)
    requires i <= k < |s|
    ensures Token(ESCAPE_TRANSFORMS, s, k) == Token(ESCAPE_TRANSFORMS, s[i..], k - i)
  {
    assert ESCAPE_TRANSFORMS[1..] == [];
    assert s[i..][k - i] == s[k] && (k + 1 < |s| ==> s[i..][k + 1 - i] == s[k + 1]);
  }

  /** Read from the left, a backslash and one of the eight known characters become what they stand for;
      any other character, a backslash that escapes nothing included, stays. */
  lemma EscapeReads(s: string)
    ensures NText(ESCAPE_TRANSFORMS, "") == ""
    ensures s != "" ==>
              NText(ESCAPE_TRANSFORMS, s)
              == if |s| > 1 && s[0] == '\\' && s[1] in ESCAPES then [ESCAPES[s[1]]] + NText(ESCAPE_TRANSFORMS, s[2..])
                 else [s[0]] + NText(ESCAPE_TRANSFORMS, s[1..])
  {
    hide Token, TextFrom;
    ReadStep(ESCAPE_TRANSFORMS, "", 0);
    if s != "" {
      ReadStep(ESCAPE_TRANSFORMS, s, 0);
      EscapeToken(s, 0);
      var n := Token(ESCAPE_TRANSFORMS, s, 0).consumed;
      EscapeSuffix(s, n, n);
    }
  }

  lemma {:induction false} SpansFromSorted(text: string, src: seq<nat>, nf: string, start: nat)
    requires |src| == |text| + 1 && start <= |text| && nf != ""
    requires forall a, b :: 0 <= a < b < |src| ==> src[a] < src[b]
    ensures var r := SpansFrom(text, src, nf, start); forall i, j :: 0 <= i < j < |r| ==> r[i].0 < r[j].0
    decreases |text| - start
  {
    hide Find, SpansFrom;
    SpansStep(text, src, nf, start);
    var idx := Find(text, nf, start);
    if idx != -1 {
      SpansFromSorted(text, src, nf, idx + 1);
      var rest := SpansFrom(text, src, nf, idx + 1);
      forall j | 0 <= j < |rest| ensures src[idx] < rest[j].0 {
        assert rest[j] in rest;
        var a := SpansFromSound(text, src, nf, idx + 1, rest[j].0, rest[j].1);
      }
    }
  }

  /** The spans are yielded from left to right, none twice. */
  lemma SpansSorted(ts: seq<Transform>, content: string, find: string)
    ensures var r := Spans(ts, content, find); forall i, j :: 0 <= i < j < |r| ==> r[i].0 < r[j].0
  {
    hide SpansFrom, SrcFrom, TextFrom;
    SrcIncreasing(ts, content, 0);
    var text, src, nf := NText(ts, content), NSrc(ts, content), NText(ts, find);
    assert src == SrcFrom(ts, content, 0);
    if nf != "" {
      SpansFromSorted(text, src, nf, 0);
      assert Spans(ts, content, find) == SpansFrom(text, src, nf, 0);
    } else {
      assert Spans(ts, content, find) == [];
    }
  }
}
