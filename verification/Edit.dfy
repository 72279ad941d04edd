// backend/editing/edit.py and recovery.py: locate, check uniqueness, replace; ordered batches.
module Edit {
  import opened Wrappers
  import opened Text
  import opened Normalize
  import opened Replacers
  import opened Indent

  datatype EditError =
    | EmptyOld
    | SameStrings
    | NotFound
    | NotUnique(total: nat, blocks: nat)
    | NoEdits
    | AtEdit(index: nat, of: nat, cause: EditError)

  // ---------------------------------------------------------------- the equivalence class

  /** The usable candidates, each once, in order of first appearance. */
  function FirstSeen(content: string, cands: seq<string>): (r: seq<string>)
    ensures forall c :: c in r <==> c in cands && c != "" && Occurs(content, c)
    ensures forall i, j :: 0 <= i < j < |r| ==> r[i] != r[j]
  {
    if cands == [] then []
    else
      var cand := cands[|cands| - 1];
      var seen := FirstSeen(content, cands[..|cands| - 1]);
      assert forall c :: c in cands <==> c == cand || c in cands[..|cands| - 1];
      if cand != "" && Occurs(content, cand) && cand !in seen then seen + [cand] else seen
  }

  function Usable(layer: Layer, ratio: Ratio, content: string, find: string): seq<string> {
    FirstSeen(content, Candidates(layer, ratio, content, find))
  }

  datatype Class = Class(layer: Option<Layer>, matches: seq<string>)

  /** The first of `layers` with a usable candidate. */
  function ClassFrom(ratio: Ratio, content: string, find: string, layers: seq<Layer>): Class {
    if layers == [] then Class(None, [])
    else if Usable(layers[0], ratio, content, find) != [] then
      Class(Some(layers[0]), Usable(layers[0], ratio, content, find))
    else ClassFrom(ratio, content, find, layers[1..])
  }

  predicate NoneEmpty(matches: seq<string>) {
    forall i :: 0 <= i < |matches| ==> matches[i] != ""
  }

  function EquivalenceClass(ratio: Ratio, content: string, find: string): (c: Class)
    ensures NoneEmpty(c.matches) && (c.layer.None? <==> c.matches == [])
  {
    ClassWinner(ratio, content, find, REPLACERS);
    ClassFrom(ratio, content, find, REPLACERS)
  }

  method Deduplicate(content: string, cands: seq<string>) returns (distinct: seq<string>)
    ensures distinct == FirstSeen(content, cands)
  {
    hide Occurs;
    distinct := [];
    var seen: set<string> := {};
    for k := 0 to |cands|
      invariant distinct == FirstSeen(content, cands[..k])
      invariant forall c :: c in seen <==> c in distinct
    {
      var cand := cands[k];
      assert cands[..k + 1][..k] == cands[..k];
      if cand != "" && Occurs(content, cand) && cand !in seen {
        seen := seen + {cand};
        distinct := distinct + [cand];
      }
    }
    assert cands[..|cands|] == cands;
  }

  method FindClass(ratio: Ratio, content: string, find: string) returns (c: Class)
    ensures c == EquivalenceClass(ratio, content, find)
  {
    hide Candidates, FirstSeen;
    for k := 0 to |REPLACERS|
      invariant ClassFrom(ratio, content, find, REPLACERS[k..]) == EquivalenceClass(ratio, content, find)
    {
      var cands := RunReplacer(REPLACERS[k], ratio, content, find);
      var distinct := Deduplicate(content, cands);
      if distinct != [] {
        return Class(Some(REPLACERS[k]), distinct);
      }
    }
    return Class(None, []);
  }

  /** Layer `w` has a usable candidate and no layer before it has one. */
  ghost predicate WinsAt(ratio: Ratio, content: string, find: string, layers: seq<Layer>, w: nat) {
    && w < |layers|
    && Usable(layers[w], ratio, content, find) != []
    && forall i :: 0 <= i < w ==> Usable(layers[i], ratio, content, find) == []
  }

  /** The winner is the strictest layer with a usable candidate, and its class is all of them. */
  lemma {:induction false} ClassWinner(ratio: Ratio, content: string, find: string, layers: seq<Layer>)
    ensures var c := ClassFrom(ratio, content, find, layers);
            && NoneEmpty(c.matches)
            && (c.layer.None? ==>
                 c.matches == [] && forall i :: 0 <= i < |layers| ==> Usable(layers[i], ratio, content, find) == [])
            && (c.layer.Some? ==>
                 exists w: nat :: WinsAt(ratio, content, find, layers, w)
                             && c == Class(Some(layers[w]), Usable(layers[w], ratio, content, find)))
  {
    hide Candidates, FirstSeen;
    if layers != [] {
      if Usable(layers[0], ratio, content, find) == [] {
        var rest := layers[1..];
        ClassWinner(ratio, content, find, rest);
        var c := ClassFrom(ratio, content, find, rest);
        assert forall i :: 1 <= i < |layers| ==> layers[i] == rest[i - 1];
        if c.layer.Some? {
          var w: nat :| WinsAt(ratio, content, find, rest, w) && c == Class(Some(rest[w]), Usable(rest[w], ratio, content, find));
          assert WinsAt(ratio, content, find, layers, w + 1);
        }
      } else {
        assert WinsAt(ratio, content, find, layers, 0);
        forall i | 0 <= i < |Usable(layers[0], ratio, content, find)|
          ensures Usable(layers[0], ratio, content, find)[i] != ""
        {
          assert Usable(layers[0], ratio, content, find)[i] in Usable(layers[0], ratio, content, find);
        }
      }
    }
  }

  // ---------------------------------------------------------------- one replacement

  const RECONCILE_INDENT: set<Layer> :=
    {LineTrimmed, BlockAnchor, IndentationFlexible, TrimmedBoundary, ContextAware}

  function ReplFor(layer: Layer, oldString: string, newString: string, matched: string): string {
    var repl :=
      if layer in RECONCILE_INDENT then Reindented(newString, TextIndent(matched) - TextIndent(oldString))
      else newString;
    if layer == CharNormalized then QuotesPreserved(matched, repl) else repl
  }

  function Total(content: string, matches: seq<string>): nat
    requires NoneEmpty(matches)
  {
    if matches == [] then 0
    else Total(content, matches[..|matches| - 1]) + Count(content, matches[|matches| - 1])
  }

  /** The replace_all loop: one pass per class member, each over the outcome of the one before. */
  function ReplaceEach(content: string, matches: seq<string>, layer: Layer, oldString: string, newString: string): string
    requires NoneEmpty(matches)
  {
    if matches == [] then content
    else
      var m := matches[|matches| - 1];
      Replace(ReplaceEach(content, matches[..|matches| - 1], layer, oldString, newString), m,
              ReplFor(layer, oldString, newString, m))
  }

  function Replacement(ratio: Ratio, content: string, oldString: string, newString: string, replaceAll: bool): Result<string, EditError> {
    if oldString == "" then Failure(EmptyOld)
    else if oldString == newString then Failure(SameStrings)
    else
      var c := EquivalenceClass(ratio, content, oldString);
      if c.layer.None? then Failure(NotFound)
      else
        var total := Total(content, c.matches);
        if !replaceAll && total > 1 then Failure(NotUnique(total, |c.matches|))
        else if replaceAll then Success(ReplaceEach(content, c.matches, c.layer.value, oldString, newString))
        else
          Success(ReplaceFirst(content, c.matches[0], ReplFor(c.layer.value, oldString, newString, c.matches[0])))
  }

  method MakeRepl(layer: Layer, oldString: string, newString: string, matched: string) returns (repl: string)
    ensures repl == ReplFor(layer, oldString, newString, matched)
  {
    hide Reindented, QuotesPreserved, TextIndent;
    repl := newString;
    if layer in RECONCILE_INDENT {
      repl := Reindent(repl, TextIndent(matched) - TextIndent(oldString));
    }
    if layer == CharNormalized {
      repl := PreserveQuoteStyle(matched, repl);
    }
  }

  method ApplyReplacement(ratio: Ratio, content: string, oldString: string, newString: string, replaceAll: bool)
      returns (r: Result<string, EditError>)
    ensures r == Replacement(ratio, content, oldString, newString, replaceAll)
  {
    hide Candidates, FirstSeen, ReplFor, ClassFrom, Count, Replace, ReplaceFirst, Occurs;
    if oldString == "" {
      return Failure(EmptyOld);
    }
    if oldString == newString {
      return Failure(SameStrings);
    }
    var c := FindClass(ratio, content, oldString);
    ClassWinner(ratio, content, oldString, REPLACERS);
    if c.matches == [] {
      return Failure(NotFound);
    }
    var total := 0;
    for k := 0 to |c.matches|
      invariant total == Total(content, c.matches[..k])
    {
      assert c.matches[..k + 1][..k] == c.matches[..k];
      total := total + Count(content, c.matches[k]);
    }
    assert c.matches[..|c.matches|] == c.matches;
    if !replaceAll && total > 1 {
      return Failure(NotUnique(total, |c.matches|));
    }
    if replaceAll {
      var out := content;
      for k := 0 to |c.matches|
        invariant out == ReplaceEach(content, c.matches[..k], c.layer.value, oldString, newString)
      {
        assert c.matches[..k + 1][..k] == c.matches[..k];
        var repl := MakeRepl(c.layer.value, oldString, newString, c.matches[k]);
        out := Replace(out, c.matches[k], repl);
      }
      return Success(out);
    }
    var repl := MakeRepl(c.layer.value, oldString, newString, c.matches[0]);
    r := Success(ReplaceFirst(content, c.matches[0], repl));
  }

  // ---------------------------------------------------------------- what a single edit changes

  /** How a successful single edit cut the content. */
  datatype Cut = Cut(layer: Layer, prefix: string, matched: string, suffix: string)

  /** The only usable candidate of the winning layer is `c.matched`; `c.prefix` ends where it first
      occurs, and it does not occur again behind that occurrence. */
  ghost predicate UniqueCut(ratio: Ratio, content: string, oldString: string, c: Cut) {
    && EquivalenceClass(ratio, content, oldString) == Class(Some(c.layer), [c.matched])
    && c.matched != ""
    && c.matched in Candidates(c.layer, ratio, content, oldString)
    && content == c.prefix + c.matched + c.suffix
    && Find(content, c.matched, 0) == |c.prefix|
    && !OccursFrom(content, c.matched, |c.prefix| + |c.matched|)
  }

  lemma {:induction false} TotalAtLeast(content: string, matches: seq<string>)
    requires NoneEmpty(matches) && forall i :: 0 <= i < |matches| ==> Occurs(content, matches[i])
    ensures Total(content, matches) >= |matches|
  {
    hide Count, Occurs, Find;
    if matches != [] {
      var m := matches[|matches| - 1];
      TotalAtLeast(content, matches[..|matches| - 1]);
      OccursFind(content, m);
      CountOne(content, m);
    }
  }

  lemma ClassIsReal(ratio: Ratio, content: string, find: string, m: string)
    requires m in EquivalenceClass(ratio, content, find).matches
    ensures m != "" && Occurs(content, m)
  {
    hide Candidates, ClassFrom, Occurs;
    ClassWinner(ratio, content, find, REPLACERS);
  }

  lemma TotalSingle(content: string, m: string)
    requires m != ""
    ensures Total(content, [m]) == Count(content, m)
  {
    hide Count;
    assert [m][..0] == [];
  }

  /** A successful single edit changes one span and nothing else: the first occurrence of the only
      usable candidate of the winning layer. */
  lemma SingleEditFrame(ratio: Ratio, content: string, oldString: string, newString: string) returns (c: Cut)
    requires Replacement(ratio, content, oldString, newString, false).Success?
    ensures oldString != "" && oldString != newString && UniqueCut(ratio, content, oldString, c)
    ensures Replacement(ratio, content, oldString, newString, false).value
            == c.prefix + ReplFor(c.layer, oldString, newString, c.matched) + c.suffix
  {
    hide Candidates, ReplFor, ClassFrom, Count, Occurs, Find, OccursFrom, Total;
    var cls := EquivalenceClass(ratio, content, oldString);
    ClassWinner(ratio, content, oldString, REPLACERS);
    var m := cls.matches[0];
    forall i | 0 <= i < |cls.matches| ensures cls.matches[i] != "" && Occurs(content, cls.matches[i]) {
      ClassIsReal(ratio, content, oldString, cls.matches[i]);
    }
    TotalAtLeast(content, cls.matches);
    assert cls.matches == [m];
    TotalSingle(content, m);
    OccursFind(content, m);
    CountOne(content, m);
    var p := Find(content, m, 0);
    c := Cut(cls.layer.value, content[..p], m, content[p + |m|..]);
    assert content == content[..p] + m + content[p + |m|..];
  }

  /** It succeeds exactly when the old text is neither empty nor the new text, and the usable
      candidates of the winning layer are one string with one non-overlapping occurrence. */
  lemma SingleEditSucceeds(ratio: Ratio, content: string, oldString: string, newString: string)
    ensures Replacement(ratio, content, oldString, newString, false).Success?
            <==> oldString != "" && oldString != newString && exists c :: UniqueCut(ratio, content, oldString, c)
  {
    hide Candidates, ReplFor, ClassFrom, Count, Occurs, Find, OccursFrom, Total;
    if Replacement(ratio, content, oldString, newString, false).Success? {
      var c := SingleEditFrame(ratio, content, oldString, newString);
    }
    forall c | UniqueCut(ratio, content, oldString, c) ensures Total(content, [c.matched]) == 1 {
      TotalSingle(content, c.matched);
      CountOne(content, c.matched);
    }
  }

  /** An old text that stands there literally is found by the first layer, so nothing is reindented or
      restyled: one occurrence is replaced as it stands, several are refused. */
  lemma LiteralEdit(ratio: Ratio, content: string, oldString: string, newString: string)
    requires oldString != "" && oldString != newString && Occurs(content, oldString)
    ensures Replacement(ratio, content, oldString, newString, false)
            == if Count(content, oldString) == 1 then Success(ReplaceFirst(content, oldString, newString))
               else Failure(NotUnique(Count(content, oldString), 1))
  {
    hide Occurs, Count, Total, ReplaceFirst, Reindented, QuotesPreserved, EquivalenceClass;
    LiteralClass(ratio, content, oldString);
    TotalSingle(content, oldString);
    OccursFind(content, oldString);
    CountOne(content, oldString);
  }

  lemma LiteralClass(ratio: Ratio, content: string, oldString: string)
    requires oldString != "" && Occurs(content, oldString)
    ensures EquivalenceClass(ratio, content, oldString) == Class(Some(Simple), [oldString])
  {
    hide Occurs;
    OccursFind(content, oldString);
    assert Candidates(Simple, ratio, content, oldString) == [oldString];
    assert [oldString][..0] == [];
    assert FirstSeen(content, [oldString]) == [oldString];
    assert REPLACERS[0] == Simple;
  }

  /** Any two ways of cutting out the unique match overlap. */
  lemma MatchesOverlap(ratio: Ratio, content: string, oldString: string, c: Cut, q: nat)
    requires UniqueCut(ratio, content, oldString, c) && At(content, c.matched, q)
    ensures |c.prefix| <= q < |c.prefix| + |c.matched|
  {
    hide Candidates, ClassFrom, Find;
  }

  /** When the character layer wins, the edit commutes with normalization: normalizing the result
      replaces the normal form of the old text by that of the new text and keeps the rest. */
  lemma CharEditCommutes(ratio: Ratio, content: string, oldString: string, newString: string, c: Cut)
    requires UniqueCut(ratio, content, oldString, c) && c.layer == CharNormalized
    requires Replacement(ratio, content, oldString, newString, false).Success?
    ensures var result := Replacement(ratio, content, oldString, newString, false).value;
            var N := s => NText(CHAR_TRANSFORMS, s);
            && N(content) == N(c.prefix) + N(oldString) + N(c.suffix)
            && N(result) == N(c.prefix) + N(newString) + N(c.suffix)
            && |result| == |content| - |oldString| + |newString|
  {
    hide ClassFrom, NText, Candidates, Find, Occurs, OccursFrom, FirstSeen, Replacement, QuotesPreserved, TextIndent;
    var repl := QuotesPreserved(c.matched, newString);
    CharReplacement(ratio, content, oldString, newString, c);
    var _, _ := SpanLayersYieldEquivalents(CharNormalized, ratio, content, oldString, c.matched);
    CharConcat3(c.prefix, c.matched, c.suffix);
    CharConcat3(c.prefix, repl, c.suffix);
    QuotesKeepNormalForm(c.matched, newString);
    CharNormal(c.matched);
    CharNormal(oldString);
  }

  lemma CharConcat3(a: string, b: string, c: string)
    ensures NText(CHAR_TRANSFORMS, a + b + c)
            == NText(CHAR_TRANSFORMS, a) + NText(CHAR_TRANSFORMS, b) + NText(CHAR_TRANSFORMS, c)
  {
    hide NText;
    CharConcat(a + b, c);
    CharConcat(a, b);
  }

  lemma CharReplacement(ratio: Ratio, content: string, oldString: string, newString: string, c: Cut)
    requires UniqueCut(ratio, content, oldString, c) && c.layer == CharNormalized
    requires Replacement(ratio, content, oldString, newString, false).Success?
    ensures Replacement(ratio, content, oldString, newString, false).value
            == c.prefix + QuotesPreserved(c.matched, newString) + c.suffix
  {
    hide ClassFrom, Candidates, Find, Occurs, OccursFrom, FirstSeen, QuotesPreserved, TextIndent, Total;
    assert content[..|c.prefix|] == c.prefix && content[|c.prefix| + |c.matched|..] == c.suffix;
  }

  /** What takes the place of `matched`, by the layer that found it. */
  ghost predicate Inserts(layer: Layer, oldString: string, newString: string, matched: string, block: string) {
    match layer
    case Simple | EscapeNormalized | WhitespaceNormalized => block == newString
    case CharNormalized => QuotedLike(matched, newString, block)
    case IndentationFlexible | LineTrimmed | TrimmedBoundary | ContextAware | BlockAnchor =>
      MovedText(newString, block, TextIndent(matched) - TextIndent(oldString))
  }

  lemma ReplForInserts(layer: Layer, oldString: string, newString: string, matched: string)
    ensures Inserts(layer, oldString, newString, matched, ReplFor(layer, oldString, newString, matched))
  {
    hide TextIndent, Reindented, QuotesPreserved, MovedText, QuotedLike;
    ReindentShiftsExactly(newString, TextIndent(matched) - TextIndent(oldString));
    QuotesRestored(matched, newString);
  }

  /** A successful single edit puts in place of the match: the new text as it stands, in a literal, an
      escape or a whitespace match; the new text with the quotes of the match, in a character match; and
      the new text with every line moved as far as the match is indented further than the old text, in
      a match that ignores indentation. */
  lemma SingleEditInserts(ratio: Ratio, content: string, oldString: string, newString: string)
      returns (c: Cut, block: string)
    requires Replacement(ratio, content, oldString, newString, false).Success?
    ensures UniqueCut(ratio, content, oldString, c) && content == c.prefix + c.matched + c.suffix
    ensures Replacement(ratio, content, oldString, newString, false).value == c.prefix + block + c.suffix
    ensures Inserts(c.layer, oldString, newString, c.matched, block)
  {
    hide UniqueCut, Replacement, ReplFor, Inserts;
    c := SingleEditFrame(ratio, content, oldString, newString);
    CutLayer(ratio, content, oldString, c);
    block := ReplFor(c.layer, oldString, newString, c.matched);
    ReplForInserts(c.layer, oldString, newString, c.matched);
  }

  /** In a match that ignores indentation, a new text with the common indent of the old one gets the
      common indent of the block it replaces. */
  lemma EditKeepsBlockIndent(ratio: Ratio, content: string, oldString: string, newString: string)
      returns (c: Cut, block: string)
    requires Replacement(ratio, content, oldString, newString, false).Success?
    requires EquivalenceClass(ratio, content, oldString).layer.value
             in {IndentationFlexible, LineTrimmed, TrimmedBoundary, ContextAware, BlockAnchor}
    requires TextIndent(newString) == TextIndent(oldString) && AnyNonBlank(Split(newString))
    ensures UniqueCut(ratio, content, oldString, c)
    ensures Replacement(ratio, content, oldString, newString, false).value == c.prefix + block + c.suffix
    ensures TextIndent(block) == TextIndent(c.matched)
  {
    hide TextIndent, Split, UniqueCut, Replacement, EquivalenceClass, MovedText;
    c, block := SingleEditInserts(ratio, content, oldString, newString);
    CutLayer(ratio, content, oldString, c);
    MovedTextIndent(newString, block, TextIndent(c.matched) - TextIndent(oldString));
  }

  lemma MovedTextIndent(before: string, after: string, d: int)
    requires MovedText(before, after, d) && AnyNonBlank(Split(before)) && -d <= TextIndent(before)
    ensures TextIndent(after) == TextIndent(before) + d
  {
    hide Split, Moved, CommonIndent;
    MovedIndent(Split(before), Split(after), d);
  }

  lemma CutLayer(ratio: Ratio, content: string, oldString: string, c: Cut)
    requires UniqueCut(ratio, content, oldString, c)
    ensures EquivalenceClass(ratio, content, oldString).layer == Some(c.layer)
    ensures content == c.prefix + c.matched + c.suffix
  {
    hide EquivalenceClass, Candidates, Find, OccursFrom;
  }

  // ---------------------------------------------------------------- when the position is unique

  /** `m` starts with something it also ends with. */
  predicate Bordered(m: string) {
    exists b :: 0 < b < |m| && m[..b] == m[|m| - b..]
  }

  /** Counting once does not always mean occurring once. */
  predicate CountedOnceOccursTwice(content: string, m: string, p: nat, q: nat)
    requires m != ""
  {
    Count(content, m) == 1 && p < q && At(content, m, p) && At(content, m, q)
  }

  /** The uniqueness test leaves two places to choose from exactly for bordered candidates. */
  lemma UniqueCountNotUniquePosition(m: string)
    requires m != ""
    ensures Bordered(m) <==> exists content, p, q :: CountedOnceOccursTwice(content, m, p, q)
  {
    hide Count;
    if Bordered(m) {
      var b :| 0 < b < |m| && m[..b] == m[|m| - b..];
      BorderedTwice(m, b);
    }
    forall content, p, q | CountedOnceOccursTwice(content, m, p, q) ensures Bordered(m) {
      TwiceBordered(content, m, p, q);
    }
  }

  lemma BorderedTwice(m: string, b: nat)
    requires 0 < b < |m| && m[..b] == m[|m| - b..]
    ensures CountedOnceOccursTwice(m + m[b..], m, 0, |m| - b)
  {
    hide Count, Find;
    var content := m + m[b..];
    assert content[|m| - b..] == m[|m| - b..] + m[b..] == m[..b] + m[b..] == m;
    assert content[0..|m|] == m;
    assert At(content, m, 0) && At(content, m, |m| - b);
    OccursFind(content, m);
    CountOne(content, m);
  }

  lemma TwiceBordered(content: string, m: string, p: nat, q: nat)
    requires m != "" && CountedOnceOccursTwice(content, m, p, q)
    ensures Bordered(m)
  {
    hide Count, Find;
    OccursFind(content, m);
    CountOne(content, m);
    var f := Find(content, m, 0);
    assert f <= p < q;
    assert !OccursFrom(content, m, f + |m|);
    assert q < f + |m|;
    var d := q - p;
    assert m[d..] == content[q..p + |m|] == content[q..q + |m|][..|m| - d] == m[..|m| - d];
  }

  // ---------------------------------------------------------------- replace_all with one candidate

  /** `s.split(m)` */
  function Pieces(s: string, m: string): (r: seq<string>)
    requires m != ""
    ensures r != []
    decreases |s|
  {
    var q := Find(s, m, 0);
    if q < 0 then [s] else [s[..q]] + Pieces(s[q + |m|..], m)
  }

  /** `r.join(pieces)` */
  function Glue(pieces: seq<string>, r: string): string {
    if pieces == [] then ""
    else if |pieces| == 1 then pieces[0]
    else pieces[0] + r + Glue(pieces[1..], r)
  }

  lemma PiecesUnfold(s: string, m: string, r: string)
    requires m != "" && Find(s, m, 0) >= 0
    ensures var q, rest := Find(s, m, 0), s[Find(s, m, 0) + |m|..];
            && s == s[..q] + m + rest && Pieces(s, m) == [s[..q]] + Pieces(rest, m)
            && Replace(s, m, r) == s[..q] + r + Replace(rest, m, r) && Count(s, m) == 1 + Count(rest, m)
  {
    hide Find;
  }

  lemma PiecesEnd(s: string, m: string, r: string)
    requires m != "" && Find(s, m, 0) < 0
    ensures Pieces(s, m) == [s] && Replace(s, m, r) == s && Count(s, m) == 0
  {
    hide Find, At;
  }

  lemma GlueCons(head: string, rest: seq<string>, r: string)
    requires rest != []
    ensures Glue([head] + rest, r) == head + r + Glue(rest, r)
  {
    assert ([head] + rest)[1..] == rest;
  }

  lemma {:induction false} ReplaceIsGlue(s: string, m: string, r: string)
    requires m != ""
    ensures Glue(Pieces(s, m), m) == s && Glue(Pieces(s, m), r) == Replace(s, m, r)
    ensures |Pieces(s, m)| == Count(s, m) + 1
    ensures forall i :: 0 <= i < |Pieces(s, m)| ==> !Occurs(Pieces(s, m)[i], m)
    decreases |s|
  {
    hide Occurs, Find, At, Pieces, Glue, Count, Replace;
    var q := Find(s, m, 0);
    OccursFind(s, m);
    if q >= 0 {
      FoundInside(s, m);
      var rest := s[q + |m|..];
      PiecesUnfold(s, m, r);
      ReplaceIsGlue(rest, m, r);
      GlueCons(s[..q], Pieces(rest, m), m);
      GlueCons(s[..q], Pieces(rest, m), r);
      OccursFind(s[..q], m);
      PrefixFree(s, m, q);
    } else {
      PiecesEnd(s, m, r);
      GlueOne(s, m);
      GlueOne(s, r);
    }
  }

  lemma GlueOne(s: string, r: string)
    ensures Glue([s], r) == s
  {
  }

  lemma PrefixFree(s: string, m: string, q: nat)
    requires m != "" && q == Find(s, m, 0) && q <= |s|
    ensures Find(s[..q], m, 0) < 0
  {
    var p := Find(s[..q], m, 0);
    if p >= 0 {
      assert s[..q][p..p + |m|] == s[p..p + |m|];
      assert At(s, m, p);
    }
  }

  /** With one distinct candidate, replace_all keeps everything between its occurrences and puts the
      same replacement in place of each. */
  lemma ReplaceAllOfOne(ratio: Ratio, content: string, oldString: string, newString: string, layer: Layer, m: string)
      returns (pieces: seq<string>, repl: string)
    requires oldString != "" && oldString != newString
    requires EquivalenceClass(ratio, content, oldString) == Class(Some(layer), [m])
    ensures m != "" && |pieces| == Count(content, m) + 1 && content == Glue(pieces, m)
    ensures forall i :: 0 <= i < |pieces| ==> !Occurs(pieces[i], m)
    ensures Inserts(layer, oldString, newString, m, repl)
    ensures Replacement(ratio, content, oldString, newString, true) == Success(Glue(pieces, repl))
  {
    hide Candidates, ClassFrom, ReplFor, Occurs, Count, Replace, Total, Inserts;
    ClassIsReal(ratio, content, oldString, m);
    ReplForInserts(layer, oldString, newString, m);
    pieces, repl := Pieces(content, m), ReplFor(layer, oldString, newString, m);
    ReplaceIsGlue(content, m, repl);
    assert [m][..0] == [];
    assert ReplaceEach(content, [m], layer, oldString, newString) == Replace(content, m, repl);
  }

  /** One pass of replace_all: between the occurrences of `m` nothing changes, and each of them gives
      way to the same replacement. */
  ghost predicate Pass(before: string, m: string, repl: string, after: string, pieces: seq<string>)
    requires m != ""
  {
    && before == Glue(pieces, m) && after == Glue(pieces, repl) && |pieces| == Count(before, m) + 1
    && forall i :: 0 <= i < |pieces| ==> !Occurs(pieces[i], m)
  }

  lemma {:induction false} PassesChain(content: string, matches: seq<string>, layer: Layer, oldString: string, newString: string)
      returns (texts: seq<string>, pieces: seq<seq<string>>)
    requires NoneEmpty(matches)
    ensures |texts| == |matches| + 1 && |pieces| == |matches|
    ensures texts[0] == content && texts[|matches|] == ReplaceEach(content, matches, layer, oldString, newString)
    ensures forall k :: 0 <= k < |matches| ==>
              Pass(texts[k], matches[k], ReplFor(layer, oldString, newString, matches[k]), texts[k + 1], pieces[k])
  {
    hide ReplFor, Pass;
    if matches == [] {
      texts, pieces := [content], [];
    } else {
      var n := |matches| - 1;
      texts, pieces := PassesChain(content, matches[..n], layer, oldString, newString);
      var m, repl := matches[n], ReplFor(layer, oldString, newString, matches[n]);
      PassIsReplace(texts[n], m, repl);
      texts, pieces := texts + [Replace(texts[n], m, repl)], pieces + [Pieces(texts[n], m)];
    }
  }

  lemma PassIsReplace(before: string, m: string, repl: string)
    requires m != ""
    ensures Pass(before, m, repl, Replace(before, m, repl), Pieces(before, m))
  {
    hide Count, Replace, Pieces, Glue, Occurs;
    ReplaceIsGlue(before, m, repl);
  }

  /** With several distinct candidates replace_all is a chain of such passes, one for each of them in
      order of first appearance, each over what the pass before has left. */
  lemma ReplaceAllIsChain(ratio: Ratio, content: string, oldString: string, newString: string)
      returns (texts: seq<string>, pieces: seq<seq<string>>, repls: seq<string>)
    requires Replacement(ratio, content, oldString, newString, true).Success?
    ensures var c := EquivalenceClass(ratio, content, oldString);
            && c.layer.Some? && |texts| == |c.matches| + 1 && |pieces| == |repls| == |c.matches|
            && texts[0] == content && Replacement(ratio, content, oldString, newString, true) == Success(texts[|c.matches|])
            && forall k :: 0 <= k < |c.matches| ==>
                 var m := c.matches[k];
                 Inserts(c.layer.value, oldString, newString, m, repls[k]) && Pass(texts[k], m, repls[k], texts[k + 1], pieces[k])
  {
    hide EquivalenceClass, ReplFor, Pass, ReplaceEach, Total, Inserts;
    var c := EquivalenceClass(ratio, content, oldString);
    texts, pieces := PassesChain(content, c.matches, c.layer.value, oldString, newString);
    repls := seq(|c.matches|, k requires 0 <= k < |c.matches| => ReplFor(c.layer.value, oldString, newString, c.matches[k]));
    forall k | 0 <= k < |c.matches| ensures Inserts(c.layer.value, oldString, newString, c.matches[k], repls[k]) {
      ReplForInserts(c.layer.value, oldString, newString, c.matches[k]);
    }
  }

  const OPENING := "\U{201C}"
  const CLOSING := "\U{201D}"

  lemma TwoSpans(text: string, src: seq<nat>)
    requires text == "\"\"" && src == [0, 1, 2]
    ensures SpansFrom(text, src, "\"", 0) == [(0, 1), (1, 2)]
  {
    hide Find, At;
    FindFrom(text, '"', 0, 0);
    FindFrom(text, '"', 1, 1);
    FindFrom(text, '"', 2, -1);
    assert SpansFrom(text, src, "\"", 2) == [];
    assert SpansFrom(text, src, "\"", 1) == [(1, 2)] + SpansFrom(text, src, "\"", 2);
    assert SpansFrom(text, src, "\"", 0) == [(0, 1)] + SpansFrom(text, src, "\"", 1);
  }

  lemma QuoteSpans()
    ensures Spans(CHAR_TRANSFORMS, OPENING + CLOSING, "\"") == [(0, 1), (1, 2)]
  {
    hide NText, NSrc, SpansFrom;
    var content := OPENING + CLOSING;
    CharNormal("\"");
    CharNormal(content);
    assert FoldAll("\"") == "\"" && FoldAll(content) == "\"\"";
    assert UpFrom(0, |content|) == [0, 1, 2];
    TwoSpans("\"\"", [0, 1, 2]);
  }

  lemma QuotesOccur()
    ensures Occurs(OPENING + CLOSING, OPENING) && Occurs(OPENING + CLOSING, CLOSING) && !Occurs(OPENING + CLOSING, "\"")
  {
    hide Find, At, Occurs;
    var content := OPENING + CLOSING;
    FindChar(content, OPENING[0], 0);
    FindChar(content, CLOSING[0], 1);
    FindChar(content, '"', -1);
    OccursFind(content, OPENING);
    OccursFind(content, CLOSING);
    OccursFind(content, "\"");
  }

  lemma BothQuotesFound(ratio: Ratio)
    ensures Usable(CharNormalized, ratio, OPENING + CLOSING, "\"") == [OPENING, CLOSING]
  {
    hide FirstSeen, Spans, Occurs;
    var content := OPENING + CLOSING;
    QuoteSpans();
    QuotesOccur();
    assert content[0..1] == OPENING && content[1..2] == CLOSING;
    assert Slices(content, [(0, 1), (1, 2)]) == [OPENING, CLOSING];
    TwoSeen(content, OPENING, CLOSING);
  }

  lemma QuoteClass(ratio: Ratio)
    ensures EquivalenceClass(ratio, OPENING + CLOSING, "\"") == Class(Some(CharNormalized), [OPENING, CLOSING])
  {
    hide Usable, Occurs;
    var content := OPENING + CLOSING;
    BothQuotesFound(ratio);
    QuotesOccur();
    SimpleNeedsLiteral(ratio, content, "\"");
    assert REPLACERS[0] == Simple && REPLACERS[1..][0] == CharNormalized;
    assert ClassFrom(ratio, content, "\"", REPLACERS[1..]) == Class(Some(CharNormalized), [OPENING, CLOSING]);
  }

  lemma TwoSeen(content: string, a: string, b: string)
    requires a != b && a != "" && b != "" && Occurs(content, a) && Occurs(content, b)
    ensures FirstSeen(content, [a, b]) == [a, b]
  {
    hide Occurs;
    assert [a, b][..1] == [a] && [a][..0] == [];
    assert FirstSeen(content, [a]) == [a];
  }

  lemma FindFrom(s: string, c: char, start: nat, q: int)
    requires start <= |s| && (q == -1 || start <= q < |s|) && (q >= 0 ==> s[q] == c)
    requires forall k :: start <= k < (if q < 0 then |s| else q) ==> s[k] != c
    ensures Find(s, [c], start) == q
  {
    var f := Find(s, [c], start);
    if f >= 0 {
      assert s[f..f + 1][0] == s[f];
    }
    if q >= 0 {
      assert s[q..q + 1] == [c];
      assert At(s, [c], q);
    }
  }

  /** The passes are not one simultaneous replacement: the text the first pass puts in for an opening
      quote begins with a closing one, which the second pass replaces again. */
  lemma LaterPassRewrites(ratio: Ratio)
    ensures Replacement(ratio, OPENING + CLOSING, "\"", CLOSING + "x", true) == Success(CLOSING + "xx" + CLOSING + "x")
  {
    hide EquivalenceClass, Replacement, ReplaceEach, ReplFor;
    var content, newString := OPENING + CLOSING, CLOSING + "x";
    QuoteClass(ratio);
    forall m: string ensures ReplFor(CharNormalized, "\"", newString, m) == newString {
      NoStraightQuotes(m, newString);
      CharReplIs("\"", newString, m);
    }
    TwoPasses(content, newString);
    ReplaceAllOutcome(ratio, content, "\"", newString);
  }

  lemma CharReplIs(oldString: string, newString: string, m: string)
    ensures ReplFor(CharNormalized, oldString, newString, m) == QuotesPreserved(m, newString)
  {
    hide QuotesPreserved, Reindented, TextIndent;
  }

  lemma NoStraightQuotes(m: string, s: string)
    requires '"' !in s && '\'' !in s
    ensures QuotesPreserved(m, s) == s
  {
    hide HasDoubleCurly, HasSingleCurly, Opening;
    assert forall k :: 0 <= k < |s| ==> s[k] in s;
  }

  lemma ReplaceAllOutcome(ratio: Ratio, content: string, oldString: string, newString: string)
    requires oldString != "" && oldString != newString && EquivalenceClass(ratio, content, oldString).layer.Some?
    ensures var c := EquivalenceClass(ratio, content, oldString);
            Replacement(ratio, content, oldString, newString, true)
            == Success(ReplaceEach(content, c.matches, c.layer.value, oldString, newString))
  {
    hide EquivalenceClass, ReplaceEach, Total;
  }

  lemma TwoPasses(content: string, newString: string)
    requires content == OPENING + CLOSING && newString == CLOSING + "x"
    requires forall m: string :: ReplFor(CharNormalized, "\"", newString, m) == newString
    ensures ReplaceEach(content, [OPENING, CLOSING], CharNormalized, "\"", newString) == CLOSING + "xx" + CLOSING + "x"
  {
    hide Find, At, ReplFor, ReplaceEach;
    FindChar(content, OPENING[0], 0);
    FindChar(CLOSING, OPENING[0], -1);
    assert content[1..] == CLOSING && content[..0] == "";
    assert Replace(CLOSING, OPENING, newString) == CLOSING;
    var mid := newString + CLOSING;
    assert Replace(content, OPENING, newString) == mid;
    FindChar(mid, CLOSING[0], 0);
    FindChar("x" + CLOSING, CLOSING[0], 1);
    FindChar("", CLOSING[0], -1);
    assert mid[1..] == "x" + CLOSING && ("x" + CLOSING)[2..] == "" && ("x" + CLOSING)[..1] == "x";
    assert Replace("", CLOSING, newString) == "";
    assert Replace("x" + CLOSING, CLOSING, newString) == "x" + newString + "";
    assert Replace(mid, CLOSING, newString) == "" + newString + ("x" + newString + "");
    PassTwice(content, newString);
  }

  lemma PassTwice(content: string, newString: string)
    requires forall m: string :: ReplFor(CharNormalized, "\"", newString, m) == newString
    ensures ReplaceEach(content, [OPENING, CLOSING], CharNormalized, "\"", newString)
            == Replace(Replace(content, OPENING, newString), CLOSING, newString)
  {
    hide Replace, ReplFor;
    assert [OPENING, CLOSING][..1] == [OPENING] && [OPENING][..0] == [];
    assert ReplaceEach(content, [OPENING], CharNormalized, "\"", newString) == Replace(content, OPENING, newString);
  }

  // ---------------------------------------------------------------- batches

  datatype Pair = Pair(oldText: string, newText: string)

  datatype Outcome = Outcome(text: string, applied: nat, skipped: nat)

  /** `idempotent_skip` */
  predicate IdempotentSkip(content: string, oldText: string, newText: string) {
    !Blank(newText) && Count(content, newText) == 1 && !Occurs(content, oldText)
  }

  /** The batch from edit `i` on, with what the earlier edits have produced. */
  function BatchFrom(ratio: Ratio, edits: seq<Pair>, i: nat, o: Outcome): Result<Outcome, EditError>
    requires i <= |edits|
    decreases |edits| - i
  {
    if i == |edits| then Success(o)
    else
      var e := edits[i];
      match Replacement(ratio, o.text, e.oldText, e.newText, false)
      case Success(text) => BatchFrom(ratio, edits, i + 1, Outcome(text, o.applied + 1, o.skipped))
      case Failure(cause) =>
        if IdempotentSkip(o.text, e.oldText, e.newText)
        then BatchFrom(ratio, edits, i + 1, Outcome(o.text, o.applied, o.skipped + 1))
        else Failure(AtEdit(i + 1, |edits|, cause))
  }

  function Batch(ratio: Ratio, content: string, edits: seq<Pair>): Result<Outcome, EditError> {
    if edits == [] then Failure(NoEdits) else BatchFrom(ratio, edits, 0, Outcome(content, 0, 0))
  }

  method ApplyBatch(ratio: Ratio, content: string, edits: seq<Pair>) returns (r: Result<Outcome, EditError>)
    ensures r == Batch(ratio, content, edits)
  {
    hide Replacement, IdempotentSkip;
    if edits == [] {
      return Failure(NoEdits);
    }
    var out, applied, skipped := content, 0, 0;
    for i := 0 to |edits|
      invariant BatchFrom(ratio, edits, i, Outcome(out, applied, skipped)) == Batch(ratio, content, edits)
    {
      var e := edits[i];
      var one := ApplyReplacement(ratio, out, e.oldText, e.newText, false);
      match one {
        case Success(text) =>
          out, applied := text, applied + 1;
        case Failure(cause) =>
          if !IdempotentSkip(out, e.oldText, e.newText) {
            return Failure(AtEdit(i + 1, |edits|, cause));
          }
          skipped := skipped + 1;
      }
    }
    r := Success(Outcome(out, applied, skipped));
  }

  /** One edit of a batch: either a successful unique replacement, or nothing because the new text is
      there once and the old text is absent. */
  ghost predicate BatchStep(ratio: Ratio, before: string, e: Pair, after: string, applied: bool) {
    if applied then Replacement(ratio, before, e.oldText, e.newText, false) == Success(after)
    else
      && after == before
      && Replacement(ratio, before, e.oldText, e.newText, false).Failure?
      && IdempotentSkip(before, e.oldText, e.newText)
  }

  function CountTrue(flags: seq<bool>): nat {
    if flags == [] then 0 else CountTrue(flags[1..]) + if flags[0] then 1 else 0
  }

  lemma {:induction false} BatchRuns(ratio: Ratio, edits: seq<Pair>, i: nat, o: Outcome)
      returns (texts: seq<string>, flags: seq<bool>)
    requires i <= |edits| && BatchFrom(ratio, edits, i, o).Success?
    ensures var r := BatchFrom(ratio, edits, i, o).value;
            && |texts| == |edits| - i + 1 && |flags| == |edits| - i
            && texts[0] == o.text && texts[|texts| - 1] == r.text
            && r.applied == o.applied + CountTrue(flags)
            && r.applied + r.skipped == o.applied + o.skipped + |edits| - i
            && forall k :: 0 <= k < |flags| ==> BatchStep(ratio, texts[k], edits[i + k], texts[k + 1], flags[k])
    decreases |edits| - i
  {
    hide Replacement, IdempotentSkip;
    if i == |edits| {
      texts, flags := [o.text], [];
    } else {
      var e := edits[i];
      var one := Replacement(ratio, o.text, e.oldText, e.newText, false);
      var next := if one.Success? then Outcome(one.value, o.applied + 1, o.skipped)
                  else Outcome(o.text, o.applied, o.skipped + 1);
      var ts, fs := BatchRuns(ratio, edits, i + 1, next);
      texts, flags := [o.text] + ts, [one.Success?] + fs;
      assert flags[1..] == fs;
      forall k | 0 <= k < |flags| ensures BatchStep(ratio, texts[k], edits[i + k], texts[k + 1], flags[k]) {
        if k > 0 {
          assert BatchStep(ratio, ts[k - 1], edits[i + 1 + (k - 1)], ts[k], fs[k - 1]);
        }
      }
    }
  }

  lemma {:induction false} FoldRuns(ratio: Ratio, edits: seq<Pair>, i: nat, o: Outcome, texts: seq<string>, flags: seq<bool>)
    requires i <= |edits| && |texts| == |edits| - i + 1 && |flags| == |edits| - i && texts[0] == o.text
    requires forall k :: 0 <= k < |flags| ==> BatchStep(ratio, texts[k], edits[i + k], texts[k + 1], flags[k])
    ensures CountTrue(flags) <= |flags|
    ensures BatchFrom(ratio, edits, i, o)
            == Success(Outcome(texts[|flags|], o.applied + CountTrue(flags), o.skipped + |flags| - CountTrue(flags)))
    decreases |edits| - i
  {
    hide Replacement, IdempotentSkip;
    if i < |edits| {
      assert BatchStep(ratio, texts[0], edits[i + 0], texts[1], flags[0]);
      var next := if flags[0] then Outcome(texts[1], o.applied + 1, o.skipped) else Outcome(o.text, o.applied, o.skipped + 1);
      var ts, fs := texts[1..], flags[1..];
      forall k | 0 <= k < |fs| ensures BatchStep(ratio, ts[k], edits[i + 1 + k], ts[k + 1], fs[k]) {
        assert BatchStep(ratio, texts[k + 1], edits[i + (k + 1)], texts[k + 2], flags[k + 1]);
      }
      FoldRuns(ratio, edits, i + 1, next, ts, fs);
    }
  }

  /** A chain of texts from `content` to the outcome's, one step for each edit: a unique replacement
      where the flag is set, a skip where it is not. */
  ghost predicate Folds(ratio: Ratio, content: string, edits: seq<Pair>, o: Outcome, texts: seq<string>, flags: seq<bool>) {
    && |texts| == |edits| + 1 && |flags| == |edits|
    && texts[0] == content && texts[|edits|] == o.text
    && o.applied == CountTrue(flags) && o.applied + o.skipped == |edits|
    && forall k :: 0 <= k < |edits| ==> BatchStep(ratio, texts[k], edits[k], texts[k + 1], flags[k])
  }

  /** A batch succeeds with this outcome exactly when there are edits and the outcome is the left fold of
      unique replacements and skips, one per edit. */
  lemma BatchIsFold(ratio: Ratio, content: string, edits: seq<Pair>, o: Outcome)
    ensures Batch(ratio, content, edits) == Success(o)
            <==> edits != [] && exists texts, flags :: Folds(ratio, content, edits, o, texts, flags)
  {
    hide Replacement, IdempotentSkip, BatchFrom, BatchStep;
    var start := Outcome(content, 0, 0);
    if Batch(ratio, content, edits) == Success(o) {
      var texts, flags := BatchRuns(ratio, edits, 0, start);
      forall k | 0 <= k < |edits| ensures BatchStep(ratio, texts[k], edits[k], texts[k + 1], flags[k]) {
        assert BatchStep(ratio, texts[k], edits[0 + k], texts[k + 1], flags[k]);
      }
      assert Folds(ratio, content, edits, o, texts, flags);
    }
    forall texts, flags | Folds(ratio, content, edits, o, texts, flags)
      ensures BatchFrom(ratio, edits, 0, start) == Success(o)
    {
      assert forall k :: 0 <= k < |flags| ==> BatchStep(ratio, texts[k], edits[0 + k], texts[k + 1], flags[k]);
      FoldRuns(ratio, edits, 0, start, texts, flags);
    }
  }

  /** No layer of the cascade has a usable candidate. */
  ghost predicate NoCandidate(ratio: Ratio, content: string, find: string) {
    forall k :: 0 <= k < |REPLACERS| ==> Usable(REPLACERS[k], ratio, content, find) == []
  }

  /** When the new text stands there exactly once and the old text is not there literally, an edit has
      one of three fates: it is skipped because no layer finds anything, it is skipped because a looser
      layer finds too much, or it is applied. */
  lemma SkipCause(ratio: Ratio, content: string, e: Pair)
    requires IdempotentSkip(content, e.oldText, e.newText)
    ensures var c := EquivalenceClass(ratio, content, e.oldText);
            var total := Total(content, c.matches);
            var one := Replacement(ratio, content, e.oldText, e.newText, false);
            && c.layer != Some(Simple)
            && (c.layer.None? <==> NoCandidate(ratio, content, e.oldText))
            && (one == Failure(NotFound) <==> c.layer.None?)
            && (one == Failure(NotUnique(total, |c.matches|)) <==> c.layer.Some? && total > 1)
            && (one.Success? <==> c.layer.Some? && total == 1)
            && (BatchStep(ratio, content, e, content, false) <==> c.layer.None? || total > 1)
  {
    hide Candidates, ClassFrom, ReplFor, Count, Occurs, Total;
    SkipAsksChange(content, e.oldText, e.newText);
    var c := EquivalenceClass(ratio, content, e.oldText);
    ClassWinner(ratio, content, e.oldText, REPLACERS);
    if c.layer.Some? {
      WinnerUsable(ratio, content, e.oldText);
      SimpleNeedsLiteral(ratio, content, e.oldText);
      forall i | 0 <= i < |c.matches| ensures Occurs(content, c.matches[i]) {
        ClassIsReal(ratio, content, e.oldText, c.matches[i]);
      }
      TotalAtLeast(content, c.matches);
    }
  }

  lemma WinnerUsable(ratio: Ratio, content: string, find: string)
    requires EquivalenceClass(ratio, content, find).layer.Some?
    ensures var c := EquivalenceClass(ratio, content, find);
            && c.matches == Usable(c.layer.value, ratio, content, find) != []
            && !NoCandidate(ratio, content, find)
  {
    hide Candidates, ClassFrom, FirstSeen;
    ClassWinner(ratio, content, find, REPLACERS);
    var w: nat :| WinsAt(ratio, content, find, REPLACERS, w)
                  && EquivalenceClass(ratio, content, find) == Class(Some(REPLACERS[w]), Usable(REPLACERS[w], ratio, content, find));
  }

  lemma SimpleNeedsLiteral(ratio: Ratio, content: string, find: string)
    requires !Occurs(content, find)
    ensures Usable(Simple, ratio, content, find) == []
  {
    hide Occurs;
  }

  lemma SkipAsksChange(content: string, oldText: string, newText: string)
    requires IdempotentSkip(content, oldText, newText)
    ensures oldText != "" && oldText != newText
  {
    hide Count;
    CountUnfold(content, newText);
    OccursFind(content, newText);
    assert At(content, "", 0);
  }

  const CURLY := "\U{201C}"

  lemma CurlyIsFound(ratio: Ratio)
    ensures Usable(CharNormalized, ratio, CURLY + CURLY + "b", "\"") == [CURLY]
  {
    hide FirstSeen, Candidates, Occurs, Spans, NText, NSrc;
    var content := CURLY + CURLY + "b";
    var usable := Usable(CharNormalized, ratio, content, "\"");
    CharNormal("\"");
    forall m | m in usable ensures m == CURLY {
      var p, q := SpanLayersYieldEquivalents(CharNormalized, ratio, content, "\"", m);
      CharNormal(m);
      assert m == [content[p]];
    }
    CurlyIsUsable(ratio);
    forall i | 0 <= i < |usable| ensures usable[i] == CURLY {
      assert usable[i] in usable;
    }
    var last := |usable| - 1;
    assert usable[0] == usable[last];
  }

  lemma CurlyIsUsable(ratio: Ratio)
    ensures CURLY in Usable(CharNormalized, ratio, CURLY + CURLY + "b", "\"")
  {
    hide FirstSeen, Spans, NText, NSrc;
    var content := CURLY + CURLY + "b";
    CharNormal("\"");
    CharNormal(CURLY);
    assert content[0..1] == CURLY;
    CharSpansExact(content, "\"", 0, 1);
    var spans := Spans(CHAR_TRANSFORMS, content, "\"");
    var k :| 0 <= k < |spans| && spans[k] == (0, 1);
    assert Slices(content, spans)[k] == CURLY;
    assert At(content, CURLY, 0);
  }

  lemma CurlyCounts()
    ensures var content := CURLY + CURLY + "b";
            Count(content, CURLY) == 2 && Count(content, "b") == 1 && !Occurs(content, "\"")
  {
    hide At, Find, Count;
    var content := CURLY + CURLY + "b";
    assert content[1..] == CURLY + "b" && content[2..] == "b" && content[3..] == "";
    FindChar(content, CURLY[0], 0);
    FindChar(content[1..], CURLY[0], 0);
    FindChar("b", CURLY[0], -1);
    FindChar(content, 'b', 2);
    FindChar("", 'b', -1);
    FindChar(content, '"', -1);
    OccursFind(content, "\"");
    CountUnfold(content, CURLY);
    CountUnfold(content[1..], CURLY);
    CountUnfold("b", CURLY);
    CountUnfold(content, "b");
    CountUnfold("", "b");
  }

  lemma FindChar(s: string, c: char, q: int)
    requires -1 <= q < |s| && (q >= 0 ==> s[q] == c)
    requires forall k :: 0 <= k < (if q < 0 then |s| else q) ==> s[k] != c
    ensures Find(s, [c], 0) == q
  {
    var f := Find(s, [c], 0);
    if f >= 0 {
      assert s[f..f + 1][0] == s[f];
    }
    if q >= 0 {
      assert s[q..q + 1] == [c];
      assert At(s, [c], q);
    }
  }

  /** A skip that does not follow a text that was not found: the straight quote stands for two curly
      ones, and the batch goes on as if the edit had been made. */
  lemma SkipAfterAmbiguous(ratio: Ratio)
    ensures var content, e := CURLY + CURLY + "b", Pair("\"", "b");
            && Replacement(ratio, content, e.oldText, e.newText, false) == Failure(NotUnique(2, 1))
            && Batch(ratio, content, [e]) == Success(Outcome(content, 0, 1))
  {
    hide Usable, Count, Occurs, Replacement;
    var content, e := CURLY + CURLY + "b", Pair("\"", "b");
    CurlyIsFound(ratio);
    CurlyCounts();
    SimpleNeedsLiteral(ratio, content, "\"");
    assert REPLACERS[0] == Simple && REPLACERS[1..][0] == CharNormalized;
    assert ClassFrom(ratio, content, "\"", REPLACERS[1..]) == Class(Some(CharNormalized), [CURLY]);
    assert EquivalenceClass(ratio, content, "\"") == Class(Some(CharNormalized), [CURLY]);
    TotalSingle(content, CURLY);
    assert !IsSpace("b"[0]);
    assert IdempotentSkip(content, "\"", "b");
    SkipCause(ratio, content, e);
    var skipped := Outcome(content, 0, 1);
    assert BatchFrom(ratio, [e], 1, skipped) == Success(skipped);
    assert BatchFrom(ratio, [e], 0, Outcome(content, 0, 0)) == BatchFrom(ratio, [e], 1, skipped);
  }

  /** Running a batch in two parts, the second on the text the first left, gives the same text and counts. */
  lemma {:induction false} BatchSplits(ratio: Ratio, a: seq<Pair>, b: seq<Pair>, i: nat, o: Outcome)
    requires i <= |a|
    ensures BatchFrom(ratio, a, i, o).Success? ==>
              BatchFrom(ratio, a + b, i, o) == BatchFrom(ratio, a + b, |a|, BatchFrom(ratio, a, i, o).value)
    ensures BatchFrom(ratio, a, i, o).Failure? ==> BatchFrom(ratio, a + b, i, o).Failure?
    decreases |a| - i
  {
    hide Replacement, IdempotentSkip;
    if i < |a| {
      var e := a[i];
      match Replacement(ratio, o.text, e.oldText, e.newText, false)
      case Success(text) => BatchSplits(ratio, a, b, i + 1, Outcome(text, o.applied + 1, o.skipped));
      case Failure(_) =>
        if IdempotentSkip(o.text, e.oldText, e.newText) {
          BatchSplits(ratio, a, b, i + 1, Outcome(o.text, o.applied, o.skipped + 1));
        }
    }
  }
}
