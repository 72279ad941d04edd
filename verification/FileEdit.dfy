// backend/workspace/__init__.py, edit_file: the edit between reading a file and writing it back.
module FileEdit {
  import opened Wrappers
  import opened Text
  import opened Replacers
  import opened Indent
  import opened Edit
  import opened LineEndings

  /** Matching runs on text without mark and with LF endings; both are restored afterwards. */
  function EditedText(ratio: Ratio, raw: string, oldString: string, newString: string): Result<string, EditError> {
    var (bom, body) := StripBom(raw);
    match Replacement(ratio, ToLf(body), ToLf(oldString), ToLf(newString), false)
    case Success(updated) => Success(bom + RestoreEol(updated, DetectEol(body)))
    case Failure(e) => Failure(e)
  }

  /** What a caller asks for: one replacement or an ordered batch. */
  datatype Request =
    | One(oldString: string, newString: string, replaceAll: bool)
    | Many(edits: seq<Pair>)

  function LfPairs(edits: seq<Pair>): (r: seq<Pair>)
    ensures |r| == |edits|
  {
    seq(|edits|, i requires 0 <= i < |edits| => Pair(ToLf(edits[i].oldText), ToLf(edits[i].newText)))
  }

  function Updated(ratio: Ratio, current: string, req: Request): Result<string, EditError> {
    match req
    case One(oldString, newString, replaceAll) =>
      Replacement(ratio, current, ToLf(oldString), ToLf(newString), replaceAll)
    case Many(edits) =>
      match Batch(ratio, current, LfPairs(edits))
      case Success(o) => Success(o.text)
      case Failure(e) => Failure(e)
  }

  datatype FileResult = Refused(error: EditError) | AlreadyThere | NoChange | Written(file: string)

  /** A file is read and written in text mode: reading turns every line ending into a line feed, and
      writing turns every line feed into the host's line separator. */
  function EditFile(ratio: Ratio, separator: Eol, file: string, req: Request): FileResult {
    var (bom, body) := StripBom(ToLf(file));
    var current := ToLf(body);
    match Updated(ratio, current, req)
    case Failure(e) =>
      if req.One? && IdempotentSkip(current, ToLf(req.oldString), ToLf(req.newString)) then AlreadyThere
      else Refused(e)
    case Success(updated) =>
      if updated == current then NoChange
      else Written(RestoreEol(bom + RestoreEol(updated, DetectEol(body)), separator))
  }

  lemma {:induction false} RewrittenConcat(a: string, b: string, e: Eol)
    requires '\r' !in a && '\r' !in b
    ensures Rewritten(a + b, e) == Rewritten(a, e) + Rewritten(b, e)
    decreases |a|
  {
    hide Rewritten;
    if a == "" {
      assert a + b == b;
      RewrittenNil(e);
    } else {
      RewrittenConcat(a[1..], b, e);
      assert (a + b)[1..] == a[1..] + b;
      RewrittenStep(a, e);
      RewrittenStep(a + b, e);
    }
  }

  lemma RestoreConcat(a: string, b: string, c: string, e: Eol)
    requires '\r' !in a && '\r' !in b && '\r' !in c
    ensures RestoreEol(a + b + c, e) == RestoreEol(a, e) + RestoreEol(b, e) + RestoreEol(c, e)
  {
    hide RestoreEol, Rewritten;
    RestoreRewrites(a + b + c, e);
    RestoreRewrites(a, e);
    RestoreRewrites(b, e);
    RestoreRewrites(c, e);
    RewrittenConcat(a + b, c, e);
    RewrittenConcat(a, b, e);
  }

  lemma PiecesWithout(s: string, a: string, b: string, c: string)
    requires s == a + b + c && '\r' !in s
    ensures '\r' !in a && '\r' !in b && '\r' !in c
  {
    forall k | 0 <= k < |a| ensures a[k] != '\r' { assert a[k] == s[k]; }
    forall k | 0 <= k < |b| ensures b[k] != '\r' { assert b[k] == s[|a| + k]; }
    forall k | 0 <= k < |c| ensures c[k] != '\r' { assert c[k] == s[|a| + |b| + k]; }
  }

  lemma ReplHasNoCr(layer: Layer, oldString: string, newString: string, matched: string)
    requires '\r' !in newString
    ensures '\r' !in ReplFor(layer, oldString, newString, matched)
  {
    hide TextIndent, Reindented, QuotesPreserved;
    ReindentedHasNoCr(newString, TextIndent(matched) - TextIndent(oldString));
    var repl := if layer in RECONCILE_INDENT then Reindented(newString, TextIndent(matched) - TextIndent(oldString)) else newString;
    QuotedHasNoCr(matched, repl);
  }

  lemma QuotedHasNoCr(matched: string, s: string)
    requires '\r' !in s
    ensures '\r' !in QuotesPreserved(matched, s)
  {
    hide HasDoubleCurly, HasSingleCurly, Opening;
    forall k | 0 <= k < |s| ensures QuotesPreserved(matched, s)[k] != '\r' {
      assert s[k] != '\r';
    }
  }

  lemma {:induction false} SplitWithout(s: string, i: nat)
    requires '\r' !in s && i < |Split(s)|
    ensures '\r' !in Split(s)[i]
  {
    if s != "" {
      var rest := Split(s[1..]);
      if s[0] == '\n' {
        if i > 0 {
          SplitWithout(s[1..], i - 1);
        }
      } else {
        SplitWithout(s[1..], i);
      }
    }
  }

  lemma {:induction false} JoinWithout(lines: seq<string>)
    requires forall i :: 0 <= i < |lines| ==> '\r' !in lines[i]
    ensures '\r' !in Join(lines)
  {
    if |lines| > 1 {
      JoinWithout(lines[1..]);
    }
  }

  lemma ReindentedHasNoCr(s: string, delta: int)
    requires '\r' !in s
    ensures '\r' !in Reindented(s, delta)
  {
    hide Split, Join, Blank, Width;
    var lines := Split(s);
    forall i | 0 <= i < |lines| ensures '\r' !in ReindentLine(lines[i], delta) {
      SplitWithout(s, i);
    }
    JoinWithout(ReindentLines(lines, delta));
  }

  /** On a text with one kind of line ending, matching on LF endings and restoring the detected kind
      keeps everything outside the edited span, the byte-order mark and the line endings included. */
  lemma EditKeepsOtherText(ratio: Ratio, raw: string, oldString: string, newString: string)
      returns (before: string, taken: string, put: string, after: string)
    requires Uniform(StripBom(raw).1) && EditedText(ratio, raw, oldString, newString).Success?
    ensures raw == StripBom(raw).0 + before + taken + after
    ensures EditedText(ratio, raw, oldString, newString).value == StripBom(raw).0 + before + put + after
    ensures exists c: Cut ::
              && UniqueCut(ratio, ToLf(StripBom(raw).1), ToLf(oldString), c)
              && ToLf(taken) == c.matched
              && Inserts(c.layer, ToLf(oldString), ToLf(newString), c.matched, ToLf(put))
  {
    hide ToLf, RestoreEol, DetectEol, Replacement, UniqueCut, StripBom, Uniform, Inserts;
    var (bom, body) := StripBom(raw);
    var lf, e := ToLf(body), DetectEol(body);
    var c, repl := TextReplaced(ratio, lf, ToLf(oldString), newString);
    ToLfThenRestoreIs(body, e);
    RoundTripIffUniform(body);
    BomRoundTrip(raw);
    before, taken, put, after := Restored(c, lf, repl, e);
    Regroup(bom, before, taken, after);
    Regroup(bom, before, put, after);
  }

  lemma TextReplaced(ratio: Ratio, text: string, oldLf: string, newString: string) returns (c: Cut, repl: string)
    requires Replacement(ratio, text, oldLf, ToLf(newString), false).Success?
    ensures UniqueCut(ratio, text, oldLf, c) && text == c.prefix + c.matched + c.suffix
    ensures Replacement(ratio, text, oldLf, ToLf(newString), false).value == c.prefix + repl + c.suffix
    ensures Inserts(c.layer, oldLf, ToLf(newString), c.matched, repl) && '\r' !in repl
  {
    hide ToLf, Replacement, UniqueCut, ReplFor, Inserts;
    var newLf := ToLf(newString);
    c := SingleEditFrame(ratio, text, oldLf, newLf);
    repl := ReplFor(c.layer, oldLf, newLf, c.matched);
    CutLayer(ratio, text, oldLf, c);
    ReplForInserts(c.layer, oldLf, newLf, c.matched);
    ToLfThenRestoreIs(newString, LF);
    ReplHasNoCr(c.layer, oldLf, newLf, c.matched);
  }

  lemma Restored(c: Cut, text: string, repl: string, e: Eol) returns (before: string, taken: string, put: string, after: string)
    requires text == c.prefix + c.matched + c.suffix && '\r' !in text && '\r' !in repl
    ensures RestoreEol(text, e) == before + taken + after
    ensures RestoreEol(c.prefix + repl + c.suffix, e) == before + put + after
    ensures ToLf(taken) == c.matched && ToLf(put) == repl
  {
    hide ToLf, RestoreEol;
    PiecesWithout(text, c.prefix, c.matched, c.suffix);
    before, taken, put, after :=
      RestoreEol(c.prefix, e), RestoreEol(c.matched, e), RestoreEol(repl, e), RestoreEol(c.suffix, e);
    RestoreConcat(c.prefix, c.matched, c.suffix, e);
    RestoreConcat(c.prefix, repl, c.suffix, e);
    RestoreThenToLf(c.matched, e);
    RestoreThenToLf(repl, e);
  }

  // ---------------------------------------------------------------- no carriage return reaches the file system

  lemma {:induction false} ReplaceHasNoCr(s: string, m: string, r: string)
    requires m != "" && '\r' !in s && '\r' !in r
    ensures '\r' !in Replace(s, m, r)
    decreases |s|
  {
    hide Find, At;
    var q := Find(s, m, 0);
    if q >= 0 {
      FoundInside(s, m);
      ReplaceHasNoCr(s[q + |m|..], m, r);
    }
  }

  lemma {:induction false} ReplaceEachHasNoCr(content: string, matches: seq<string>, layer: Layer, oldString: string, newString: string)
    requires NoneEmpty(matches) && '\r' !in content && '\r' !in newString
    ensures '\r' !in ReplaceEach(content, matches, layer, oldString, newString)
  {
    hide Replace, ReplFor;
    if matches != [] {
      var m, rest := matches[|matches| - 1], matches[..|matches| - 1];
      ReplaceEachHasNoCr(content, rest, layer, oldString, newString);
      ReplHasNoCr(layer, oldString, newString, m);
      ReplaceHasNoCr(ReplaceEach(content, rest, layer, oldString, newString), m, ReplFor(layer, oldString, newString, m));
    }
  }

  lemma ReplacementHasNoCr(ratio: Ratio, content: string, oldString: string, newString: string, all: bool)
    requires Replacement(ratio, content, oldString, newString, all).Success? && '\r' !in content && '\r' !in newString
    ensures '\r' !in Replacement(ratio, content, oldString, newString, all).value
  {
    hide ReplFor, ReplaceEach, ReplaceFirst, Total, Usable;
    var c := EquivalenceClass(ratio, content, oldString);
    if all {
      ReplaceEachHasNoCr(content, c.matches, c.layer.value, oldString, newString);
    } else {
      ReplHasNoCr(c.layer.value, oldString, newString, c.matches[0]);
      ReplaceFirstHasNoCr(content, c.matches[0], ReplFor(c.layer.value, oldString, newString, c.matches[0]));
    }
  }

  lemma ReplaceFirstHasNoCr(s: string, m: string, r: string)
    requires '\r' !in s && '\r' !in r
    ensures '\r' !in ReplaceFirst(s, m, r)
  {
    hide Find;
  }

  lemma {:induction false} BatchHasNoCr(ratio: Ratio, edits: seq<Pair>, i: nat, o: Outcome)
    requires i <= |edits| && BatchFrom(ratio, edits, i, o).Success? && '\r' !in o.text
    requires forall k :: 0 <= k < |edits| ==> '\r' !in edits[k].newText
    ensures '\r' !in BatchFrom(ratio, edits, i, o).value.text
    decreases |edits| - i
  {
    hide Replacement, IdempotentSkip;
    if i < |edits| {
      var e := edits[i];
      match Replacement(ratio, o.text, e.oldText, e.newText, false)
      case Success(text) =>
        ReplacementHasNoCr(ratio, o.text, e.oldText, e.newText, false);
        BatchHasNoCr(ratio, edits, i + 1, Outcome(text, o.applied + 1, o.skipped));
      case Failure(_) => BatchHasNoCr(ratio, edits, i + 1, Outcome(o.text, o.applied, o.skipped + 1));
    }
  }

  lemma UpdatedHasNoCr(ratio: Ratio, current: string, req: Request)
    requires Updated(ratio, current, req).Success? && '\r' !in current
    ensures '\r' !in Updated(ratio, current, req).value
  {
    hide Replacement, ToLf, BatchFrom;
    match req
    case One(oldString, newString, replaceAll) =>
      ToLfThenRestoreIs(newString, LF);
      ReplacementHasNoCr(ratio, current, ToLf(oldString), ToLf(newString), replaceAll);
    case Many(edits) =>
      var pairs := LfPairs(edits);
      forall k | 0 <= k < |pairs| ensures '\r' !in pairs[k].newText {
        ToLfThenRestoreIs(edits[k].newText, LF);
      }
      BatchHasNoCr(ratio, pairs, 0, Outcome(current, 0, 0));
  }

  // ---------------------------------------------------------------- what an edit makes of the file

  /** What is read has no carriage return left, so LF is what is detected and restoring it does nothing. */
  lemma ReadPlane(file: string)
    ensures var (bom, body) := StripBom(ToLf(file));
            '\r' !in bom && '\r' !in body && DetectEol(body) == LF && ToLf(body) == body && bom + body == ToLf(file)
  {
    hide ToLf, Count;
    var raw := ToLf(file);
    ToLfThenRestoreIs(file, LF);
    BomRoundTrip(raw);
    PiecesWithout(raw, StripBom(raw).0, StripBom(raw).1, "");
    var body := StripBom(raw).1;
    LfStays(body);
    RewriteSameIff(body, LF);
    if Endings(body) != [] {
      DetectUniform(body, LF);
    } else {
      CountsAreTallies(body);
    }
  }

  /** Whatever was asked for, the file written has the host's line ending throughout, and reading it
      back gives the byte-order mark and the updated text. */
  lemma WrittenEndings(ratio: Ratio, separator: Eol, file: string, req: Request)
    requires EditFile(ratio, separator, file, req).Written?
    ensures var (bom, body) := StripBom(ToLf(file));
            var updated := Updated(ratio, body, req);
            && updated.Success? && updated.value != body
            && EditFile(ratio, separator, file, req).file == RestoreEol(bom + updated.value, separator)
            && ToLf(EditFile(ratio, separator, file, req).file) == bom + updated.value
    ensures OnlyEndings(EditFile(ratio, separator, file, req).file, separator)
  {
    hide ToLf, RestoreEol, DetectEol, Updated, StripBom, IdempotentSkip, Endings, Rewritten;
    var (bom, body) := StripBom(ToLf(file));
    ReadPlane(file);
    var updated := Updated(ratio, body, req).value;
    UpdatedHasNoCr(ratio, body, req);
    LfRestores(updated);
    RestoreThenToLf(bom + updated, separator);
    RestoreRewrites(bom + updated, separator);
    RewrittenEndings(bom + updated, separator);
  }

  lemma LfRestores(s: string)
    ensures RestoreEol(s, LF) == s
  {
  }

  /** The text read from the file, every line ending a line feed, is a mark, or nothing, and the body. */
  predicate Reads(file: string, bom: string, body: string) {
    && bom + body == Rewritten(file, LF)
    && if Rewritten(file, LF) != "" && Rewritten(file, LF)[0] == '\U{FEFF}' then bom == "\U{FEFF}" else bom == ""
  }

  lemma ReadsIff(file: string, bom: string, body: string)
    ensures Reads(file, bom, body) <==> (bom, body) == StripBom(ToLf(file))
  {
    hide ToLf, Rewritten;
    ToLfRewrites(file);
    var t := ToLf(file);
    BomRoundTrip(t);
    if Reads(file, bom, body) {
      assert body == t[|bom|..];
    }
  }

  /** What one replacement makes of a file: it is refused, taken for done, without effect, or written
      with the host's line endings. */
  lemma OneOutcome(ratio: Ratio, separator: Eol, file: string, bom: string, body: string,
                   oldString: string, newString: string, all: bool)
    requires Reads(file, bom, body)
    ensures var oldLf, newLf := Rewritten(oldString, LF), Rewritten(newString, LF);
            var r, out := Replacement(ratio, body, oldLf, newLf, all), EditFile(ratio, separator, file, One(oldString, newString, all));
            && (forall e :: out == Refused(e) <==> r == Failure(e) && !IdempotentSkip(body, oldLf, newLf))
            && (out == AlreadyThere <==> r.Failure? && IdempotentSkip(body, oldLf, newLf))
            && (out == NoChange <==> r == Success(body))
            && (forall f :: out == Written(f) <==> r.Success? && r.value != body && f == Rewritten(bom + r.value, separator))
  {
    hide ToLf, RestoreEol, DetectEol, Replacement, StripBom, IdempotentSkip, Endings, Rewritten;
    var req := One(oldString, newString, all);
    ReadsIff(file, bom, body);
    ReadPlane(file);
    ToLfRewrites(oldString);
    ToLfRewrites(newString);
    if EditFile(ratio, separator, file, req).Written? {
      WrittenText(ratio, separator, file, req);
    }
  }

  lemma WrittenText(ratio: Ratio, separator: Eol, file: string, req: Request)
    requires EditFile(ratio, separator, file, req).Written?
    ensures var (bom, body) := StripBom(ToLf(file));
            var updated := Updated(ratio, body, req);
            updated.Success? && EditFile(ratio, separator, file, req).file == Rewritten(bom + updated.value, separator)
  {
    hide ToLf, RestoreEol, Updated, StripBom, Rewritten, EditFile;
    var (bom, body) := StripBom(ToLf(file));
    ReadPlane(file);
    WrittenEndings(ratio, separator, file, req);
    UpdatedHasNoCr(ratio, body, req);
    RestoreRewrites(bom + Updated(ratio, body, req).value, separator);
  }

  /** What a batch makes of a file: it is refused as a whole, without effect, or written once, with every
      old and new text read as the file is. */
  lemma ManyOutcome(ratio: Ratio, separator: Eol, file: string, bom: string, body: string, edits: seq<Pair>, pairs: seq<Pair>)
    requires Reads(file, bom, body) && |pairs| == |edits|
    requires forall i :: 0 <= i < |edits| ==>
               pairs[i].oldText == Rewritten(edits[i].oldText, LF) && pairs[i].newText == Rewritten(edits[i].newText, LF)
    ensures var r, out := Batch(ratio, body, pairs), EditFile(ratio, separator, file, Many(edits));
            && out != AlreadyThere
            && (forall e :: out == Refused(e) <==> r == Failure(e))
            && (out == NoChange <==> r.Success? && r.value.text == body)
            && (forall f :: out == Written(f) <==>
                  r.Success? && r.value.text != body && f == Rewritten(bom + r.value.text, separator))
  {
    hide ToLf, RestoreEol, DetectEol, Batch, StripBom, IdempotentSkip, Endings, Rewritten;
    var req := Many(edits);
    ReadsIff(file, bom, body);
    ReadPlane(file);
    forall i | 0 <= i < |edits| ensures pairs[i] == LfPairs(edits)[i] {
      ToLfRewrites(edits[i].oldText);
      ToLfRewrites(edits[i].newText);
    }
    assert pairs == LfPairs(edits);
    if EditFile(ratio, separator, file, req).Written? {
      WrittenText(ratio, separator, file, req);
    }
  }

  /** The file cut between line endings; without the byte-order mark, its parts are those of the cut of
      the normalized text. */
  predicate CutsFile(file: string, c: Cut, before: string, taken: string, after: string) {
    && file == before + taken + after
    && Endings(file) == Endings(before) + Endings(taken) + Endings(after)
    && ToLf(before) == StripBom(ToLf(file)).0 + c.prefix && ToLf(taken) == c.matched && ToLf(after) == c.suffix
  }

  /** One unique replacement cuts the file, between line endings, into what stands before the match,
      the match and what stands after it. The text before and after comes back byte for byte if and
      only if its line endings are the host's. */
  lemma FileKeepsBytesIff(ratio: Ratio, separator: Eol, file: string, oldString: string, newString: string, written: string)
      returns (c: Cut, before: string, taken: string, put: string, after: string)
    requires EditFile(ratio, separator, file, One(oldString, newString, false)) == Written(written)
    ensures UniqueCut(ratio, StripBom(ToLf(file)).1, ToLf(oldString), c)
    ensures CutsFile(file, c, before, taken, after)
    ensures Inserts(c.layer, ToLf(oldString), ToLf(newString), c.matched, ToLf(put)) && OnlyEndings(put, separator)
    ensures written == Rewritten(before, separator) + put + Rewritten(after, separator)
    ensures Rewritten(before, separator) == before <==> OnlyEndings(before, separator)
    ensures Rewritten(after, separator) == after <==> OnlyEndings(after, separator)
  {
    hide ToLf, RestoreEol, Replacement, StripBom, UniqueCut, ReplFor, Endings, Rewritten, OnlyEndings, EditFile, Updated, Inserts;
    var body, oldLf, newLf := StripBom(ToLf(file)).1, ToLf(oldString), ToLf(newString);
    var bom, repl;
    c, bom, repl := FileReplaced(ratio, separator, file, oldString, newString, written);
    before, taken, after := CutTwice(file, bom + c.prefix, c.matched, c.suffix);
    put := RestoreEol(repl, separator);
    WrittenPieces(bom + c.prefix, repl, c.suffix, before, after, put, separator);
    RewriteSameIff(before, separator);
    RewriteSameIff(after, separator);
  }

  /** The same before any line ending is looked at. */
  lemma FileReplaced(ratio: Ratio, separator: Eol, file: string, oldString: string, newString: string, written: string)
      returns (c: Cut, bom: string, repl: string)
    requires EditFile(ratio, separator, file, One(oldString, newString, false)) == Written(written)
    ensures bom == StripBom(ToLf(file)).0 && ToLf(file) == bom + c.prefix + c.matched + c.suffix
    ensures UniqueCut(ratio, StripBom(ToLf(file)).1, ToLf(oldString), c)
    ensures Inserts(c.layer, ToLf(oldString), ToLf(newString), c.matched, repl)
    ensures '\r' !in bom + c.prefix && '\r' !in repl && '\r' !in c.suffix
    ensures written == RestoreEol(bom + c.prefix + repl + c.suffix, separator)
  {
    hide ToLf, RestoreEol, Replacement, StripBom, UniqueCut, EditFile, Updated, Inserts;
    var body := StripBom(ToLf(file)).1;
    bom := StripBom(ToLf(file)).0;
    ReadPlane(file);
    WrittenEndings(ratio, separator, file, One(oldString, newString, false));
    UpdatedOne(ratio, body, oldString, newString);
    c, repl := TextReplaced(ratio, body, ToLf(oldString), newString);
    PiecesWithout(body, c.prefix, c.matched, c.suffix);
    Regroup(bom, c.prefix, repl, c.suffix);
    Regroup(bom, c.prefix, c.matched, c.suffix);
    BothWithout(bom, c.prefix);
  }

  lemma Regroup(a: string, b: string, c: string, d: string)
    ensures a + (b + c + d) == a + b + c + d
  {
  }

  lemma BothWithout(a: string, b: string)
    requires '\r' !in a && '\r' !in b
    ensures '\r' !in a + b
  {
  }

  lemma UpdatedOne(ratio: Ratio, current: string, oldString: string, newString: string)
    ensures Updated(ratio, current, One(oldString, newString, false))
            == Replacement(ratio, current, ToLf(oldString), ToLf(newString), false)
  {
  }

  lemma CutTwice(file: string, p: string, m: string, s: string) returns (before: string, taken: string, after: string)
    requires ToLf(file) == p + m + s
    ensures file == before + taken + after && Endings(file) == Endings(before) + Endings(taken) + Endings(after)
    ensures ToLf(before) == p && ToLf(taken) == m && ToLf(after) == s
  {
    hide ToLf, Endings, Rewritten;
    ToLfRewrites(file);
    var j := CutAlong(file, |p| + |m|);
    var i := CutAlong(file[..j], |p|);
    before, taken, after := file[..j][..i], file[..j][i..], file[j..];
    ToLfRewrites(before);
    ToLfRewrites(taken);
    ToLfRewrites(after);
    assert (p + m + s)[..|p| + |m|] == p + m && (p + m)[..|p|] == p && (p + m)[|p|..] == m;
  }

  lemma WrittenPieces(p: string, repl: string, s: string, before: string, after: string, put: string, e: Eol)
    requires '\r' !in p && '\r' !in repl && '\r' !in s && put == RestoreEol(repl, e)
    requires ToLf(before) == p && ToLf(after) == s
    ensures RestoreEol(p + repl + s, e) == Rewritten(before, e) + put + Rewritten(after, e)
    ensures ToLf(put) == repl && OnlyEndings(put, e)
  {
    hide ToLf, RestoreEol, Endings, Rewritten;
    RestoreConcat(p, repl, s, e);
    ToLfThenRestoreIs(before, e);
    ToLfThenRestoreIs(after, e);
    RestoreThenToLf(repl, e);
    RestoreRewrites(repl, e);
    RewrittenEndings(repl, e);
  }

  lemma ExampleTexts()
    ensures ToLf("a\r\nb") == "a\nb" && ToLf("b") == "b" && ToLf("c") == "c"
    ensures DetectEol("a\r\nb") == CRLF && RestoreEol("a\nc", CRLF) == "a\r\nc"
  {
    hide ToLf, DetectEol, RestoreEol;
    var file, text := "a\r\nb", "a\nc";
    assert file[1..] == "\r\nb" && file[1..][2..] == "b" && text[1..] == "\nc" && text[2..] == "c" && "b"[1..] == "";
    assert Rewritten("b", LF) == "b";
    ToLfRewrites(file);
    LfStays("b");
    LfStays("c");
    assert Endings("b") == [];
    assert Endings(file[1..]) == [CRLF] + Endings("b");
    DetectUniform(file, CRLF);
    assert Rewritten(text[1..], CRLF) == "\r\n" + Rewritten("c", CRLF);
    assert Rewritten("c", CRLF) == "c";
    RestoreRewrites(text, CRLF);
  }

  lemma ExampleEdit(ratio: Ratio)
    ensures Replacement(ratio, "a\nb", "b", "c", false) == Success("a\nc")
  {
    hide Find, Count, At, Replacement;
    FindChar("a\nb", 'b', 2);
    FindChar("", 'b', -1);
    OccursFind("a\nb", "b");
    CountUnfold("a\nb", "b");
    CountUnfold("", "b");
    assert "a\nb"[3..] == "" && "a\nb"[..2] == "a\n";
    LiteralEdit(ratio, "a\nb", "b", "c");
    assert ReplaceFirst("a\nb", "b", "c") == "a\n" + "c" + "" == "a\nc";
  }

  /** On a host that separates lines by LF, an edit of a file with CR LF endings takes them all away,
      though the same edit of the same text keeps them. */
  lemma CrLfLostOnLfHost(ratio: Ratio)
    ensures EditFile(ratio, LF, "a\r\nb", One("b", "c", false)) == Written("a\nc")
    ensures EditedText(ratio, "a\r\nb", "b", "c") == Success("a\r\nc")
  {
    hide ToLf, DetectEol, RestoreEol, Replacement, IdempotentSkip;
    ExampleTexts();
    ExampleEdit(ratio);
    ReadPlane("a\r\nb");
    LfRestores("a\nc");
    assert "" + "a\nc" == "a\nc" && "" + "a\r\nc" == "a\r\nc";
  }
}
