// backend/editing/edit.py: re-indentation and quote restoration of the inserted text.
module Indent {
  import opened Text
  import opened Normalize

  // ---------------------------------------------------------------- re-indentation

  function Spaces(d: nat): (s: string)
    ensures |s| == d && forall i :: 0 <= i < d ==> s[i] == ' '
  {
    seq(d, _ => ' ')
  }

  function Min(a: nat, b: nat): nat { if a < b then a else b }

  /** One line moved right by `delta`, or left as far as its own indentation allows. */
  function ReindentLine(line: string, delta: int): string {
    if Blank(line) then line
    else if delta > 0 then Spaces(delta) + line
    else line[Min(-delta, Width(line))..]
  }

  function ReindentLines(lines: seq<string>, delta: int): (r: seq<string>)
    ensures |r| == |lines|
  {
    seq(|lines|, i requires 0 <= i < |lines| => ReindentLine(lines[i], delta))
  }

  function Reindented(text: string, delta: int): string {
    if delta == 0 then text else Join(ReindentLines(Split(text), delta))
  }

  /** How many of the first `limit` characters are indentation. */
  method DedentBy(line: string, limit: nat) returns (k: nat)
    ensures k == Min(limit, Width(line))
  {
    hide IsIndentChar;
    k := 0;
    while k < |line| && k < limit && IsIndentChar(line[k])
      invariant 0 <= k <= Min(limit, Width(line))
    {
      k := k + 1;
    }
  }

  method Reindent(text: string, delta: int) returns (r: string)
    ensures r == Reindented(text, delta)
  {
    hide Blank, Split, Join, Width, Spaces;
    if delta == 0 {
      return text;
    }
    var lines := Split(text);
    var out: seq<string> := [];
    for i := 0 to |lines|
      invariant out == ReindentLines(lines, delta)[..i]
    {
      var line := lines[i];
      if Blank(line) {
        out := out + [line];
      } else if delta > 0 {
        out := out + [Spaces(delta) + line];
      } else {
        var k := DedentBy(line, -delta);
        out := out + [line[k..]];
      }
    }
    assert out == ReindentLines(lines, delta);
    r := Join(out);
  }

  /** `_common_indent` */
  function TextIndent(text: string): nat { CommonIndent(Split(text)) }

  lemma BlankAffixed(line: string, d: nat)
    ensures Blank(Spaces(d) + line) <==> Blank(line)
    ensures Width(Spaces(d) + line) == d + Width(line)
  {
    var t := Spaces(d) + line;
    if Blank(t) {
      forall i | 0 <= i < |line| ensures IsSpace(line[i]) {
        assert t[d + i] == line[i];
      }
    }
    WidthIs(t, d + Width(line));
  }

  lemma BlankCut(line: string, k: nat)
    requires k <= Width(line)
    ensures Blank(line[k..]) <==> Blank(line)
    ensures Width(line[k..]) == Width(line) - k
  {
    if Blank(line[k..]) {
      forall i | 0 <= i < |line| ensures IsSpace(line[i]) {
        if i >= k {
          assert line[i] == line[k..][i - k];
        }
      }
    }
    WidthIs(line[k..], Width(line) - k);
  }

  lemma ReindentedLines(text: string, delta: int)
    ensures delta != 0 ==> Split(Reindented(text, delta)) == ReindentLines(Split(text), delta)
  {
    if delta != 0 {
      var lines := Split(text);
      forall i | 0 <= i < |lines| ensures NewlineFree(ReindentLine(lines[i], delta)) {
        assert NewlineFree(lines[i]);
      }
      SplitJoin(ReindentLines(lines, delta));
    }
  }

  /** Shifting right and then left by the same amount restores the text. */
  lemma ReindentRoundTrip(text: string, d: nat)
    ensures Reindented(Reindented(text, d), -(d as int)) == text
  {
    hide Blank, Split, Join, Width;
    if d > 0 {
      var lines := Split(text);
      var there := ReindentLines(lines, d);
      ReindentedLines(text, d);
      forall i | 0 <= i < |lines| ensures ReindentLine(there[i], -(d as int)) == lines[i] {
        BlankAffixed(lines[i], d);
        assert (Spaces(d) + lines[i])[d..] == lines[i];
      }
      assert ReindentLines(there, -(d as int)) == lines;
      JoinSplit(text);
    }
  }

  /** `after` is `before` moved by `d` columns, to the left no further than its indentation goes; the
      columns that come in are spaces, those that go out are the first, and blank lines stay. */
  predicate Moved(before: string, after: string, d: int) {
    if Blank(before) then after == before
    else
      && !Blank(after)
      && Width(after) == (if Width(before) + d < 0 then 0 else Width(before) + d)
      && after[Width(after)..] == before[Width(before)..]
      && if d >= 0 then after[d..] == before && forall k :: 0 <= k < d ==> after[k] == ' '
         else after == before[Width(before) - Width(after)..]
  }

  /** The lines of `after` are those of `before`, each moved by `d` columns. */
  predicate MovedText(before: string, after: string, d: int) {
    && |Split(after)| == |Split(before)|
    && forall i :: 0 <= i < |Split(before)| ==> Moved(Split(before)[i], Split(after)[i], d)
  }

  lemma DropDrop(s: string, a: nat, b: nat)
    requires a <= b <= |s|
    ensures s[a..][b - a..] == s[b..]
  {
  }

  lemma MovedRight(line: string, d: nat)
    requires !Blank(line)
    ensures Moved(line, Spaces(d) + line, d)
  {
    hide Blank, Width, Spaces;
    BlankAffixed(line, d);
    DropDrop(Spaces(d) + line, d, d + Width(line));
    assert (Spaces(d) + line)[d..] == line;
  }

  lemma MovedLeft(line: string, d: nat)
    requires !Blank(line) && d > 0
    ensures Moved(line, line[Min(d, Width(line))..], -(d as int))
  {
    hide Blank, Width, Spaces;
    var k := Min(d, Width(line));
    BlankCut(line, k);
    DropDrop(line, k, Width(line));
  }

  lemma LineMoved(line: string, delta: int)
    ensures Moved(line, ReindentLine(line, delta), delta)
  {
    hide Moved, Blank, Width, Spaces;
    if Blank(line) {
      BlankLineStays(line, delta);
    } else if delta > 0 {
      MovedRight(line, delta);
    } else if delta < 0 {
      MovedLeft(line, -delta);
    } else {
      MovedRight(line, 0);
      assert Spaces(0) + line == line && line[0..] == line;
    }
  }

  lemma BlankLineStays(line: string, delta: int)
    requires Blank(line)
    ensures Moved(line, line, delta)
  {
  }

  /** Every line moves by `delta` columns, no line is added or lost; and while the shift does not exceed
      the common indent to the left, the common indent of a text with a non-blank line moves by exactly
      `delta`, so that relative indentation is kept. */
  lemma ReindentShiftsExactly(text: string, delta: int)
    ensures MovedText(text, Reindented(text, delta), delta)
    ensures -delta <= TextIndent(text) && AnyNonBlank(Split(text)) ==>
              TextIndent(Reindented(text, delta)) == TextIndent(text) + delta
  {
    hide Blank, Split, Join, Width, ReindentLine, CommonIndent, Moved;
    var before, after := Split(text), Split(Reindented(text, delta));
    ReindentedLines(text, delta);
    forall i | 0 <= i < |before| ensures Moved(before[i], after[i], delta) {
      LineMoved(before[i], delta);
      if delta == 0 {
        StaysPut(before[i]);
      }
    }
    if AnyNonBlank(before) && -delta <= TextIndent(text) {
      MovedIndent(before, after, delta);
    }
  }

  lemma StaysPut(line: string)
    ensures Moved(line, line, 0)
  {
    hide Blank;
  }

  lemma MovedIndent(before: seq<string>, after: seq<string>, delta: int)
    requires |after| == |before| && AnyNonBlank(before) && -delta <= CommonIndent(before)
    requires forall i :: 0 <= i < |before| ==> Moved(before[i], after[i], delta)
    ensures CommonIndent(after) == CommonIndent(before) + delta
  {
    hide Blank, Width, CommonIndent;
    var at :| 0 <= at < |before| && !Blank(before[at]) && CommonIndent(before) == Width(before[at]);
    CommonIndentIs(after, CommonIndent(before) + delta, at);
  }

  /** The replacement of an indentation-blind match: when the new text carries the common indent of
      the old one, the inserted block gets the common indent of the block it replaces. */
  lemma InsertedBlockTakesMatchedIndent(oldString: string, newString: string, matched: string)
    requires TextIndent(newString) == TextIndent(oldString) && AnyNonBlank(Split(newString))
    ensures TextIndent(Reindented(newString, TextIndent(matched) - TextIndent(oldString))) == TextIndent(matched)
  {
    hide Blank, Split, Join, CommonIndent, Reindented, MovedText;
    ReindentShiftsExactly(newString, TextIndent(matched) - TextIndent(oldString));
  }

  // ---------------------------------------------------------------- quote restoration

  predicate HasDoubleCurly(s: string) { '\U{201C}' in s || '\U{201D}' in s }

  predicate HasSingleCurly(s: string) { '\U{2018}' in s || '\U{2019}' in s }

  predicate Opening(s: string, k: nat)
    requires k < |s|
  {
    k == 0 || s[k - 1] in " \t\n([{<"
  }

  function Restyled(matched: string, s: string, k: nat): char
    requires k < |s|
  {
    if s[k] == '"' && HasDoubleCurly(matched) then if Opening(s, k) then '\U{201C}' else '\U{201D}'
    else if s[k] == '\'' && HasSingleCurly(matched) then if Opening(s, k) then '\U{2018}' else '\U{2019}'
    else s[k]
  }

  function QuotesPreserved(matched: string, newString: string): (r: string)
    ensures |r| == |newString|
  {
    if !HasDoubleCurly(matched) && !HasSingleCurly(matched) then newString
    else seq(|newString|, k requires 0 <= k < |newString| => Restyled(matched, newString, k))
  }

  method PreserveQuoteStyle(matched: string, newString: string) returns (r: string)
    ensures r == QuotesPreserved(matched, newString)
  {
    hide HasDoubleCurly, HasSingleCurly, Opening;
    var hasDouble, hasSingle := HasDoubleCurly(matched), HasSingleCurly(matched);
    if !(hasDouble || hasSingle) {
      return newString;
    }
    r := "";
    for k := 0 to |newString|
      invariant r == QuotesPreserved(matched, newString)[..k]
    {
      var c := newString[k];
      if c == '"' && hasDouble {
        r := r + [if Opening(newString, k) then '\U{201C}' else '\U{201D}'];
      } else if c == '\'' && hasSingle {
        r := r + [if Opening(newString, k) then '\U{2018}' else '\U{2019}'];
      } else {
        r := r + [c];
      }
    }
  }

  /** What a straight quote behind `prev` becomes: with neither curly form in the match it stays; else it
      opens at the start and behind whitespace or an opening bracket, and closes elsewhere. */
  predicate QuoteBecomes(matched: string, straight: char, open: char, close: char, before: string, r: char) {
    if open !in matched && close !in matched then r == straight
    else if before == "" then r == open
    else if before[|before| - 1] in [' ', '\t', '\n', '(', '[', '{', '<'] then r == open
    else r == close
  }

  /** `r` is `s` with the quotes of the matched text; everything but its quotes stays. */
  predicate QuotedLike(matched: string, s: string, r: string) {
    |r| == |s| && forall k :: 0 <= k < |s| ==>
      if s[k] == '"' then QuoteBecomes(matched, '"', '\U{201C}', '\U{201D}', s[..k], r[k])
      else if s[k] == '\'' then QuoteBecomes(matched, '\'', '\U{2018}', '\U{2019}', s[..k], r[k])
      else r[k] == s[k]
  }

  lemma QuoteRestored(matched: string, s: string, k: nat)
    requires k < |s|
    ensures s[k] == '"' ==> QuoteBecomes(matched, '"', '\U{201C}', '\U{201D}', s[..k], Restyled(matched, s, k))
    ensures s[k] == '\'' ==> QuoteBecomes(matched, '\'', '\U{2018}', '\U{2019}', s[..k], Restyled(matched, s, k))
  {
  }

  lemma QuotesRestored(matched: string, newString: string)
    ensures QuotedLike(matched, newString, QuotesPreserved(matched, newString))
  {
    hide QuoteBecomes, Opening;
    forall k | 0 <= k < |newString| && !HasDoubleCurly(matched) && !HasSingleCurly(matched)
      ensures Restyled(matched, newString, k) == newString[k]
    {
    }
    hide HasDoubleCurly, HasSingleCurly;
    forall k: nat | k < |newString|
      ensures newString[k] == '"' ==>
                QuoteBecomes(matched, '"', '\U{201C}', '\U{201D}', newString[..k], Restyled(matched, newString, k))
      ensures newString[k] == '\'' ==>
                QuoteBecomes(matched, '\'', '\U{2018}', '\U{2019}', newString[..k], Restyled(matched, newString, k))
    {
      QuoteRestored(matched, newString, k);
    }
  }

  /** Restoring curly quotes changes neither length nor character-normal form, and only touches straight quotes. */
  lemma QuotesKeepNormalForm(matched: string, newString: string)
    ensures NText(CHAR_TRANSFORMS, QuotesPreserved(matched, newString)) == NText(CHAR_TRANSFORMS, newString)
    ensures forall k :: 0 <= k < |newString| && newString[k] !in "\"'" ==>
              QuotesPreserved(matched, newString)[k] == newString[k]
  {
    var r := QuotesPreserved(matched, newString);
    CharNormal(r);
    CharNormal(newString);
    forall k | 0 <= k < |newString| ensures Fold(r[k]) == Fold(newString[k]) {
    }
  }
}
