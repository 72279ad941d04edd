// Python string operations the modelled code relies on, over sequences of code points.
module Text {
  // ---------------------------------------------------------------- whitespace

  /** The characters str.isspace() accepts; str.strip() and the regex class \s use the same set. */
  predicate IsSpace(c: char) {
    || '\U{0009}' <= c <= '\U{000D}'
    || '\U{001C}' <= c <= '\U{0020}'
    || c == '\U{0085}' || c == '\U{00A0}' || c == '\U{1680}'
    || '\U{2000}' <= c <= '\U{200A}'
    || c == '\U{2028}' || c == '\U{2029}' || c == '\U{202F}' || c == '\U{205F}' || c == '\U{3000}'
  }

  /** `not s.strip()` */
  predicate Blank(s: string) {
    forall i :: 0 <= i < |s| ==> IsSpace(s[i])
  }

  function LStrip(s: string): (r: string)
    ensures |r| <= |s|
    ensures r != "" ==> !IsSpace(r[0])
  {
    if s != "" && IsSpace(s[0]) then LStrip(s[1..]) else s
  }

  function RStrip(s: string): (r: string)
    ensures |r| <= |s|
    ensures r != "" ==> !IsSpace(r[|r| - 1])
  {
    if s != "" && IsSpace(s[|s| - 1]) then RStrip(s[..|s| - 1]) else s
  }

  function Strip(s: string): string {
    RStrip(LStrip(s))
  }

  lemma BlankCons(s: string)
    requires s != ""
    ensures Blank(s) <==> IsSpace(s[0]) && Blank(s[1..])
  {
    hide IsSpace;
    if IsSpace(s[0]) && Blank(s[1..]) {
      forall i | 0 <= i < |s| ensures IsSpace(s[i]) {
        if i > 0 {
          assert s[i] == s[1..][i - 1];
        }
      }
    }
  }

  lemma {:induction false} BlankLStrip(s: string)
    ensures Blank(LStrip(s)) <==> Blank(s)
    ensures LStrip(s) == "" <==> Blank(s)
  {
    hide IsSpace;
    if s != "" {
      BlankCons(s);
      if IsSpace(s[0]) {
        BlankLStrip(s[1..]);
      }
    }
  }

  lemma {:induction false} BlankRStrip(s: string)
    ensures RStrip(s) == "" <==> Blank(s)
  {
    hide IsSpace;
    if s != "" && IsSpace(s[|s| - 1]) {
      BlankRStrip(s[..|s| - 1]);
      if Blank(s[..|s| - 1]) {
        forall i | 0 <= i < |s| ensures IsSpace(s[i]) {
          if i < |s| - 1 {
            assert s[i] == s[..|s| - 1][i];
          }
        }
      }
    }
  }

  lemma StripBlank(s: string)
    ensures Strip(s) == "" <==> Blank(s)
  {
    hide IsSpace, LStrip, RStrip, Blank;
    BlankLStrip(s);
    BlankRStrip(LStrip(s));
  }

  lemma {:induction false} LStripDrops(pre: string, s: string)
    requires Blank(pre)
    ensures LStrip(pre + s) == LStrip(s)
  {
    if pre != "" {
      BlankCons(pre);
      LStripDrops(pre[1..], s);
      assert (pre + s)[1..] == pre[1..] + s;
    } else {
      assert pre + s == s;
    }
  }

  lemma {:induction false} RStripDrops(s: string, post: string)
    requires Blank(post)
    ensures RStrip(s + post) == RStrip(s)
    decreases |post|
  {
    if post != "" {
      var n := |post| - 1;
      RStripDrops(s, post[..n]);
      assert (s + post)[..|s + post| - 1] == s + post[..n];
    } else {
      assert s + post == s;
    }
  }

  lemma LStripKeeps(s: string)
    requires s != "" && !IsSpace(s[0])
    ensures LStrip(s) == s
  {
  }

  lemma RStripKeeps(s: string)
    requires s != "" && !IsSpace(s[|s| - 1])
    ensures RStrip(s) == s
  {
  }

  lemma {:induction false} LStripPads(s: string) returns (a: nat)
    ensures a <= |s| && s[a..] == LStrip(s) && Blank(s[..a])
  {
    hide IsSpace;
    if s != "" && IsSpace(s[0]) {
      var k := LStripPads(s[1..]);
      a := k + 1;
      assert s[1..][k..] == s[a..];
      forall i | 0 <= i < a ensures IsSpace(s[..a][i]) {
        assert i > 0 ==> s[..a][i] == s[1..][..k][i - 1];
      }
    } else {
      a := 0;
    }
  }

  lemma {:induction false} RStripPads(s: string) returns (b: nat)
    ensures b <= |s| && s[..|s| - b] == RStrip(s) && Blank(s[|s| - b..])
  {
    hide IsSpace;
    if s != "" && IsSpace(s[|s| - 1]) {
      var n := |s| - 1;
      var k := RStripPads(s[..n]);
      b := k + 1;
      var tail := s[|s| - b..];
      assert s[..n][..n - k] == s[..|s| - b];
      forall i | 0 <= i < b ensures IsSpace(tail[i]) {
        assert i < k ==> tail[i] == s[..n][n - k..][i];
      }
    } else {
      b := 0;
    }
  }

  predicate IsIndentChar(c: char) { c == ' ' || c == '\t' }

  /** `len(s) - len(s.lstrip(" \t"))` */
  function Width(s: string): (w: nat)
    ensures w <= |s|
    ensures forall i :: 0 <= i < w ==> IsIndentChar(s[i])
    ensures w < |s| ==> !IsIndentChar(s[w])
  {
    if s != "" && IsIndentChar(s[0]) then 1 + Width(s[1..]) else 0
  }

  lemma WidthIs(s: string, w: nat)
    requires w <= |s|
    requires forall i :: 0 <= i < w ==> IsIndentChar(s[i])
    requires w < |s| ==> !IsIndentChar(s[w])
    ensures Width(s) == w
  {
  }

  /** The smallest leading width among the non-blank lines; 0 when every line is blank. */
  function CommonIndent(lines: seq<string>): (m: nat)
    ensures forall i :: 0 <= i < |lines| && !Blank(lines[i]) ==> m <= Width(lines[i])
    ensures AnyNonBlank(lines) ==> exists i :: 0 <= i < |lines| && !Blank(lines[i]) && m == Width(lines[i])
    ensures !AnyNonBlank(lines) ==> m == 0
  {
    if lines == [] then 0
    else
      var rest := CommonIndent(lines[1..]);
      assert forall i :: 1 <= i < |lines| ==> lines[i] == lines[1..][i - 1];
      if Blank(lines[0]) then
        assert AnyNonBlank(lines) ==> AnyNonBlank(lines[1..]);
        rest
      else if AnyNonBlank(lines[1..]) && rest < Width(lines[0]) then rest
      else Width(lines[0])
  }

  predicate AnyNonBlank(lines: seq<string>) {
    exists i :: 0 <= i < |lines| && !Blank(lines[i])
  }

  /** CommonIndent is the only number that bounds every non-blank width and is one of them. */
  lemma CommonIndentIs(lines: seq<string>, m: nat, at: nat)
    requires at < |lines| && !Blank(lines[at]) && Width(lines[at]) == m
    requires forall i :: 0 <= i < |lines| && !Blank(lines[i]) ==> m <= Width(lines[i])
    ensures CommonIndent(lines) == m
  {
    assert AnyNonBlank(lines);
    assert CommonIndent(lines) <= Width(lines[at]);
  }

  // ---------------------------------------------------------------- split and join on '\n'

  predicate NewlineFree(s: string) { '\n' !in s }

  predicate AllNewlineFree(lines: seq<string>) {
    forall i :: 0 <= i < |lines| ==> NewlineFree(lines[i])
  }

  /** `s.split("\n")` */
  function Split(s: string): (lines: seq<string>)
    ensures |lines| >= 1
    ensures AllNewlineFree(lines)
  {
    if s == "" then [""]
    else
      var rest := Split(s[1..]);
      if s[0] == '\n' then [""] + rest else [[s[0]] + rest[0]] + rest[1..]
  }

  /** `"\n".join(lines)` */
  function Join(lines: seq<string>): string {
    if lines == [] then ""
    else if |lines| == 1 then lines[0]
    else lines[0] + "\n" + Join(lines[1..])
  }

  lemma {:induction false} JoinSplit(s: string)
    ensures Join(Split(s)) == s
  {
    if s != "" {
      JoinSplit(s[1..]);
      var rest := Split(s[1..]);
      if s[0] != '\n' {
        var lines := [[s[0]] + rest[0]] + rest[1..];
        if |rest| > 1 {
          assert lines[1..] == rest[1..];
        }
      } else {
        assert ([""] + rest)[1..] == rest;
      }
    }
  }

  lemma {:induction false} SplitJoin(lines: seq<string>)
    requires lines != [] && AllNewlineFree(lines)
    ensures Split(Join(lines)) == lines
    decreases |lines|, if lines == [] then 0 else |lines[0]|
  {
    var head := lines[0];
    if head == "" {
      if |lines| > 1 {
        SplitJoin(lines[1..]);
        assert Join(lines)[1..] == Join(lines[1..]);
        assert [""] + lines[1..] == lines;
      }
    } else {
      var shorter := [head[1..]] + lines[1..];
      assert shorter[1..] == lines[1..];
      assert head[0] in head;
      SplitJoin(shorter);
      assert Join(lines) == [head[0]] + Join(shorter);
      assert Join(lines)[1..] == Join(shorter);
      assert [head[0]] + head[1..] == head;
      assert [head] + lines[1..] == lines;
    }
  }

  lemma {:induction false} JoinConcat(a: seq<string>, b: seq<string>)
    requires a != [] && b != []
    ensures Join(a + b) == Join(a) + "\n" + Join(b)
  {
    if |a| == 1 {
      assert (a + b)[1..] == b;
    } else {
      JoinConcat(a[1..], b);
      assert (a + b)[1..] == a[1..] + b;
    }
  }

  // ---------------------------------------------------------------- find, count, replace

  /** `m` occurs in `s` at position `q`. */
  predicate At(s: string, m: string, q: int) {
    0 <= q && q + |m| <= |s| && s[q..q + |m|] == m
  }

  predicate Occurs(s: string, m: string) {
    exists q :: 0 <= q <= |s| && At(s, m, q)
  }

  /** `s.find(m, start)` */
  function Find(s: string, m: string, start: nat): (q: int)
    requires start <= |s|
    ensures q == -1 || (start <= q && At(s, m, q))
    ensures q == -1 ==> forall p :: start <= p ==> !At(s, m, p)
    ensures q != -1 ==> forall p :: start <= p < q ==> !At(s, m, p)
    decreases |s| - start
  {
    if At(s, m, start) then start
    else if start == |s| then -1
    else Find(s, m, start + 1)
  }

  /** `s.count(m)`: occurrences taken left to right without overlap. */
  function Count(s: string, m: string): nat
    requires m != ""
    decreases |s|
  {
    var q := Find(s, m, 0);
    if q < 0 then 0 else 1 + Count(s[q + |m|..], m)
  }

  /** `s.replace(m, r)` */
  function Replace(s: string, m: string, r: string): string
    requires m != ""
    decreases |s|
  {
    var q := Find(s, m, 0);
    if q < 0 then s else s[..q] + r + Replace(s[q + |m|..], m, r)
  }

  /** `s.replace(m, r, 1)` */
  function ReplaceFirst(s: string, m: string, r: string): string {
    var q := Find(s, m, 0);
    if q < 0 then s else s[..q] + r + s[q + |m|..]
  }

  lemma AtSuffix(s: string, m: string, k: nat, q: int)
    requires k <= |s| && 0 <= q
    ensures At(s[k..], m, q) <==> At(s, m, k + q)
  {
    if 0 <= q && k + q + |m| <= |s| {
      assert s[k..][q..q + |m|] == s[k + q..k + q + |m|];
    }
  }

  lemma OccursFind(s: string, m: string)
    ensures Occurs(s, m) <==> Find(s, m, 0) >= 0
  {
  }

  /** `m` occurs in `s` at or after position `k`. */
  predicate OccursFrom(s: string, m: string, k: nat) {
    exists q :: k <= q <= |s| && At(s, m, q)
  }

  lemma OccursFromSuffix(s: string, m: string, k: nat)
    requires k <= |s|
    ensures Find(s[k..], m, 0) >= 0 <==> OccursFrom(s, m, k)
  {
    var g := Find(s[k..], m, 0);
    if g >= 0 {
      AtSuffix(s, m, k, g);
    }
    forall q | k <= q <= |s| && At(s, m, q) ensures g >= 0 {
      AtSuffix(s, m, k, q - k);
    }
  }

  lemma CountUnfold(s: string, m: string)
    requires m != ""
    ensures Find(s, m, 0) < 0 ==> Count(s, m) == 0
    ensures Find(s, m, 0) >= 0 ==> Count(s, m) == 1 + Count(s[Find(s, m, 0) + |m|..], m)
  {
  }

  /** Exactly one non-overlapping occurrence: no occurrence starts after the end of the first one. */
  lemma CountOne(s: string, m: string)
    requires m != "" && Find(s, m, 0) >= 0
    ensures Count(s, m) >= 1
    ensures Count(s, m) == 1 <==> !OccursFrom(s, m, Find(s, m, 0) + |m|)
  {
    hide Count, Find, At, OccursFrom;
    var k := Find(s, m, 0) + |m|;
    FoundInside(s, m);
    CountUnfold(s, m);
    CountUnfold(s[k..], m);
    OccursFromSuffix(s, m, k);
  }

  lemma FoundInside(s: string, m: string)
    ensures Find(s, m, 0) + |m| <= |s| || Find(s, m, 0) < 0
  {
    hide Find;
  }

  // ---------------------------------------------------------------- replace and count, character by character

  lemma FindStep(s: string, m: string)
    requires m != "" && s != "" && !At(s, m, 0)
    ensures Find(s, m, 0) == (if Find(s[1..], m, 0) < 0 then -1 else Find(s[1..], m, 0) + 1)
  {
    var f, g := Find(s, m, 0), Find(s[1..], m, 0);
    if g >= 0 {
      AtSuffix(s, m, 1, g);
    }
    if f >= 0 {
      AtSuffix(s, m, 1, f - 1);
    }
  }

  lemma ReplaceUnfold(s: string, m: string, r: string)
    requires m != ""
    ensures var q := Find(s, m, 0);
            Replace(s, m, r) == if q < 0 then s else s[..q] + r + Replace(s[q + |m|..], m, r)
  {
    hide Find;
  }

  lemma ReplaceMiss(s: string, m: string, r: string)
    requires m != "" && s != "" && !At(s, m, 0)
    ensures Replace(s, m, r) == [s[0]] + Replace(s[1..], m, r)
  {
    hide Find, Replace, At;
    FindStep(s, m);
    ReplaceUnfold(s, m, r);
    ReplaceUnfold(s[1..], m, r);
    FoundInside(s[1..], m);
    var g := Find(s[1..], m, 0);
    if g >= 0 {
      var rest := Replace(s[1..][g + |m|..], m, r);
      assert s[g + 1 + |m|..] == s[1..][g + |m|..];
      assert s[..g + 1] == [s[0]] + s[1..][..g];
      assert [s[0]] + s[1..][..g] + r + rest == [s[0]] + (s[1..][..g] + r + rest);
    } else {
      assert s == [s[0]] + s[1..];
    }
  }

  lemma CountMiss(s: string, m: string)
    requires m != "" && s != "" && !At(s, m, 0)
    ensures Count(s, m) == Count(s[1..], m)
  {
    hide Find, Count;
    FindStep(s, m);
    CountUnfold(s, m);
    CountUnfold(s[1..], m);
    var g := Find(s[1..], m, 0);
    if g >= 0 {
      assert s[g + 1 + |m|..] == s[1..][g + |m|..];
    }
  }

  lemma ReplaceStep(s: string, m: string, r: string)
    requires m != "" && s != ""
    ensures At(s, m, 0) ==> Replace(s, m, r) == r + Replace(s[|m|..], m, r)
    ensures At(s, m, 0) ==> Count(s, m) == 1 + Count(s[|m|..], m)
    ensures !At(s, m, 0) ==> Replace(s, m, r) == [s[0]] + Replace(s[1..], m, r)
    ensures !At(s, m, 0) ==> Count(s, m) == Count(s[1..], m)
  {
    hide Count, Replace, At;
    if At(s, m, 0) {
      assert Find(s, m, 0) == 0;
      ReplaceUnfold(s, m, r);
      CountUnfold(s, m);
      assert s[..0] + r == r;
    } else {
      ReplaceMiss(s, m, r);
      CountMiss(s, m);
    }
  }

  lemma ReplaceEmpty(m: string, r: string)
    requires m != ""
    ensures Replace("", m, r) == "" && Count("", m) == 0
  {
  }

  // ---------------------------------------------------------------- decimal numerals

  predicate IsDigit(c: char) { '0' <= c <= '9' }

  function DigitValue(c: char): (d: nat)
    requires IsDigit(c)
    ensures d < 10
  {
    c as int - '0' as int
  }

  /** `str(n)` */
  function Decimal(n: nat): (s: string)
    ensures s != "" && forall i :: 0 <= i < |s| ==> IsDigit(s[i])
  {
    var last := ('0' as int + n % 10) as char;
    if n < 10 then [last] else Decimal(n / 10) + [last]
  }

  /** `int(s)` on a string of ASCII digits */
  function Numeral(s: string): nat
    requires forall i :: 0 <= i < |s| ==> IsDigit(s[i])
  {
    if s == "" then 0 else 10 * Numeral(s[..|s| - 1]) + DigitValue(s[|s| - 1])
  }

  lemma {:induction false} NumeralDecimal(n: nat)
    ensures Numeral(Decimal(n)) == n
  {
    if n >= 10 {
      NumeralDecimal(n / 10);
      assert Decimal(n)[..|Decimal(n)| - 1] == Decimal(n / 10);
    }
  }
}
