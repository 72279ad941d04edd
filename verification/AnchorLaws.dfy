// backend/editing/hashline.py: what anchors name, where edited lines come out, and what is refused.
module AnchorLaws {
  import opened Wrappers
  import opened Text
  import opened Hashline

  // ---------------------------------------------------------------- where the lines come out

  /** How many edits with this operation find a line before line `i`. */
  function Earlier(h: Hasher, lines: seq<string>, edits: seq<Edit>, op: string, i: nat): nat {
    if edits == [] then 0
    else
      var e := edits[|edits| - 1];
      var at := Resolve(h, lines, e.anchor);
      Earlier(h, lines, edits[..|edits| - 1], op, i) + if at.Success? && at.value < i && e.op == op then 1 else 0
  }

  /** Where line `i` starts in the output: one further for each earlier insertion, one less for each
      earlier deletion. */
  function StartOf(h: Hasher, lines: seq<string>, edits: seq<Edit>, i: nat): int {
    i + Earlier(h, lines, edits, "insert_after", i) - Earlier(h, lines, edits, "delete", i)
  }

  lemma {:induction false} HeadGrows(h: Hasher, lines: seq<string>, edits: seq<Edit>, i: nat)
    requires i <= |lines| && OpsOf(h, lines, edits).Success?
    ensures |Render(lines[..i], OpsOf(h, lines, edits).value, 0)| == StartOf(h, lines, edits, i)
  {
    hide Resolve, LineOut, Render;
    if edits == [] {
      RenderNothing(lines[..i], 0);
    } else {
      var e := edits[|edits| - 1];
      HeadGrows(h, lines, edits[..|edits| - 1], i);
      RenderGrows(lines[..i], OpsOf(h, lines, edits[..|edits| - 1]).value, 0, Resolve(h, lines, e.anchor).value, OpOf(e).value);
    }
  }

  /** What stands in the output at `p` for line `i`, when edit `e` finds it. */
  predicate Edited(out: seq<string>, p: int, line: string, e: Edit) {
    && (e.op == "replace" || e.op == "insert_after" || e.op == "delete")
    && (e.op == "replace" ==> 0 <= p < |out| && out[p] == e.text)
    && (e.op == "insert_after" ==> 0 <= p < |out| - 1 && out[p] == line && out[p + 1] == e.text)
  }

  /** Every line starts where the edits on earlier lines have moved it. A line that no edit finds stands
      there as it was; a replaced one gives way to the text, one with an insertion is followed by it, and
      a deleted one takes no room. */
  lemma OutputAt(h: Hasher, lines: seq<string>, edits: seq<Edit>, out: seq<string>)
    requires AppliedLines(h, lines, edits) == Success(out)
    ensures |out| == StartOf(h, lines, edits, |lines|)
    ensures forall i :: 0 <= i < |lines| && (forall k :: 0 <= k < |edits| ==> Resolve(h, lines, edits[k].anchor) != Success(i)) ==>
              0 <= StartOf(h, lines, edits, i) < |out| && out[StartOf(h, lines, edits, i)] == lines[i]
    ensures forall k :: 0 <= k < |edits| ==>
              var at := Resolve(h, lines, edits[k].anchor);
              at.Success? && at.value < |lines| && Edited(out, StartOf(h, lines, edits, at.value), lines[at.value], edits[k])
    ensures forall k, m :: 0 <= k < m < |edits| ==> Resolve(h, lines, edits[k].anchor) != Resolve(h, lines, edits[m].anchor)
  {
    hide Resolve, OpsOf, Render, StartOf, Edited, OpOf;
    OpsCharacterized(h, lines, edits);
    var ops := OpsOf(h, lines, edits).value;
    HeadGrows(h, lines, edits, |lines|);
    assert lines[..|lines|] == lines;
    forall i: nat | i < |lines| && forall k :: 0 <= k < |edits| ==> Resolve(h, lines, edits[k].anchor) != Success(i)
      ensures 0 <= StartOf(h, lines, edits, i) < |out| && out[StartOf(h, lines, edits, i)] == lines[i]
    {
      Untouched(h, lines, edits, ops, i);
      LineStands(h, lines, edits, ops, i);
    }
    forall k | 0 <= k < |edits|
      ensures var at := Resolve(h, lines, edits[k].anchor);
              at.Success? && at.value < |lines| && Edited(out, StartOf(h, lines, edits, at.value), lines[at.value], edits[k])
    {
      assert Placeable(h, lines, edits[k]);
      ResolveInRange(h, lines, edits[k].anchor);
      LineEdited(h, lines, edits, ops, k);
    }
    forall k, m | 0 <= k < m < |edits| ensures Resolve(h, lines, edits[k].anchor) != Resolve(h, lines, edits[m].anchor) {
      assert Target(h, lines, edits[k]) != Target(h, lines, edits[m]);
    }
  }

  lemma Untouched(h: Hasher, lines: seq<string>, edits: seq<Edit>, ops: Ops, i: nat)
    requires Compatible(h, lines, edits) && Tabulates(h, lines, edits, ops)
    requires forall k :: 0 <= k < |edits| ==> Resolve(h, lines, edits[k].anchor) != Success(i)
    ensures i !in ops
  {
    hide Resolve, OpOf;
    forall t | t in ops ensures t != i {
      var k :| 0 <= k < |edits| && Target(h, lines, edits[k]) == t;
      assert Placeable(h, lines, edits[k]);
    }
  }

  lemma LineStands(h: Hasher, lines: seq<string>, edits: seq<Edit>, ops: Ops, i: nat)
    requires OpsOf(h, lines, edits) == Success(ops) && i < |lines| && i !in ops
    ensures var out, p := Render(lines, ops, 0), StartOf(h, lines, edits, i); 0 <= p < |out| && out[p] == lines[i]
  {
    hide Resolve, OpsOf, Render, StartOf;
    HeadGrows(h, lines, edits, i);
    OutputByLine(lines, ops, i);
    var out, p := Render(lines, ops, 0), OutPos(lines, ops, i);
    assert out[p..p + 1] == [lines[i]];
    assert out[p] == out[p..p + 1][0];
  }

  lemma LineEdited(h: Hasher, lines: seq<string>, edits: seq<Edit>, ops: Ops, k: nat)
    requires OpsOf(h, lines, edits) == Success(ops) && k < |edits|
    requires Compatible(h, lines, edits) && Tabulates(h, lines, edits, ops) && Target(h, lines, edits[k]) < |lines|
    ensures var i := Target(h, lines, edits[k]);
            Edited(Render(lines, ops, 0), StartOf(h, lines, edits, i), lines[i], edits[k])
  {
    hide Resolve, OpsOf, Render, StartOf;
    var i, e := Target(h, lines, edits[k]), edits[k];
    assert Placeable(h, lines, e) && ops[i] == OpOf(e).value;
    HeadGrows(h, lines, edits, i);
    OutputByLine(lines, ops, i);
    var out, p := Render(lines, ops, 0), OutPos(lines, ops, i);
    var put := LineOut(ops, i, lines[i]);
    assert out[p..p + |put|] == put;
    if e.op == "insert_after" {
      assert put == [lines[i], e.text] && out[p] == out[p..p + 2][0] && out[p + 1] == out[p..p + 2][1];
    } else if e.op == "replace" {
      assert put == [e.text] && out[p] == out[p..p + 1][0];
    }
  }

  // ---------------------------------------------------------------- lines and text

  lemma SplitBehind(s: string)
    ensures Split(s + "\n") == Split(s) + [""]
  {
    hide Join;
    JoinSplit(s);
    JoinConcat(Split(s), [""]);
    JoinOne("");
    assert s + "\n" + "" == s + "\n";
    SplitJoin(Split(s) + [""]);
  }

  lemma JoinOne(s: string)
    ensures Join([s]) == s
  {
  }

  lemma {:induction false} LastSplit(s: string)
    requires s != "" && s[|s| - 1] != '\n'
    ensures Split(s)[|Split(s)| - 1] != ""
  {
    if |s| > 1 {
      LastSplit(s[1..]);
      assert s[1..][|s[1..]| - 1] == s[|s| - 1];
    } else {
      assert s[1..] == "";
    }
  }

  /** The lines that can be edited: none in an empty file, else those of the text without its final
      newline; the result has a final newline exactly when there was one, or no text at all, and
      something is left. */
  lemma AppliedToText(h: Hasher, content: string, edits: seq<Edit>)
    ensures var newline := content == "" || content[|content| - 1] == '\n';
            var lines := if content == "" then [] else Split(if newline then content[..|content| - 1] else content);
            match AppliedLines(h, lines, edits)
            case Failure(error) => Applied(h, content, edits) == Failure(error)
            case Success(out) =>
              Applied(h, content, edits) == Success(Join(out) + if newline && Join(out) != "" then "\n" else "")
  {
    hide SplitBody, Split, Join, AppliedLines;
    BodyOf(content);
    var r := AppliedLines(h, SplitBody(content).lines, edits);
    if r.Success? {
      assert Join(r.value) + "" == Join(r.value);
    }
  }

  lemma BodyOf(content: string)
    ensures var newline := content == "" || content[|content| - 1] == '\n';
            var lines := if content == "" then [] else Split(if newline then content[..|content| - 1] else content);
            SplitBody(content) == Body(lines, newline)
  {
    hide Split, SplitBody;
    if content == "" {
      EmptyBody();
    } else if content[|content| - 1] == '\n' {
      assert content == content[..|content| - 1] + "\n";
      BodyBehind(content[..|content| - 1]);
    } else {
      BodyWhole(content);
    }
  }

  lemma EmptyBody()
    ensures SplitBody("") == Body([], true)
  {
  }

  lemma BodyWhole(s: string)
    requires s != "" && s[|s| - 1] != '\n'
    ensures SplitBody(s) == Body(Split(s), false)
  {
    hide Split;
    LastSplit(s);
  }

  lemma BodyBehind(s: string)
    ensures SplitBody(s + "\n") == Body(Split(s), true)
  {
    hide Split;
    SplitBehind(s);
    assert (Split(s) + [""])[..|Split(s)|] == Split(s);
  }

  // ---------------------------------------------------------------- what anchors name

  /** The parts of an anchor: blanks, perhaps an L, digits, blanks, a hash sign, blanks, at least four
      hexadecimal digits, blanks. */
  predicate Parts(s: string, w: string, mark: string, digits: string, x: string, y: string, hex: string, z: string) {
    && s == w + (mark + (digits + (x + ("#" + (y + (hex + z))))))
    && Blank(w) && Blank(x) && Blank(y) && Blank(z)
    && (mark == "" || mark == "L")
    && (forall i :: 0 <= i < |digits| ==> '0' <= digits[i] <= '9')
    && |hex| >= 4
    && (forall i :: 0 <= i < |hex| ==> '0' <= hex[i] <= '9' || 'a' <= hex[i] <= 'f' || 'A' <= hex[i] <= 'F')
  }

  /** The hash in small letters and the number that the digits write. */
  predicate Names(a: Anchor, digits: string, hex: string)
    requires forall i :: 0 <= i < |digits| ==> IsDigit(digits[i])
  {
    && a.lineNo == (if digits == "" then None else Some(Numeral(digits)))
    && |a.hash| == |hex|
    && forall i :: 0 <= i < |hex| ==>
         if 'A' <= hex[i] <= 'F' then a.hash[i] as int - 'a' as int == hex[i] as int - 'A' as int else a.hash[i] == hex[i]
  }

  lemma LowerNames(hex: string)
    ensures forall i :: 0 <= i < |hex| ==>
              if 'A' <= hex[i] <= 'F' then Lower(hex)[i] as int - 'a' as int == hex[i] as int - 'A' as int
              else Lower(hex)[i] == hex[i]
  {
  }

  lemma {:induction false} HexCountIs(s: string, t: string)
    requires (forall i :: 0 <= i < |s| ==> IsHex(s[i])) && (t != "" ==> !IsHex(t[0]))
    ensures HexCount(s + t) == |s|
  {
    if s != "" {
      HexCountIs(s[1..], t);
      assert (s + t)[1..] == s[1..] + t;
    } else {
      assert s + t == t;
    }
  }

  lemma CharKinds(c: char)
    ensures IsSpace(c) ==> !IsHex(c) && !IsDigit(c) && c != '#' && c != 'L'
    ensures IsHex(c) || IsDigit(c) ==> !IsSpace(c) && c != '#' && c != 'L'
    ensures !IsSpace('#') && !IsSpace('L') && !IsDigit('#') && !IsDigit('L') && !IsHex('#')
  {
  }

  lemma HashPart(x: string, y: string, hex: string, z: string)
    requires Blank(x) && Blank(y) && Blank(z) && |hex| >= 4 && forall i :: 0 <= i < |hex| ==> IsHex(hex[i])
    ensures ParseHash(x + ("#" + (y + (hex + z)))) == Some(Lower(hex))
  {
    hide LStrip, IsSpace, IsHex, HexCount, Lower;
    var v := hex + z;
    CharKinds(hex[0]);
    LStripDrops(x, "#" + (y + v));
    LStripKeeps("#" + (y + v));
    assert ("#" + (y + v))[1..] == y + v;
    LStripDrops(y, v);
    LStripKeeps(v);
    if z != "" {
      CharKinds(z[0]);
    }
    HexCountIs(hex, z);
    assert v[|hex|..] == z && v[..|hex|] == hex;
  }

  lemma FirstBehind(x: string, rest: string)
    requires Blank(x)
    ensures var u := x + ("#" + rest); u != "" && !IsDigit(u[0]) && u[0] != 'L'
  {
    hide IsSpace;
    var u := x + ("#" + rest);
    CharKinds(u[0]);
    assert x == "" ==> u[0] == '#';
    assert x != "" ==> u[0] == x[0];
  }

  /** An anchor with these parts is read as it names. */
  lemma PartsParse(s: string, w: string, mark: string, digits: string, x: string, y: string, hex: string, z: string)
    requires Parts(s, w, mark, digits, x, y, hex, z)
    ensures ParseAnchor(s) == Some(Anchor(if digits == "" then None else Some(Numeral(digits)), Lower(hex)))
  {
    assert Blank("");
    hide LStrip, IsSpace, Blank, ParseHash, Lower, Numeral, DigitCount;
    var rest := y + (hex + z);
    var p := x + ("#" + rest);
    var u := digits + p;
    assert s == w + (mark + u);
    LStripDrops(w, mark + u);
    HashPart(x, y, hex, z);
    if mark == "" && digits == "" {
      assert mark + u == p;
      LStripDrops(x, "#" + rest);
      HashPart("", y, hex, z);
      Bare(s, rest);
    } else {
      FirstBehind(x, rest);
      MarkedParse(s, mark, digits, p);
    }
  }

  lemma Bare(s: string, rest: string)
    requires LStrip(s) == LStrip("#" + rest) && ParseHash("" + ("#" + rest)).Some?
    ensures ParseAnchor(s) == Some(Anchor(None, ParseHash("" + ("#" + rest)).value))
  {
    hide LStrip, IsSpace, ParseHash;
    var t := "#" + rest;
    CharKinds('#');
    LStripKeeps(t);
    assert "" + t == t && t[0..] == t;
  }

  lemma MarkedParse(s: string, mark: string, digits: string, p: string)
    requires LStrip(s) == LStrip(mark + (digits + p)) && (mark == "L" || (mark == "" && digits != ""))
    requires (forall i :: 0 <= i < |digits| ==> IsDigit(digits[i])) && p != "" && !IsDigit(p[0]) && ParseHash(p).Some?
    ensures ParseAnchor(s) == Some(Anchor(if digits == "" then None else Some(Numeral(digits)), ParseHash(p).value))
  {
    hide LStrip, IsSpace, ParseHash, Numeral, DigitCount, IsDigit;
    var u := digits + p;
    var t := mark + u;
    CharKinds(t[0]);
    assert mark == "" ==> t[0] == digits[0];
    CharKinds('L');
    LStripKeeps(t);
    DigitCountIs(digits, p);
    assert u[|digits|..] == p && u[..|digits|] == digits;
    assert mark == "L" ==> t[1..] == u;
    assert mark == "" ==> t == u;
  }

  lemma HashParts(s: string) returns (x: string, y: string, hex: string, z: string)
    requires ParseHash(s).Some?
    ensures s == x + ("#" + (y + (hex + z))) && Blank(x) && Blank(y) && Blank(z)
    ensures |hex| >= 4 && (forall i :: 0 <= i < |hex| ==> IsHex(hex[i])) && ParseHash(s).value == Lower(hex)
  {
    hide LStrip, IsSpace, Blank, IsHex, HexCount, Lower;
    var a := LStripPads(s);
    var t := LStrip(s);
    var b := LStripPads(t[1..]);
    var u := LStrip(t[1..]);
    var n := HexCount(u);
    x, y, hex, z := s[..a], t[1..][..b], u[..n], u[n..];
    assert u == hex + z && t[1..] == y + u && t == "#" + t[1..] && s == x + t;
  }

  /** Which texts are anchors, and what each of them names. */
  lemma ParseAnchorIff(s: string, a: Anchor)
    ensures ParseAnchor(s) == Some(a)
            <==> exists w, mark, digits, x, y, hex, z :: Parts(s, w, mark, digits, x, y, hex, z) && Names(a, digits, hex)
  {
    hide ParseAnchor, Numeral, Blank, Lower;
    if ParseAnchor(s) == Some(a) {
      var w, mark, digits, x, y, hex, z := AnchorParts(s);
      LowerNames(hex);
      assert Names(a, digits, hex);
    }
    forall w, mark, digits, x, y, hex, z | Parts(s, w, mark, digits, x, y, hex, z) && Names(a, digits, hex)
      ensures ParseAnchor(s) == Some(a)
    {
      PartsParse(s, w, mark, digits, x, y, hex, z);
      LowerNames(hex);
      assert a.hash == Lower(hex);
    }
  }

  lemma AnchorParts(s: string) returns (w: string, mark: string, digits: string, x: string, y: string, hex: string, z: string)
    requires ParseAnchor(s).Some?
    ensures Parts(s, w, mark, digits, x, y, hex, z)
    ensures forall i :: 0 <= i < |digits| ==> IsDigit(digits[i])
    ensures ParseAnchor(s) == Some(Anchor(if digits == "" then None else Some(Numeral(digits)), Lower(hex)))
  {
    hide IsSpace, Blank, ParseHash, Lower, Numeral, DigitCount, ParseAnchor;
    var u, p;
    w, mark, u := AnchorFront(s);
    digits, p := AnchorDigits(s, mark, u);
    x, y, hex, z := HashParts(p);
    assert u == digits + (x + ("#" + (y + (hex + z))));
  }

  lemma AnchorFront(s: string) returns (w: string, mark: string, u: string)
    ensures s == w + (mark + u) && Blank(w) && (mark == "" || mark == "L")
    ensures u == var t := LStrip(s); if t != "" && t[0] == 'L' then t[1..] else t
  {
    hide LStrip, IsSpace, Blank;
    var k := LStripPads(s);
    var t := LStrip(s);
    w, mark := s[..k], if t != "" && t[0] == 'L' then "L" else "";
    u := if t != "" && t[0] == 'L' then t[1..] else t;
    assert t == mark + u;
    assert s == w + t;
  }

  lemma AnchorDigits(s: string, mark: string, u: string) returns (digits: string, p: string)
    requires ParseAnchor(s).Some?
    requires u == var t := LStrip(s); if t != "" && t[0] == 'L' then t[1..] else t
    ensures u == digits + p && forall i :: 0 <= i < |digits| ==> IsDigit(digits[i])
    ensures ParseHash(p).Some?
    ensures ParseAnchor(s) == Some(Anchor(if digits == "" then None else Some(Numeral(digits)), ParseHash(p).value))
  {
    hide LStrip, ParseHash, Numeral, DigitCount;
    var n := DigitCount(u);
    digits, p := u[..n], u[n..];
  }

  // ---------------------------------------------------------------- what is found, and what is refused

  /** Every outcome of looking an anchor up, by the lines that have its hash. */
  lemma ResolveIff(h: Hasher, lines: seq<string>, anchor: string)
    ensures var r, a := Resolve(h, lines, anchor), ParseAnchor(anchor);
            && (r == Failure(BadAnchor) <==> a.None?)
            && (a.Some? ==>
                 && (r == Failure(Stale) <==> forall i :: 0 <= i < |lines| ==> h(lines[i]) != a.value.hash)
                 && (forall i: nat :: r == Success(i) <==>
                       && i < |lines| && h(lines[i]) == a.value.hash
                       && (OnlyAt(h, lines, a.value.hash, i) || a.value.lineNo == Some(i + 1)))
                 && (r.Success? || r == Failure(Stale) || r == Failure(Ambiguous)))
  {
    hide ParseAnchor, Indices, OnlyAt;
    if ParseAnchor(anchor).Some? {
      var key := ParseAnchor(anchor).value.hash;
      var idxs := Indices(h, lines, key, |lines|);
      IndicesExact(h, lines, key, |lines|);
      forall i: nat ensures OnlyAt(h, lines, key, i) <==> idxs == [i] {
        OnlyIndex(h, lines, key, i);
      }
      if idxs != [] {
        assert idxs[0] in idxs && h(lines[idxs[0]]) == key;
        assert |idxs| == 1 ==> idxs == [idxs[0]];
      }
      assert forall j :: 0 <= j < |lines| && h(lines[j]) == key ==> j in idxs;
    }
  }

  /** Edit `k` is the first that cannot be placed, and this is why. */
  predicate RefusedAt(h: Hasher, lines: seq<string>, edits: seq<Edit>, k: nat, error: HashlineError) {
    && k < |edits| && Compatible(h, lines, edits[..k])
    && match Resolve(h, lines, edits[k].anchor)
       case Failure(e) => error == e
       case Success(i) =>
         if exists m :: 0 <= m < k && Resolve(h, lines, edits[m].anchor) == Success(i) then error == Conflict
         else error == UnknownOp && edits[k].op !in {"replace", "delete", "insert_after"}
  }

  lemma RefusedIs(h: Hasher, lines: seq<string>, edits: seq<Edit>, k: nat, error: HashlineError)
    requires RefusedAt(h, lines, edits, k, error)
    ensures OpsOf(h, lines, edits) == Failure(error)
  {
    hide Resolve, OpsOf, AddOp, OpOf;
    var before, e := edits[..k], edits[k];
    OpsCharacterized(h, lines, before);
    var ops := OpsOf(h, lines, before).value;
    TableHas(h, lines, before, ops, e);
    forall m | 0 <= m < k ensures before[m] == edits[m] {
    }
    AddFails(h, lines, ops, e);
    OneMore(h, lines, edits, k);
    OpsFailEarly(h, lines, edits, k + 1);
  }

  lemma TableHas(h: Hasher, lines: seq<string>, before: seq<Edit>, ops: Ops, e: Edit)
    requires Compatible(h, lines, before) && Tabulates(h, lines, before, ops)
    ensures var at := Resolve(h, lines, e.anchor);
            at.Success? ==> (at.value in ops <==> exists m :: 0 <= m < |before| && Resolve(h, lines, before[m].anchor) == at)
  {
    hide Resolve, OpOf;
    var at := Resolve(h, lines, e.anchor);
    if at.Success? {
      forall m | 0 <= m < |before| && Resolve(h, lines, before[m].anchor) == at ensures at.value in ops {
        assert Placeable(h, lines, before[m]) && Target(h, lines, before[m]) == at.value;
      }
      if at.value in ops {
        var m :| 0 <= m < |before| && Target(h, lines, before[m]) == at.value;
        assert Placeable(h, lines, before[m]);
      }
    }
  }

  lemma AddFails(h: Hasher, lines: seq<string>, ops: Ops, e: Edit)
    ensures var at, r := Resolve(h, lines, e.anchor), AddOp(h, lines, ops, e);
            && (at.Failure? ==> r == Failure(at.error))
            && (at.Success? && at.value in ops ==> r == Failure(Conflict))
            && (at.Success? && at.value !in ops && e.op !in {"replace", "delete", "insert_after"} ==> r == Failure(UnknownOp))
            && (r.Failure? ==> at.Failure? || at.value in ops || e.op !in {"replace", "delete", "insert_after"})
  {
    hide Resolve;
  }

  lemma OneMore(h: Hasher, lines: seq<string>, edits: seq<Edit>, k: nat)
    requires k < |edits| && OpsOf(h, lines, edits[..k]).Success?
    ensures OpsOf(h, lines, edits[..k + 1]) == AddOp(h, lines, OpsOf(h, lines, edits[..k]).value, edits[k])
  {
    hide AddOp;
    assert edits[..k + 1][..k] == edits[..k];
  }

  lemma {:induction false} FirstRefused(h: Hasher, lines: seq<string>, edits: seq<Edit>, n: nat) returns (k: nat)
    requires n <= |edits| && OpsOf(h, lines, edits[..n]).Failure?
    ensures k < n && OpsOf(h, lines, edits[..k]).Success? && OpsOf(h, lines, edits[..k + 1]).Failure?
  {
    hide AddOp;
    if OpsOf(h, lines, edits[..n - 1]).Failure? {
      k := FirstRefused(h, lines, edits, n - 1);
    } else {
      k := n - 1;
    }
  }

  /** Edits are refused exactly when there are none or one of them cannot be placed; the first such edit
      gives the reason: what is wrong with its anchor, else a line taken already, else its operation. */
  lemma RefusedIff(h: Hasher, lines: seq<string>, edits: seq<Edit>, error: HashlineError)
    ensures AppliedLines(h, lines, edits) == Failure(error)
            <==> if edits == [] then error == NoEdits else exists k :: RefusedAt(h, lines, edits, k, error)
  {
    hide Resolve, OpsOf, AddOp, Render, OpOf;
    if edits != [] {
      forall k, e | RefusedAt(h, lines, edits, k, e) ensures OpsOf(h, lines, edits) == Failure(e) {
        RefusedIs(h, lines, edits, k, e);
      }
      if OpsOf(h, lines, edits).Failure? {
        assert edits[..|edits|] == edits;
        var k := FirstRefused(h, lines, edits, |edits|);
        var before, e := edits[..k], edits[k];
        OpsCharacterized(h, lines, before);
        OneMore(h, lines, edits, k);
        OpsFailEarly(h, lines, edits, k + 1);
        TableHas(h, lines, before, OpsOf(h, lines, before).value, e);
        forall m | 0 <= m < k ensures before[m] == edits[m] {
        }
        AddFails(h, lines, OpsOf(h, lines, before).value, e);
        assert RefusedAt(h, lines, edits, k, OpsOf(h, lines, edits).error);
      }
    }
  }
}
