// backend/editing/hashline.py: edits addressed by content-hash anchors.
module Hashline {
  import opened Wrappers
  import opened Text

  datatype HashlineError = NoEdits | BadAnchor | Stale | Ambiguous | Conflict | UnknownOp

  predicate IsLowerHex(c: char) { '0' <= c <= '9' || 'a' <= c <= 'f' }

  predicate IsHex(c: char) { IsLowerHex(c) || 'A' <= c <= 'F' }

  predicate ShortHash(s: string) {
    |s| == 7 && forall i :: 0 <= i < |s| ==> IsLowerHex(s[i])
  }

  /** `line_hash`; nothing is assumed about collisions. */
  type Hasher = string -> string

  /** It yields seven lower-case hexadecimal digits. */
  ghost predicate YieldsShortHashes(h: Hasher) {
    forall line :: ShortHash(h(line))
  }

  // ---------------------------------------------------------------- lines and the annotated view

  datatype Body = Body(lines: seq<string>, trailingNewline: bool)

  function SplitBody(content: string): Body {
    var lines := Split(content);
    if lines[|lines| - 1] == "" then Body(lines[..|lines| - 1], true) else Body(lines, false)
  }

  function AnchorOf(h: Hasher, lines: seq<string>, i: nat): string
    requires i < |lines|
  {
    "L" + Decimal(i + 1) + "#" + h(lines[i])
  }

  function AnnotatedLine(h: Hasher, lines: seq<string>, i: nat): string
    requires i < |lines|
  {
    AnchorOf(h, lines, i) + "\U{2502} " + lines[i]
  }

  function Annotate(h: Hasher, content: string): string {
    var lines := SplitBody(content).lines;
    Join(seq(|lines|, i requires 0 <= i < |lines| => AnnotatedLine(h, lines, i)))
  }

  // ---------------------------------------------------------------- anchors

  function DigitCount(s: string): (n: nat)
    ensures n <= |s| && (forall i :: 0 <= i < n ==> IsDigit(s[i])) && (n < |s| ==> !IsDigit(s[n]))
  {
    if s != "" && IsDigit(s[0]) then 1 + DigitCount(s[1..]) else 0
  }

  function HexCount(s: string): (n: nat)
    ensures n <= |s| && (forall i :: 0 <= i < n ==> IsHex(s[i])) && (n < |s| ==> !IsHex(s[n]))
  {
    if s != "" && IsHex(s[0]) then 1 + HexCount(s[1..]) else 0
  }

  function Lower(s: string): (r: string)
    ensures |r| == |s|
  {
    seq(|s|, i requires 0 <= i < |s| => if 'A' <= s[i] <= 'F' then (s[i] as int + 32) as char else s[i])
  }

  datatype Anchor = Anchor(lineNo: Option<nat>, hash: string)

  /** The part of an anchor behind the optional line number: `\s*#\s*([0-9a-fA-F]{4,})\s*$`. */
  function ParseHash(s: string): Option<string> {
    var t := LStrip(s);
    if t == "" || t[0] != '#' then None
    else
      var u := LStrip(t[1..]);
      var n := HexCount(u);
      if n >= 4 && Blank(u[n..]) then Some(Lower(u[..n])) else None
  }

  /** `parse_anchor`: `^\s*L?(\d+)?` and then the hash part. */
  function ParseAnchor(s: string): Option<Anchor> {
    var t := LStrip(s);
    var u := if t != "" && t[0] == 'L' then t[1..] else t;
    var n := DigitCount(u);
    match ParseHash(u[n..])
    case None => None
    case Some(hash) => Some(Anchor(if n == 0 then None else Some(Numeral(u[..n])), hash))
  }

  /** `hmap[key]` once the first `n` lines are entered: their indices, ascending. */
  function Indices(h: Hasher, lines: seq<string>, key: string, n: nat): seq<nat>
    requires n <= |lines|
  {
    if n == 0 then []
    else if h(lines[n - 1]) == key then Indices(h, lines, key, n - 1) + [n - 1]
    else Indices(h, lines, key, n - 1)
  }

  lemma {:induction false} IndicesExact(h: Hasher, lines: seq<string>, key: string, n: nat)
    requires n <= |lines|
    ensures forall i :: i in Indices(h, lines, key, n) <==> 0 <= i < n && h(lines[i]) == key
    ensures forall i, j :: 0 <= i < j < |Indices(h, lines, key, n)| ==>
              Indices(h, lines, key, n)[i] < Indices(h, lines, key, n)[j]
  {
    if n > 0 {
      IndicesExact(h, lines, key, n - 1);
      var r := Indices(h, lines, key, n - 1);
      forall i | 0 <= i < |r| ensures r[i] < n - 1 {
        assert r[i] in r;
      }
    }
  }

  function Resolve(h: Hasher, lines: seq<string>, anchor: string): Result<nat, HashlineError> {
    match ParseAnchor(anchor)
    case None => Failure(BadAnchor)
    case Some(a) =>
      var idxs := Indices(h, lines, a.hash, |lines|);
      if idxs == [] then Failure(Stale)
      else if |idxs| > 1 then
        if a.lineNo.Some? && a.lineNo.value >= 1 && a.lineNo.value - 1 in idxs then Success(a.lineNo.value - 1)
        else Failure(Ambiguous)
      else Success(idxs[0])
  }

  // ---------------------------------------------------------------- edits

  datatype Edit = Edit(anchor: string, op: string, text: string)

  datatype Op = Replace(text: string) | Delete | InsertAfter(text: string)

  function OpOf(e: Edit): Option<Op> {
    if e.op == "replace" then Some(Replace(e.text))
    else if e.op == "delete" then Some(Delete)
    else if e.op == "insert_after" then Some(InsertAfter(e.text))
    else None
  }

  type Ops = map<nat, Op>

  function AddOp(h: Hasher, lines: seq<string>, ops: Ops, e: Edit): Result<Ops, HashlineError> {
    match Resolve(h, lines, e.anchor)
    case Failure(error) => Failure(error)
    case Success(idx) =>
      if idx in ops then Failure(Conflict)
      else if OpOf(e).None? then Failure(UnknownOp)
      else Success(ops[idx := OpOf(e).value])
  }

  /** The table of operations after all edits have been placed on the original lines, in order. */
  function OpsOf(h: Hasher, lines: seq<string>, edits: seq<Edit>): Result<Ops, HashlineError> {
    if edits == [] then Success(map[])
    else
      match OpsOf(h, lines, edits[..|edits| - 1])
      case Failure(error) => Failure(error)
      case Success(ops) => AddOp(h, lines, ops, edits[|edits| - 1])
  }

  function Get(ops: Ops, idx: nat): Option<Op> {
    if idx in ops then Some(ops[idx]) else None
  }

  function Emit(op: Option<Op>, line: string): seq<string> {
    match op
    case None => [line]
    case Some(Replace(text)) => [text]
    case Some(Delete) => []
    case Some(InsertAfter(text)) => [line, text]
  }

  function LineOut(ops: Ops, idx: nat, line: string): seq<string> {
    Emit(Get(ops, idx), line)
  }

  /** The output lines for `lines`, the first of which has index `from`. */
  function Render(lines: seq<string>, ops: Ops, from: nat): seq<string> {
    if lines == [] then [] else LineOut(ops, from, lines[0]) + Render(lines[1..], ops, from + 1)
  }

  function AppliedLines(h: Hasher, lines: seq<string>, edits: seq<Edit>): Result<seq<string>, HashlineError> {
    if edits == [] then Failure(NoEdits)
    else
      match OpsOf(h, lines, edits)
      case Failure(error) => Failure(error)
      case Success(ops) => Success(Render(lines, ops, 0))
  }

  function Applied(h: Hasher, content: string, edits: seq<Edit>): Result<string, HashlineError> {
    var body := SplitBody(content);
    match AppliedLines(h, body.lines, edits)
    case Failure(error) => Failure(error)
    case Success(out) =>
      var result := Join(out);
      Success(if body.trailingNewline && result != "" then result + "\n" else result)
  }

  /** What `hmap.get(key, [])` answers. */
  function Lookup(hmap: map<string, seq<nat>>, key: string): seq<nat> {
    if key in hmap then hmap[key] else []
  }

  ghost predicate IndexesFirst(h: Hasher, lines: seq<string>, hmap: map<string, seq<nat>>, n: nat) {
    n <= |lines| && forall key :: Lookup(hmap, key) == Indices(h, lines, key, n)
  }

  method BuildIndex(h: Hasher, lines: seq<string>) returns (hmap: map<string, seq<nat>>)
    ensures IndexesFirst(h, lines, hmap, |lines|)
  {
    hmap := map[];
    for idx := 0 to |lines|
      invariant IndexesFirst(h, lines, hmap, idx)
    {
      var key := h(lines[idx]);
      ghost var before := hmap;
      hmap := hmap[key := Lookup(hmap, key) + [idx]];
      forall other ensures Lookup(hmap, other) == Indices(h, lines, other, idx + 1) {
        assert Lookup(before, other) == Indices(h, lines, other, idx);
      }
    }
  }

  method ApplyAnchoredEdits(h: Hasher, content: string, edits: seq<Edit>) returns (r: Result<string, HashlineError>)
    ensures r == Applied(h, content, edits)
  {
    hide Split, Join, ParseAnchor, Indices, OpOf, Render, LineOut;
    if edits == [] {
      return Failure(NoEdits);
    }
    var body := SplitBody(content);
    var placed := PlaceEdits(h, body.lines, edits);
    if placed.Failure? {
      return Failure(placed.error);
    }
    var out := RenderLines(body.lines, placed.value);
    var result := Join(out);
    if body.trailingNewline && result != "" {
      result := result + "\n";
    }
    r := Success(result);
  }

  lemma {:induction false} OpsFailEarly(h: Hasher, lines: seq<string>, edits: seq<Edit>, k: nat)
    requires k <= |edits| && OpsOf(h, lines, edits[..k]).Failure?
    ensures OpsOf(h, lines, edits) == OpsOf(h, lines, edits[..k])
    decreases |edits| - k
  {
    hide AddOp;
    if k == |edits| {
      assert edits[..k] == edits;
    } else {
      assert edits[..k + 1][..k] == edits[..k];
      OpsFailEarly(h, lines, edits, k + 1);
    }
  }

  method PlaceEdits(h: Hasher, lines: seq<string>, edits: seq<Edit>) returns (r: Result<Ops, HashlineError>)
    ensures r == OpsOf(h, lines, edits)
  {
    hide ParseAnchor, Indices, OpOf, IndexesFirst, AddOp;
    var hmap := BuildIndex(h, lines);
    var ops: Ops := map[];
    for k := 0 to |edits|
      invariant OpsOf(h, lines, edits[..k]) == Success(ops)
    {
      var e := edits[k];
      assert edits[..k + 1][..k] == edits[..k];
      var step := PlaceEdit(h, lines, hmap, ops, e);
      if step.Failure? {
        OpsFailEarly(h, lines, edits, k + 1);
        return step;
      }
      ops := step.value;
    }
    assert edits[..|edits|] == edits;
    r := Success(ops);
  }

  method PlaceEdit(h: Hasher, lines: seq<string>, hmap: map<string, seq<nat>>, ops: Ops, e: Edit) returns (r: Result<Ops, HashlineError>)
    requires IndexesFirst(h, lines, hmap, |lines|)
    ensures r == AddOp(h, lines, ops, e)
  {
    hide ParseAnchor, Indices, OpOf, Lookup;
    var parsed := ParseAnchor(e.anchor);
    if parsed.None? {
      return Failure(BadAnchor);
    }
    var a := parsed.value;
    var idxs := Lookup(hmap, a.hash);
    if idxs == [] {
      return Failure(Stale);
    }
    var idx := idxs[0];
    if |idxs| > 1 {
      if a.lineNo.Some? && a.lineNo.value >= 1 && a.lineNo.value - 1 in idxs {
        idx := a.lineNo.value - 1;
      } else {
        return Failure(Ambiguous);
      }
    }
    if idx in ops {
      return Failure(Conflict);
    }
    if OpOf(e).None? {
      return Failure(UnknownOp);
    }
    r := Success(ops[idx := OpOf(e).value]);
  }

  lemma RenderStep(lines: seq<string>, ops: Ops, i: nat)
    requires i < |lines|
    ensures Render(lines[i..], ops, i) == LineOut(ops, i, lines[i]) + Render(lines[i + 1..], ops, i + 1)
  {
    hide LineOut;
    assert lines[i..][1..] == lines[i + 1..];
  }

  method RenderLines(lines: seq<string>, ops: Ops) returns (out: seq<string>)
    ensures out == Render(lines, ops, 0)
  {
    assert lines[0..] == lines && Render(lines[|lines|..], ops, |lines|) == [];
    hide Render, LineOut;
    out := [];
    for idx := 0 to |lines|
      invariant out + Render(lines[idx..], ops, idx) == Render(lines[0..], ops, 0)
    {
      RenderStep(lines, ops, idx);
      var produced := OutputOf(ops, idx, lines[idx]);
      out := out + produced;
    }
  }

  method OutputOf(ops: Ops, idx: nat, line: string) returns (produced: seq<string>)
    ensures produced == LineOut(ops, idx, line)
  {
    if idx !in ops {
      return [line];
    }
    match ops[idx] {
      case Replace(text) => produced := [text];
      case Delete => produced := [];
      case InsertAfter(text) => produced := [line, text];
    }
  }

  // ---------------------------------------------------------------- printed anchors resolve

  lemma {:induction false} DigitCountIs(s: string, t: string)
    requires (forall i :: 0 <= i < |s| ==> IsDigit(s[i])) && (t != "" ==> !IsDigit(t[0]))
    ensures DigitCount(s + t) == |s|
  {
    if s != "" {
      DigitCountIs(s[1..], t);
      assert (s + t)[1..] == s[1..] + t;
    } else {
      assert s + t == t;
    }
  }

  lemma HexCountAll(s: string)
    requires forall i :: 0 <= i < |s| ==> IsHex(s[i])
    ensures HexCount(s) == |s|
  {
  }

  lemma ParsePrinted(n: nat, hash: string)
    requires ShortHash(hash)
    ensures ParseAnchor("L" + Decimal(n) + "#" + hash) == Some(Anchor(Some(n), hash))
  {
    hide Numeral, Decimal, HexCount;
    var s := "L" + Decimal(n) + "#" + hash;
    var u := Decimal(n) + ("#" + hash);
    assert LStrip(s) == s && s[1..] == u;
    DigitCountIs(Decimal(n), "#" + hash);
    assert u[|Decimal(n)|..] == "#" + hash && u[..|Decimal(n)|] == Decimal(n);
    NumeralDecimal(n);
    assert LStrip("#" + hash) == "#" + hash && ("#" + hash)[1..] == hash;
    HashHasNoSpace(hash);
    HexCountAll(hash);
    assert hash[7..] == "" && Lower(hash[..7]) == hash;
  }

  lemma HashHasNoSpace(hash: string)
    requires ShortHash(hash)
    ensures LStrip(hash) == hash && forall i :: 0 <= i < |hash| ==> IsHex(hash[i])
  {
    assert IsLowerHex(hash[0]);
  }

  /** The anchor printed for a line parses back and resolves to that line, whatever hashes collide. */
  lemma PrintedAnchorResolves(h: Hasher, lines: seq<string>, i: nat)
    requires i < |lines| && YieldsShortHashes(h)
    ensures ParseAnchor(AnchorOf(h, lines, i)) == Some(Anchor(Some(i + 1), h(lines[i])))
    ensures Resolve(h, lines, AnchorOf(h, lines, i)) == Success(i)
  {
    hide ParseAnchor, Indices, ShortHash;
    ParsePrinted(i + 1, h(lines[i]));
    var idxs := Indices(h, lines, h(lines[i]), |lines|);
    IndicesExact(h, lines, h(lines[i]), |lines|);
    assert i in idxs;
  }

  lemma AnnotatedLineFree(h: Hasher, lines: seq<string>, i: nat)
    requires i < |lines| && YieldsShortHashes(h) && NewlineFree(lines[i])
    ensures NewlineFree(AnnotatedLine(h, lines, i))
  {
    hide Decimal;
    var hash, num := h(lines[i]), Decimal(i + 1);
    assert ShortHash(hash);
    forall k | 0 <= k < |hash| ensures hash[k] != '\n' {
      assert IsLowerHex(hash[k]);
    }
    forall k | 0 <= k < |num| ensures num[k] != '\n' {
      assert IsDigit(num[k]);
    }
    assert '\n' !in num && '\n' !in hash;
  }

  /** Every body line is one line of the view: its anchor, a bar and the line. */
  lemma AnnotateLines(h: Hasher, content: string)
    requires YieldsShortHashes(h) && SplitBody(content).lines != []
    ensures var lines := SplitBody(content).lines;
            && |Split(Annotate(h, content))| == |lines|
            && forall i :: 0 <= i < |lines| ==>
                 Split(Annotate(h, content))[i] == "L" + Decimal(i + 1) + "#" + h(lines[i]) + "\U{2502} " + lines[i]
  {
    hide Join, Split, YieldsShortHashes, Decimal;
    var lines := SplitBody(content).lines;
    var view := seq(|lines|, i requires 0 <= i < |lines| => AnnotatedLine(h, lines, i));
    forall i | 0 <= i < |view| ensures NewlineFree(view[i]) {
      assert Split(content)[i] == lines[i];
      AnnotatedLineFree(h, lines, i);
    }
    SplitJoin(view);
  }

  // ---------------------------------------------------------------- drift

  /** Line `i` is the only one whose hash is `key`. */
  predicate OnlyAt(h: Hasher, lines: seq<string>, key: string, i: nat) {
    i < |lines| && h(lines[i]) == key && forall j :: 0 <= j < |lines| && j != i ==> h(lines[j]) != key
  }

  lemma OnlyIndex(h: Hasher, lines: seq<string>, key: string, i: nat)
    ensures OnlyAt(h, lines, key, i) <==> Indices(h, lines, key, |lines|) == [i]
  {
    hide Indices;
    var idxs := Indices(h, lines, key, |lines|);
    IndicesExact(h, lines, key, |lines|);
    if OnlyAt(h, lines, key, i) {
      assert i in idxs;
      assert idxs[0] in idxs && idxs[|idxs| - 1] in idxs;
    } else if idxs == [i] {
      assert i in idxs;
      forall j | 0 <= j < |lines| && j != i ensures h(lines[j]) != key {
        assert j !in idxs;
      }
    }
  }

  function Shift(k: nat, n: nat, i: nat): nat { if i < k then i else i + n }

  function Inserted<T>(lines: seq<T>, k: nat, extra: seq<T>): seq<T>
    requires k <= |lines|
  {
    lines[..k] + extra + lines[k..]
  }

  predicate NoneHashesTo(h: Hasher, extra: seq<string>, key: string) {
    forall i :: 0 <= i < |extra| ==> h(extra[i]) != key
  }

  lemma OnlyAtAfterInsert(h: Hasher, lines: seq<string>, key: string, i: nat, k: nat, extra: seq<string>)
    requires k <= |lines| && OnlyAt(h, lines, key, i) && NoneHashesTo(h, extra, key)
    ensures OnlyAt(h, Inserted(lines, k, extra), key, Shift(k, |extra|, i))
  {
    var wide := Inserted(lines, k, extra);
    var i' := Shift(k, |extra|, i);
    assert wide[i'] == lines[i];
    forall j | 0 <= j < |wide| && j != i' ensures h(wide[j]) != key {
      if j < k {
        assert wide[j] == lines[j];
      } else if j < k + |extra| {
        assert wide[j] == extra[j - k];
      } else {
        assert wide[j] == lines[j - |extra|];
      }
    }
  }

  /** An anchor whose hash is unique follows its line through insertions of other lines anywhere. */
  lemma UniqueAnchorSurvives(h: Hasher, lines: seq<string>, anchor: string, i: nat, k: nat, extra: seq<string>)
    requires k <= |lines| && ParseAnchor(anchor).Some?
    requires OnlyAt(h, lines, ParseAnchor(anchor).value.hash, i)
    requires NoneHashesTo(h, extra, ParseAnchor(anchor).value.hash)
    ensures Resolve(h, lines, anchor) == Success(i)
    ensures Resolve(h, Inserted(lines, k, extra), anchor) == Success(Shift(k, |extra|, i))
  {
    hide ParseAnchor, Indices, Inserted;
    var key := ParseAnchor(anchor).value.hash;
    OnlyAtAfterInsert(h, lines, key, i, k, extra);
    OnlyIndex(h, lines, key, i);
    OnlyIndex(h, Inserted(lines, k, extra), key, Shift(k, |extra|, i));
  }

  /** What a printed anchor finds in any later text: a line with its hash, if that is the only one with
      this hash or still has the number that was printed, and nothing else. It is stale exactly when no
      line has the hash. */
  lemma PrintedAnchorDrifts(h: Hasher, lines: seq<string>, i: nat, now: seq<string>)
    requires i < |lines| && YieldsShortHashes(h)
    ensures forall j: nat :: Resolve(h, now, AnchorOf(h, lines, i)) == Success(j)
              <==> j < |now| && h(now[j]) == h(lines[i]) && (OnlyAt(h, now, h(lines[i]), j) || j == i)
    ensures Resolve(h, now, AnchorOf(h, lines, i)) == Failure(Stale)
            <==> forall j :: 0 <= j < |now| ==> h(now[j]) != h(lines[i])
  {
    hide ParseAnchor, Indices, ShortHash, OnlyAt, AnchorOf;
    var key := h(lines[i]);
    PrintedAnchorResolves(h, lines, i);
    var idxs := Indices(h, now, key, |now|);
    IndicesExact(h, now, key, |now|);
    forall j: nat ensures OnlyAt(h, now, key, j) <==> idxs == [j] {
      OnlyIndex(h, now, key, j);
    }
    if idxs != [] {
      assert idxs[0] in idxs && h(now[idxs[0]]) == key;
      assert |idxs| == 1 ==> idxs == [idxs[0]];
    }
    assert forall j :: 0 <= j < |now| && h(now[j]) == key ==> j in idxs;
  }

  // ---------------------------------------------------------------- order independence

  predicate Placeable(h: Hasher, lines: seq<string>, e: Edit) {
    Resolve(h, lines, e.anchor).Success? && OpOf(e).Some?
  }

  function Target(h: Hasher, lines: seq<string>, e: Edit): nat
    requires Placeable(h, lines, e)
  {
    Resolve(h, lines, e.anchor).value
  }

  /** Every edit finds a line and has a known operation, and no two edits find the same line. */
  predicate Compatible(h: Hasher, lines: seq<string>, edits: seq<Edit>) {
    && (forall i :: 0 <= i < |edits| ==> Placeable(h, lines, edits[i]))
    && (forall i, j :: 0 <= i < j < |edits| ==> Target(h, lines, edits[i]) != Target(h, lines, edits[j]))
  }

  /** `ops` says for each target what its edit says, and nothing about other lines. */
  predicate Tabulates(h: Hasher, lines: seq<string>, edits: seq<Edit>, ops: Ops)
    requires Compatible(h, lines, edits)
  {
    && (forall i :: 0 <= i < |edits| ==>
          Target(h, lines, edits[i]) in ops && ops[Target(h, lines, edits[i])] == OpOf(edits[i]).value)
    && (forall t :: t in ops ==> exists i :: 0 <= i < |edits| && Target(h, lines, edits[i]) == t)
  }

  /** Adding one edit to a table of the earlier ones. */
  lemma AddOpExact(h: Hasher, lines: seq<string>, rest: seq<Edit>, ops: Ops, e: Edit)
    requires Compatible(h, lines, rest) && Tabulates(h, lines, rest, ops)
    ensures AddOp(h, lines, ops, e).Success? <==> Placeable(h, lines, e) && Target(h, lines, e) !in ops
    ensures AddOp(h, lines, ops, e).Success? <==> Compatible(h, lines, rest + [e])
    ensures AddOp(h, lines, ops, e).Success? ==> Tabulates(h, lines, rest + [e], AddOp(h, lines, ops, e).value)
  {
    hide Resolve, OpOf;
    var edits, n := rest + [e], |rest|;
    assert edits[n] == e && forall i :: 0 <= i < n ==> edits[i] == rest[i];
    if AddOp(h, lines, ops, e).Success? {
      TableGrows(h, lines, rest, ops, e);
    }
    if Compatible(h, lines, edits) {
      assert Placeable(h, lines, edits[n]);
      forall i | 0 <= i < n ensures Target(h, lines, rest[i]) != Target(h, lines, e) {
        assert Target(h, lines, edits[i]) != Target(h, lines, edits[n]);
      }
      assert Target(h, lines, e) !in ops;
    }
  }

  lemma TableGrows(h: Hasher, lines: seq<string>, rest: seq<Edit>, ops: Ops, e: Edit)
    requires Compatible(h, lines, rest) && Tabulates(h, lines, rest, ops)
    requires Placeable(h, lines, e) && Target(h, lines, e) !in ops
    ensures Compatible(h, lines, rest + [e])
    ensures Tabulates(h, lines, rest + [e], ops[Target(h, lines, e) := OpOf(e).value])
  {
    hide Resolve, OpOf, Target;
    var edits, n, t := rest + [e], |rest|, Target(h, lines, e);
    var added := ops[t := OpOf(e).value];
    assert edits[n] == e && forall i :: 0 <= i < n ==> edits[i] == rest[i];
    assert forall i :: 0 <= i < n ==> Target(h, lines, rest[i]) in ops;
    assert Compatible(h, lines, edits);
    forall u | u in added ensures exists i :: 0 <= i < |edits| && Target(h, lines, edits[i]) == u {
      if u == t {
        assert Target(h, lines, edits[n]) == u;
      } else {
        var i :| 0 <= i < n && Target(h, lines, rest[i]) == u;
        assert Target(h, lines, edits[i]) == u;
      }
    }
  }

  /** The table is built exactly when the edits are compatible, and then says what they say. */
  lemma {:induction false} OpsCharacterized(h: Hasher, lines: seq<string>, edits: seq<Edit>)
    ensures OpsOf(h, lines, edits).Success? <==> Compatible(h, lines, edits)
    ensures OpsOf(h, lines, edits).Success? ==> Tabulates(h, lines, edits, OpsOf(h, lines, edits).value)
  {
    hide Resolve, OpOf, Placeable, Target, AddOp;
    if edits != [] {
      var n := |edits| - 1;
      OpsCharacterized(h, lines, edits[..n]);
      assert edits == edits[..n] + [edits[n]];
      if OpsOf(h, lines, edits[..n]).Success? {
        AddOpExact(h, lines, edits[..n], OpsOf(h, lines, edits[..n]).value, edits[n]);
      } else {
        CompatiblePrefix(h, lines, edits, n);
      }
    }
  }

  lemma CompatiblePrefix(h: Hasher, lines: seq<string>, edits: seq<Edit>, n: nat)
    requires n <= |edits|
    ensures Compatible(h, lines, edits) ==> Compatible(h, lines, edits[..n])
  {
    hide Placeable, Target;
  }

  lemma {:induction false} TwoCopies<T>(s: seq<T>, x: T, i: nat, j: nat)
    requires i < j < |s| && s[i] == x && s[j] == x
    ensures multiset(s)[x] >= 2
  {
    assert s == s[..j] + [x] + s[j + 1..];
    assert s[..j][i] == x;
    assert x in multiset(s[..j]);
  }

  lemma TwoPlaces<T>(s: seq<T>, x: T) returns (i: nat, j: nat)
    requires multiset(s)[x] >= 2
    ensures i < j < |s| && s[i] == x && s[j] == x
  {
    var n := |s| - 1;
    assert s == s[..n] + [s[n]];
    if s[n] == x {
      assert x in s[..n];
      i :| 0 <= i < n && s[i] == x;
      j := n;
    } else {
      i, j := TwoPlaces(s[..n], x);
    }
  }

  lemma CompatiblePermuted(h: Hasher, lines: seq<string>, a: seq<Edit>, b: seq<Edit>)
    requires multiset(a) == multiset(b) && Compatible(h, lines, a)
    ensures Compatible(h, lines, b)
  {
    hide Resolve, OpOf, Placeable, Target;
    forall i | 0 <= i < |b| ensures Placeable(h, lines, b[i]) {
      assert b[i] in multiset(b);
    }
    forall i, j | 0 <= i < j < |b| ensures Target(h, lines, b[i]) != Target(h, lines, b[j]) {
      assert b[i] in multiset(a) && b[j] in multiset(a);
      var p :| 0 <= p < |a| && a[p] == b[i];
      var q :| 0 <= q < |a| && a[q] == b[j];
      if p == q {
        TwoCopies(b, b[i], i, j);
        var _, _ := TwoPlaces(a, b[i]);
      }
    }
  }

  /** If one ordering of the edits succeeds, every permutation succeeds with the same output lines. */
  lemma OrderIndependent(h: Hasher, lines: seq<string>, a: seq<Edit>, b: seq<Edit>)
    requires multiset(a) == multiset(b) && AppliedLines(h, lines, a).Success?
    ensures AppliedLines(h, lines, b) == AppliedLines(h, lines, a)
  {
    hide Resolve, OpOf, Placeable, Render;
    assert |multiset(a)| == |a| && |multiset(b)| == |b|;
    OpsCharacterized(h, lines, a);
    CompatiblePermuted(h, lines, a, b);
    OpsCharacterized(h, lines, b);
    TableDetermined(h, lines, a, b, OpsOf(h, lines, a).value, OpsOf(h, lines, b).value);
  }

  lemma TableDetermined(h: Hasher, lines: seq<string>, a: seq<Edit>, b: seq<Edit>, x: Ops, y: Ops)
    requires multiset(a) == multiset(b) && Compatible(h, lines, a) && Compatible(h, lines, b)
    requires Tabulates(h, lines, a, x) && Tabulates(h, lines, b, y)
    ensures x == y
  {
    hide Resolve, OpOf, Placeable, Target;
    forall t | t in x ensures t in y && y[t] == x[t] {
      var i :| 0 <= i < |a| && Target(h, lines, a[i]) == t;
      assert a[i] in multiset(b);
      var j :| 0 <= j < |b| && b[j] == a[i];
    }
    forall t | t in y ensures t in x {
      var i :| 0 <= i < |b| && Target(h, lines, b[i]) == t;
      assert b[i] in multiset(a);
      var j :| 0 <= j < |a| && a[j] == b[i];
    }
  }

  // ---------------------------------------------------------------- what the output contains

  lemma {:induction false} RenderConcat(a: seq<string>, b: seq<string>, ops: Ops, from: nat)
    ensures Render(a + b, ops, from) == Render(a, ops, from) + Render(b, ops, from + |a|)
  {
    hide LineOut;
    if a == [] {
      assert a + b == b;
    } else {
      RenderConcat(a[1..], b, ops, from + 1);
      assert (a + b)[1..] == a[1..] + b;
    }
  }

  /** Where the output of line `i` starts. */
  function OutPos(lines: seq<string>, ops: Ops, i: nat): nat
    requires i <= |lines|
  {
    |Render(lines[..i], ops, 0)|
  }

  /** The output is the concatenation of what each line becomes, in order: lines without an operation
      keep their content and relative order, replaced lines are their text, deleted lines are gone,
      and inserted text follows its line. */
  lemma OutputByLine(lines: seq<string>, ops: Ops, i: nat)
    requires i < |lines|
    ensures var out, p := Render(lines, ops, 0), OutPos(lines, ops, i);
            && OutPos(lines, ops, i + 1) == p + |LineOut(ops, i, lines[i])| <= |out|
            && out[p..OutPos(lines, ops, i + 1)] == LineOut(ops, i, lines[i])
            && OutPos(lines, ops, 0) == 0 && OutPos(lines, ops, |lines|) == |out|
  {
    hide LineOut;
    RenderConcat(lines[..i], [lines[i]], ops, 0);
    RenderConcat(lines[..i + 1], lines[i + 1..], ops, 0);
    assert lines[..i + 1] == lines[..i] + [lines[i]];
    assert lines == lines[..i + 1] + lines[i + 1..];
    assert lines[..|lines|] == lines;
    assert Render([lines[i]], ops, i) == LineOut(ops, i, lines[i]) + Render([], ops, i + 1);
  }

  function Growth(op: Op): int {
    match op
    case Replace(_) => 0
    case Delete => -1
    case InsertAfter(_) => 1
  }

  lemma {:induction false} RenderGrows(lines: seq<string>, ops: Ops, from: nat, t: nat, op: Op)
    requires t !in ops
    ensures |Render(lines, ops[t := op], from)|
            == |Render(lines, ops, from)| + if from <= t < from + |lines| then Growth(op) else 0
  {
    if lines != [] {
      RenderGrows(lines[1..], ops, from + 1, t, op);
    }
  }

  function CountOps(edits: seq<Edit>, op: string): nat {
    if edits == [] then 0
    else CountOps(edits[..|edits| - 1], op) + if edits[|edits| - 1].op == op then 1 else 0
  }

  lemma ResolveInRange(h: Hasher, lines: seq<string>, anchor: string)
    requires Resolve(h, lines, anchor).Success?
    ensures Resolve(h, lines, anchor).value < |lines|
  {
    hide ParseAnchor, Indices;
    var key := ParseAnchor(anchor).value.hash;
    var idxs := Indices(h, lines, key, |lines|);
    IndicesExact(h, lines, key, |lines|);
    assert idxs[0] in idxs;
  }

  lemma {:induction false} OpsGrowth(h: Hasher, lines: seq<string>, edits: seq<Edit>)
    requires OpsOf(h, lines, edits).Success?
    ensures |Render(lines, OpsOf(h, lines, edits).value, 0)|
            == |lines| - CountOps(edits, "delete") + CountOps(edits, "insert_after")
  {
    hide Resolve, LineOut, Render;
    if edits == [] {
      RenderNothing(lines, 0);
    } else {
      var e := edits[|edits| - 1];
      OpsGrowth(h, lines, edits[..|edits| - 1]);
      ResolveInRange(h, lines, e.anchor);
      RenderGrows(lines, OpsOf(h, lines, edits[..|edits| - 1]).value, 0, Resolve(h, lines, e.anchor).value, OpOf(e).value);
    }
  }

  lemma {:induction false} RenderNothing(lines: seq<string>, from: nat)
    ensures Render(lines, map[], from) == lines
  {
    if lines != [] {
      RenderNothing(lines[1..], from + 1);
    }
  }

  /** The output has one line less per deletion and one more per insertion. */
  lemma OutputLength(h: Hasher, lines: seq<string>, edits: seq<Edit>)
    requires AppliedLines(h, lines, edits).Success?
    ensures |AppliedLines(h, lines, edits).value|
            == |lines| - CountOps(edits, "delete") + CountOps(edits, "insert_after")
  {
    hide OpsOf, Render, CountOps;
    OpsGrowth(h, lines, edits);
  }

  // ---------------------------------------------------------------- edits commute with drift

  /** The hash named by the edit's anchor belongs to exactly one line, and to none of the extra ones. */
  predicate PinsOneLine(h: Hasher, lines: seq<string>, extra: seq<string>, e: Edit) {
    && ParseAnchor(e.anchor).Some?
    && NoneHashesTo(h, extra, ParseAnchor(e.anchor).value.hash)
    && exists i :: 0 <= i < |lines| && OnlyAt(h, lines, ParseAnchor(e.anchor).value.hash, i)
  }

  lemma PinnedTargets(h: Hasher, lines: seq<string>, k: nat, extra: seq<string>, e: Edit)
    requires k <= |lines| && PinsOneLine(h, lines, extra, e)
    ensures Resolve(h, lines, e.anchor).Success?
    ensures Resolve(h, Inserted(lines, k, extra), e.anchor)
            == Success(Shift(k, |extra|, Resolve(h, lines, e.anchor).value))
  {
    hide ParseAnchor, Resolve, OnlyAt, Inserted;
    var i :| 0 <= i < |lines| && OnlyAt(h, lines, ParseAnchor(e.anchor).value.hash, i);
    UniqueAnchorSurvives(h, lines, e.anchor, i, k, extra);
  }

  /** `wide` is `ops` with the line indices moved past the insertion. */
  ghost predicate ShiftedOps(ops: Ops, wide: Ops, k: nat, n: nat) {
    && (forall i: nat :: i < k ==> Get(wide, i) == Get(ops, i))
    && (forall j: nat :: k <= j < k + n ==> Get(wide, j) == None)
    && (forall i: nat {:trigger Get(ops, i)} :: k <= i ==> Get(wide, i + n) == Get(ops, i))
  }

  lemma GetAdded(ops: Ops, t: nat, op: Op, i: nat)
    ensures Get(ops[t := op], i) == if i == t then Some(op) else Get(ops, i)
  {
  }

  /** Every index of the old table, and every index of the gap, after the same addition to both tables. */
  lemma ShiftAddAt(ops: Ops, wide: Ops, k: nat, n: nat, t: nat, op: Op, i: nat)
    requires ShiftedOps(ops, wide, k, n)
    ensures Get(wide[Shift(k, n, t) := op], Shift(k, n, i)) == Get(ops[t := op], i)
    ensures k <= i < k + n ==> Get(wide[Shift(k, n, t) := op], i) == None
  {
    hide Get;
    GetAdded(ops, t, op, i);
    GetAdded(wide, Shift(k, n, t), op, Shift(k, n, i));
    GetAdded(wide, Shift(k, n, t), op, i);
    if k <= i {
      TailAt(ops, wide, k, n, i);
    }
  }

  lemma ShiftAdd(ops: Ops, wide: Ops, k: nat, n: nat, t: nat, op: Op)
    requires ShiftedOps(ops, wide, k, n)
    ensures t in ops <==> Shift(k, n, t) in wide
    ensures ShiftedOps(ops[t := op], wide[Shift(k, n, t) := op], k, n)
  {
    hide ShiftedOps, Get;
    ShiftHas(ops, wide, k, n, t);
    ShiftedAll(ops, wide, k, n, t, op);
  }

  lemma ShiftedAll(ops: Ops, wide: Ops, k: nat, n: nat, t: nat, op: Op)
    requires ShiftedOps(ops, wide, k, n)
    ensures ShiftedOps(ops[t := op], wide[Shift(k, n, t) := op], k, n)
  {
    hide Get;
    var ops', wide' := ops[t := op], wide[Shift(k, n, t) := op];
    forall i: nat | i < k ensures Get(wide', i) == Get(ops', i) {
      ShiftedAt(ops, wide, k, n, t, op, i);
    }
    forall j: nat | k <= j < k + n ensures Get(wide', j) == None {
      ShiftedAt(ops, wide, k, n, t, op, j);
    }
    forall i: nat {:trigger Get(ops', i)} | k <= i ensures Get(wide', i + n) == Get(ops', i) {
      ShiftedAt(ops, wide, k, n, t, op, i);
    }
  }

  lemma ShiftedAt(ops: Ops, wide: Ops, k: nat, n: nat, t: nat, op: Op, i: nat)
    requires ShiftedOps(ops, wide, k, n)
    ensures var ops', wide' := ops[t := op], wide[Shift(k, n, t) := op];
            && (i < k ==> Get(wide', i) == Get(ops', i))
            && (k <= i < k + n ==> Get(wide', i) == None)
            && (k <= i ==> Get(wide', i + n) == Get(ops', i))
  {
    hide Get, ShiftedOps;
    ShiftAddAt(ops, wide, k, n, t, op, i);
  }

  lemma ShiftHas(ops: Ops, wide: Ops, k: nat, n: nat, t: nat)
    requires ShiftedOps(ops, wide, k, n)
    ensures t in ops <==> Shift(k, n, t) in wide
  {
    assert Get(ops, t) == Get(wide, Shift(k, n, t));
  }

  lemma TailAt(ops: Ops, wide: Ops, k: nat, n: nat, at: nat)
    requires ShiftedOps(ops, wide, k, n) && k <= at
    ensures Get(wide, at + n) == Get(ops, at)
  {
    hide Get;
  }

  lemma AddOpShift(h: Hasher, lines: seq<string>, lines': seq<string>, ops: Ops, wide: Ops, k: nat, n: nat, e: Edit)
    requires Resolve(h, lines, e.anchor).Success?
    requires Resolve(h, lines', e.anchor) == Success(Shift(k, n, Resolve(h, lines, e.anchor).value))
    requires ShiftedOps(ops, wide, k, n)
    ensures AddOp(h, lines, ops, e).Success? <==> AddOp(h, lines', wide, e).Success?
    ensures AddOp(h, lines, ops, e).Success? ==>
              ShiftedOps(AddOp(h, lines, ops, e).value, AddOp(h, lines', wide, e).value, k, n)
  {
    hide Resolve, OpOf, ShiftedOps, Shift;
    var t := Resolve(h, lines, e.anchor).value;
    ShiftAdd(ops, wide, k, n, t, if OpOf(e).Some? then OpOf(e).value else Delete);
  }

  lemma {:induction false} OpsShift(h: Hasher, lines: seq<string>, edits: seq<Edit>, k: nat, extra: seq<string>)
    requires k <= |lines| && forall i :: 0 <= i < |edits| ==> PinsOneLine(h, lines, extra, edits[i])
    ensures OpsOf(h, lines, edits).Success? <==> OpsOf(h, Inserted(lines, k, extra), edits).Success?
    ensures OpsOf(h, lines, edits).Success? ==>
              ShiftedOps(OpsOf(h, lines, edits).value, OpsOf(h, Inserted(lines, k, extra), edits).value, k, |extra|)
  {
    var wide := Inserted(lines, k, extra);
    if edits == [] {
      assert ShiftedOps(map[], map[], k, |extra|);
    } else {
      hide Resolve, OpOf, PinsOneLine, Inserted, AddOp, ShiftedOps;
      var n := |edits| - 1;
      OpsShift(h, lines, edits[..n], k, extra);
      PinnedTargets(h, lines, k, extra, edits[n]);
      if OpsOf(h, lines, edits[..n]).Success? {
        AddOpShift(h, lines, wide, OpsOf(h, lines, edits[..n]).value, OpsOf(h, wide, edits[..n]).value, k, |extra|, edits[n]);
      }
    }
  }

  lemma {:induction false} RenderSame(lines: seq<string>, ops: Ops, wide: Ops, from: nat, to: nat)
    requires forall i :: 0 <= i < |lines| ==> LineOut(ops, from + i, lines[i]) == LineOut(wide, to + i, lines[i])
    ensures Render(lines, ops, from) == Render(lines, wide, to)
  {
    hide LineOut;
    if lines != [] {
      assert LineOut(ops, from + 0, lines[0]) == LineOut(wide, to + 0, lines[0]);
      forall i | 0 <= i < |lines[1..]|
        ensures LineOut(ops, from + 1 + i, lines[1..][i]) == LineOut(wide, to + 1 + i, lines[1..][i])
      {
        assert LineOut(ops, from + (i + 1), lines[i + 1]) == LineOut(wide, to + (i + 1), lines[i + 1]);
      }
      RenderSame(lines[1..], ops, wide, from + 1, to + 1);
    }
  }

  lemma {:induction false} RenderUntouched(lines: seq<string>, ops: Ops, from: nat)
    requires forall j :: from <= j < from + |lines| ==> j !in ops
    ensures Render(lines, ops, from) == lines
  {
    if lines != [] {
      RenderUntouched(lines[1..], ops, from + 1);
    }
  }

  lemma HeadShifted(lines: seq<string>, ops: Ops, wide: Ops, k: nat, n: nat)
    requires k <= |lines| && ShiftedOps(ops, wide, k, n)
    ensures Render(lines[..k], ops, 0) == Render(lines[..k], wide, 0)
  {
    hide Render, Emit, Get;
    forall i | 0 <= i < k ensures LineOut(ops, 0 + i, lines[..k][i]) == LineOut(wide, 0 + i, lines[..k][i]) {
      assert Get(wide, i) == Get(ops, i);
    }
    RenderSame(lines[..k], ops, wide, 0, 0);
  }

  lemma TailShifted(lines: seq<string>, ops: Ops, wide: Ops, k: nat, n: nat)
    requires k <= |lines| && ShiftedOps(ops, wide, k, n)
    ensures Render(lines[k..], ops, k) == Render(lines[k..], wide, k + n)
  {
    hide Render, Emit, Get, ShiftedOps;
    var tail := lines[k..];
    forall i | 0 <= i < |tail| ensures LineOut(ops, k + i, tail[i]) == LineOut(wide, k + n + i, tail[i]) {
      TailAt(ops, wide, k, n, k + i);
      assert k + i + n == k + n + i;
    }
    RenderSame(tail, ops, wide, k, k + n);
  }

  lemma GapShifted(extra: seq<string>, ops: Ops, wide: Ops, k: nat)
    requires ShiftedOps(ops, wide, k, |extra|)
    ensures Render(extra, wide, k) == extra
  {
    hide Render, Emit;
    forall j: nat | k <= j < k + |extra| ensures j !in wide {
      assert Get(wide, j) == None;
    }
    RenderUntouched(extra, wide, k);
  }

  lemma RenderShifted(lines: seq<string>, ops: Ops, wide: Ops, k: nat, extra: seq<string>)
    requires k <= |lines| && ShiftedOps(ops, wide, k, |extra|)
    ensures Render(Inserted(lines, k, extra), wide, 0)
            == Render(lines[..k], ops, 0) + extra + Render(lines[k..], ops, k)
  {
    hide Render, ShiftedOps;
    HeadShifted(lines, ops, wide, k, |extra|);
    TailShifted(lines, ops, wide, k, |extra|);
    GapShifted(extra, ops, wide, k);
    RenderConcat(lines[..k] + extra, lines[k..], wide, 0);
    RenderConcat(lines[..k], extra, wide, 0);
  }

  lemma AppliedIs(h: Hasher, lines: seq<string>, edits: seq<Edit>)
    requires edits != [] && OpsOf(h, lines, edits).Success?
    ensures AppliedLines(h, lines, edits) == Success(Render(lines, OpsOf(h, lines, edits).value, 0))
  {
    hide OpsOf, Render;
  }

  lemma RenderHalves(lines: seq<string>, ops: Ops, k: nat)
    requires k <= |lines|
    ensures Render(lines, ops, 0) == Render(lines[..k], ops, 0) + Render(lines[k..], ops, k)
  {
    hide Render;
    RenderConcat(lines[..k], lines[k..], ops, 0);
    assert lines == lines[..k] + lines[k..];
  }

  predicate AllPinned(h: Hasher, lines: seq<string>, extra: seq<string>, edits: seq<Edit>) {
    forall i :: 0 <= i < |edits| ==> PinsOneLine(h, lines, extra, edits[i])
  }

  /** While every anchor pins one line, editing commutes with inserting other lines anywhere: the
      inserted lines appear between the outputs of the two halves and nothing else changes. */
  lemma EditsCommuteWithDrift(h: Hasher, lines: seq<string>, edits: seq<Edit>, k: nat, extra: seq<string>)
    requires k <= |lines| && AppliedLines(h, lines, edits).Success? && AllPinned(h, lines, extra, edits)
    ensures var ops := OpsOf(h, lines, edits).value;
            var before, after := Render(lines[..k], ops, 0), Render(lines[k..], ops, k);
            && AppliedLines(h, lines, edits) == Success(before + after)
            && AppliedLines(h, Inserted(lines, k, extra), edits) == Success(before + extra + after)
  {
    OpsShift(h, lines, edits, k, extra);
    hide Render, OpsOf, Inserted, ShiftedOps, AllPinned;
    var ops := OpsOf(h, lines, edits).value;
    var wide := Inserted(lines, k, extra);
    AppliedIs(h, lines, edits);
    AppliedIs(h, wide, edits);
    hide AppliedLines;
    RenderShifted(lines, ops, OpsOf(h, wide, edits).value, k, extra);
    RenderHalves(lines, ops, k);
  }

  /** In particular it commutes with putting other lines in front. */
  lemma EditsCommuteWithPrefix(h: Hasher, lines: seq<string>, edits: seq<Edit>, extra: seq<string>)
    requires AppliedLines(h, lines, edits).Success? && AllPinned(h, lines, extra, edits)
    ensures AppliedLines(h, extra + lines, edits) == Success(extra + AppliedLines(h, lines, edits).value)
  {
    hide AllPinned, OpsOf, LineOut;
    EditsCommuteWithDrift(h, lines, edits, 0, extra);
    assert Inserted(lines, 0, extra) == extra + lines;
    assert lines[..0] == [] && lines[0..] == lines;
    var ops := OpsOf(h, lines, edits).value;
    EmptyHead(lines, ops);
    var out := Render(lines[0..], ops, 0);
    assert [] + extra + out == extra + out && [] + out == out;
  }

  lemma EmptyHead(lines: seq<string>, ops: Ops)
    ensures Render(lines[..0], ops, 0) == []
  {
  }
}
