// backend/ai/client.py, repair_json_arguments: closing a truncated JSON object.
module JsonCloser {
  import opened Wrappers
  import opened Text

  /** Where a left-to-right scan stands: inside a string, behind a backslash, and the open brackets. */
  datatype Scan = Scan(inString: bool, escape: bool, stack: string)

  const START := Scan(false, false, "")

  predicate IsOpener(c: char) { c == '{' || c == '[' }

  predicate IsCloser(c: char) { c == '}' || c == ']' }

  function Popped(stack: string): string { if stack == "" then "" else stack[..|stack| - 1] }

  /** The scanner of the repair: a backslash escapes anywhere, and a closer pops whatever is open. */
  function Next(s: Scan, c: char): Scan {
    if s.escape then s.(escape := false)
    else if c == '\\' then s.(escape := true)
    else if c == '"' then s.(inString := !s.inString)
    else if s.inString then s
    else if IsOpener(c) then s.(stack := s.stack + [c])
    else if IsCloser(c) then s.(stack := Popped(s.stack))
    else s
  }

  function ScanFrom(s: Scan, text: string): Scan {
    if text == "" then s else Next(ScanFrom(s, text[..|text| - 1]), text[|text| - 1])
  }

  predicate Clean(s: Scan) { !s.inString && !s.escape && s.stack == "" }

  function Closer(c: char): char { if c == '{' then '}' else ']' }

  /** The closers for the open brackets, innermost first. */
  function Closers(stack: string): string {
    if stack == "" then "" else [Closer(stack[|stack| - 1])] + Closers(stack[..|stack| - 1])
  }

  /** The input without a trailing backslash that would escape what is appended. */
  function Kept(text: string): string {
    if text != "" && ScanFrom(START, text).escape then text[..|text| - 1] else text
  }

  function Tail(s: Scan): string { (if s.inString then "\"" else "") + Closers(s.stack) }

  /** The text handed to the JSON parser; None when the stripped input is not an object. */
  function Repaired(s: string): Option<string> {
    var text := Strip(s);
    if text == "" || text[0] != '{' then None
    else Some(Kept(text) + Tail(ScanFrom(START, text)))
  }

  method RepairJsonArguments(s: string) returns (r: Option<string>)
    ensures r == Repaired(s)
  {
    hide Strip;
    var text := Strip(s);
    if text == "" || text[0] != '{' {
      return None;
    }
    var inString, escape, stack, repaired := false, false, "", "";
    for k := 0 to |text|
      invariant Scan(inString, escape, stack) == ScanFrom(START, text[..k])
      invariant repaired == text[..k]
    {
      var c := text[k];
      assert text[..k + 1][..k] == text[..k];
      repaired := repaired + [c];
      if escape {
        escape := false;
        continue;
      }
      if c == '\\' {
        escape := true;
        continue;
      }
      if c == '"' {
        inString := !inString;
        continue;
      }
      if !inString {
        if IsOpener(c) {
          stack := stack + [c];
        } else if IsCloser(c) {
          if stack != "" {
            stack := stack[..|stack| - 1];
          }
        }
      }
    }
    assert text[..|text|] == text;
    ghost var open := stack;
    if escape {
      repaired := repaired[..|repaired| - 1];
    }
    OpenersOnly(text);
    r := CloseAll(repaired, inString, stack);
  }

  method CloseAll(body: string, inString: bool, open: string) returns (r: Option<string>)
    requires AllOpeners(open)
    ensures r == Some(body + ((if inString then "\"" else "") + Closers(open)))
  {
    var repaired, stack := body, open;
    if inString {
      repaired := repaired + "\"";
    }
    ghost var head := repaired;
    assert head + Closers(stack) == body + ((if inString then "\"" else "") + Closers(open));
    while stack != ""
      invariant repaired + Closers(stack) == head + Closers(open)
      invariant AllOpeners(stack)
      decreases |stack|
    {
      var c := stack[|stack| - 1];
      stack := stack[..|stack| - 1];
      if c == '{' {
        repaired := repaired + "}";
      } else if c == '[' {
        repaired := repaired + "]";
      }
    }
    assert repaired + "" == repaired;
    r := Some(repaired);
  }

  // ---------------------------------------------------------------- rescanning the repaired text

  predicate AllOpeners(stack: string) {
    forall i :: 0 <= i < |stack| ==> IsOpener(stack[i])
  }

  lemma {:induction false} OpenersOnly(text: string)
    ensures AllOpeners(ScanFrom(START, text).stack)
  {
    if text != "" {
      OpenersOnly(text[..|text| - 1]);
    }
  }

  lemma {:induction false} ScanConcat(s: Scan, a: string, b: string)
    ensures ScanFrom(s, a + b) == ScanFrom(ScanFrom(s, a), b)
    decreases |b|
  {
    hide Next;
    if b == "" {
      assert a + b == a;
    } else {
      ScanConcat(s, a, b[..|b| - 1]);
      assert (a + b)[..|a + b| - 1] == a + b[..|b| - 1];
    }
  }

  lemma ScanOne(s: Scan, c: char)
    ensures ScanFrom(s, [c]) == Next(s, c)
  {
    assert [c][..0] == "";
  }

  /** Outside strings, the closers of a stack empty a stack of the same height. */
  lemma {:induction false} ClosersClose(open: string, stack: string)
    requires |stack| <= |open|
    ensures ScanFrom(Scan(false, false, stack), Closers(open)) == Scan(false, false, "")
    decreases |open|
  {
    if open != "" {
      var c := Closer(open[|open| - 1]);
      ScanConcat(Scan(false, false, stack), [c], Closers(open[..|open| - 1]));
      ScanOne(Scan(false, false, stack), c);
      ClosersClose(open[..|open| - 1], Popped(stack));
    }
  }

  lemma TailCloses(s: Scan)
    requires !s.escape
    ensures Clean(ScanFrom(s, Tail(s)))
  {
    hide ScanFrom;
    ClosersClose(s.stack, s.stack);
    if s.inString {
      ScanConcat(s, "\"", Closers(s.stack));
      ScanOne(s, '"');
    } else {
      assert "" + Closers(s.stack) == Closers(s.stack);
    }
  }

  /** Dropping the trailing backslash leaves the scan where it was, no longer escaping. */
  lemma KeptScan(text: string)
    ensures ScanFrom(START, Kept(text)) == ScanFrom(START, text).(escape := false)
  {
    var s := ScanFrom(START, text);
    if s.escape && text != "" {
      var before := ScanFrom(START, text[..|text| - 1]);
      assert s == Next(before, text[|text| - 1]);
      assert !before.escape;
    }
  }

  /** Rescanning the repaired text ends outside strings with nothing open. */
  lemma RepairScansClean(s: string)
    requires Repaired(s).Some?
    ensures Clean(ScanFrom(START, Repaired(s).value))
  {
    hide ScanFrom, Strip, Tail, Kept;
    var text := Strip(s);
    var st := ScanFrom(START, text);
    KeptScan(text);
    ScanConcat(START, Kept(text), Tail(st));
    assert Tail(st) == Tail(st.(escape := false)) by { TailIgnoresEscape(st); }
    TailCloses(st.(escape := false));
  }

  lemma TailIgnoresEscape(s: Scan)
    ensures Tail(s) == Tail(s.(escape := false))
  {
  }

  /** The repaired text is the stripped input, minus at most one trailing backslash, plus closers. */
  lemma RepairOnlyCloses(s: string)
    requires Repaired(s).Some?
    ensures var text, r := Strip(s), Repaired(s).value;
            && Kept(text) <= r
            && (Kept(text) == text || (text == Kept(text) + "\\"))
            && forall i :: |Kept(text)| <= i < |r| ==> (i == |Kept(text)| && r[i] == '"') || IsCloser(r[i])
  {
    hide Strip, Closers;
    var text := Strip(s);
    var st := ScanFrom(START, text);
    ClosersAreClosers(st.stack);
    if st.escape {
      assert text == text[..|text| - 1] + [text[|text| - 1]];
    }
  }

  lemma {:induction false} ClosersAreClosers(stack: string)
    ensures |Closers(stack)| == |stack| && forall i :: 0 <= i < |stack| ==> IsCloser(Closers(stack)[i])
  {
    if stack != "" {
      ClosersAreClosers(stack[..|stack| - 1]);
    }
  }

  lemma KeptStarts(text: string)
    requires text != "" && text[0] == '{'
    ensures Kept(text) != "" && Kept(text)[0] == '{'
  {
    if |text| == 1 {
      ScanOne(START, '{');
      assert text == [text[0]];
    }
  }

  /** Text is only stripped exactly when what is left already scans clean. */
  lemma RepairStable(s: string)
    requires Repaired(s).Some?
    ensures Clean(ScanFrom(START, Strip(s))) <==> Repaired(s) == Some(Strip(s))
  {
    hide ScanFrom, Strip;
    RepairScansClean(s);
    var text := Strip(s);
    if Clean(ScanFrom(START, text)) {
      assert text + Tail(ScanFrom(START, text)) == text;
    }
  }

  /** The text ends in a backslash that is dropped, nothing is open there, and whitespace stands before it. */
  predicate DropsToSpace(text: string) {
    var st := ScanFrom(START, text);
    st.escape && !st.inString && st.stack == "" && |text| >= 2 && IsSpace(text[|text| - 2])
  }

  lemma StripSame(s: string)
    requires s != "" && !IsSpace(s[0])
    ensures Strip(s) == s <==> !IsSpace(s[|s| - 1])
    ensures IsSpace(s[|s| - 1]) ==> |Strip(s)| < |s|
  {
    hide IsSpace;
    assert LStrip(s) == s;
  }

  lemma StripEnds(s: string)
    ensures Strip(s) == "" || !IsSpace(Strip(s)[|Strip(s)| - 1])
  {
    hide IsSpace;
  }

  lemma TailEnds(s: Scan)
    ensures Tail(s) == "" <==> !s.inString && s.stack == ""
    ensures Tail(s) != "" ==> !IsSpace(Tail(s)[|Tail(s)| - 1])
  {
    hide Closers;
    ClosersAreClosers(s.stack);
  }

  /** What the repair returns ends in whitespace only if a dropped backslash leaves it there. */
  lemma RepairEnds(s: string)
    requires Repaired(s).Some?
    ensures var r := Repaired(s).value; r != "" && r[0] == '{' && (IsSpace(r[|r| - 1]) <==> DropsToSpace(Strip(s)))
  {
    hide ScanFrom, Strip, Tail, IsSpace;
    var text := Strip(s);
    var st := ScanFrom(START, text);
    KeptStarts(text);
    StripEnds(s);
    TailEnds(st);
    assert !IsSpace('{') by { BraceIsNoSpace(); }
  }

  lemma BraceIsNoSpace()
    ensures !IsSpace('{')
  {
  }

  /** Repairing twice is repairing once, except when the repair of the input ends in whitespace that a
      dropped backslash was hiding from the stripping. */
  lemma RepairTwiceIff(s: string)
    requires Repaired(s).Some?
    ensures Repaired(Repaired(s).value) == Repaired(s) <==> !DropsToSpace(Strip(s))
  {
    hide ScanFrom, Strip, Tail, IsSpace;
    var r := Repaired(s).value;
    RepairEnds(s);
    RepairScansClean(s);
    BraceIsNoSpace();
    StripSame(r);
    var again := Strip(r);
    TailEnds(ScanFrom(START, r));
    TailEnds(ScanFrom(START, again));
    assert r + "" == r;
    if IsSpace(r[|r| - 1]) {
      assert |again| < |r|;
      var tail := Tail(ScanFrom(START, again));
      assert tail == "" || !IsSpace((Kept(again) + tail)[|Kept(again) + tail| - 1]);
    }
  }

  const HIDDEN_BLANK := ['{', '}', ' ', '\\']

  lemma HiddenBlankScans()
    ensures ScanFrom(START, HIDDEN_BLANK) == Scan(false, true, "") && ScanFrom(START, "{}") == START
    ensures Strip(HIDDEN_BLANK) == HIDDEN_BLANK && Strip("{} ") == "{}"
  {
    hide LStrip, RStrip, Strip;
    var s := HIDDEN_BLANK;
    assert s[..3] == "{} " && s[..3][..2] == "{}" && "{}"[..1] == "{" && "{"[..0] == "";
    assert ScanFrom(START, "{") == Scan(false, false, "{");
    assert ScanFrom(START, "{}") == START;
    assert ScanFrom(START, s[..3]) == START;
    StripSame(s);
    StripOneBlank();
  }

  lemma StripOneBlank()
    ensures Strip("{} ") == "{}"
  {
    assert LStrip("{} ") == "{} ";
    assert "{} "[..2] == "{}" && RStrip("{}") == "{}";
  }

  /** An object, a blank and a backslash: the first repair leaves the blank, the second takes it away. */
  lemma RepairTwiceExample()
    ensures Repaired(HIDDEN_BLANK) == Some("{} ") && Repaired("{} ") == Some("{}")
  {
    hide ScanFrom, Strip, IsSpace;
    HiddenBlankScans();
    assert Tail(START) == "" && Tail(Scan(false, true, "")) == "";
    assert HIDDEN_BLANK[..3] == "{} " && "{} " + "" == "{} " && "{}" + "" == "{}";
  }

  /** How many characters are needed before a scan can be clean. */
  function Debt(s: Scan): nat { |s.stack| + (if s.inString then 1 else 0) + (if s.escape then 1 else 0) }

  /** No completion is shorter: every character settles at most one open bracket, string or escape. */
  lemma {:induction false} CompletionIsShortest(s: Scan, more: string)
    requires Clean(ScanFrom(s, more))
    ensures |more| >= Debt(s)
    ensures !s.escape ==> |Tail(s)| == Debt(s)
    decreases |more|
  {
    DebtDrops(s, more);
    ClosersAreClosers(s.stack);
  }

  lemma {:induction false} DebtDrops(s: Scan, more: string)
    ensures Debt(ScanFrom(s, more)) + |more| >= Debt(s)
    decreases |more|
  {
    if more != "" {
      DebtDrops(s, more[..|more| - 1]);
    }
  }

  // ---------------------------------------------------------------- bracket kinds

  /** The scan that also checks that each closer matches the bracket it closes. */
  datatype Strict = Broken | Ok(scan: Scan)

  predicate Mismatched(s: Scan, c: char) {
    !s.escape && !s.inString && IsCloser(c) && (s.stack == "" || Closer(s.stack[|s.stack| - 1]) != c)
  }

  function StrictFrom(s: Scan, text: string): Strict {
    if text == "" then Ok(s)
    else
      match StrictFrom(s, text[..|text| - 1])
      case Broken => Broken
      case Ok(t) => if Mismatched(t, text[|text| - 1]) then Broken else Ok(Next(t, text[|text| - 1]))
  }

  lemma {:induction false} StrictScan(s: Scan, text: string)
    ensures StrictFrom(s, text).Ok? ==> StrictFrom(s, text).scan == ScanFrom(s, text)
  {
    hide Next, Mismatched;
    if text != "" {
      StrictScan(s, text[..|text| - 1]);
    }
  }

  lemma {:induction false} StrictConcat(s: Scan, a: string, b: string)
    ensures StrictFrom(s, a + b)
            == match StrictFrom(s, a) case Broken => Broken case Ok(t) => StrictFrom(t, b)
    decreases |b|
  {
    hide Next, Mismatched;
    if b == "" {
      assert a + b == a;
    } else {
      StrictConcat(s, a, b[..|b| - 1]);
      assert (a + b)[..|a + b| - 1] == a + b[..|b| - 1];
    }
  }

  lemma StrictOne(s: Scan, c: char)
    ensures StrictFrom(s, [c]) == if Mismatched(s, c) then Broken else Ok(Next(s, c))
  {
    assert [c][..0] == "";
  }

  lemma {:induction false} ClosersMatch(stack: string)
    requires AllOpeners(stack)
    ensures StrictFrom(Scan(false, false, stack), Closers(stack)).Ok?
    decreases |stack|
  {
    if stack != "" {
      var rest := stack[..|stack| - 1];
      var c := Closer(stack[|stack| - 1]);
      StrictConcat(Scan(false, false, stack), [c], Closers(rest));
      StrictOne(Scan(false, false, stack), c);
      ClosersMatch(rest);
    }
  }

  lemma TailMatches(s: Scan)
    requires !s.escape && AllOpeners(s.stack)
    ensures StrictFrom(s, Tail(s)).Ok?
  {
    hide StrictFrom;
    ClosersMatch(s.stack);
    if s.inString {
      StrictConcat(s, "\"", Closers(s.stack));
      StrictOne(s, '"');
    } else {
      assert "" + Closers(s.stack) == Closers(s.stack);
    }
  }

  lemma KeptStrict(text: string)
    ensures StrictFrom(START, Kept(text)).Ok? <==> StrictFrom(START, text).Ok?
  {
    var s := ScanFrom(START, text);
    if s.escape && text != "" {
      var before := text[..|text| - 1];
      StrictScan(START, before);
      assert s == Next(ScanFrom(START, before), text[|text| - 1]);
    }
  }

  /** The bracket kinds of the repaired text match exactly when the closers of the input matched. */
  lemma RepairMatchesKinds(s: string)
    requires Repaired(s).Some?
    ensures StrictFrom(START, Repaired(s).value).Ok? <==> StrictFrom(START, Strip(s)).Ok?
  {
    hide ScanFrom, StrictFrom, Strip, Tail, Kept;
    var text := Strip(s);
    var st := ScanFrom(START, text);
    KeptScan(text);
    KeptStrict(text);
    StrictScan(START, Kept(text));
    StrictConcat(START, Kept(text), Tail(st));
    OpenersOnly(text);
    TailIgnoresEscape(st);
    TailMatches(st.(escape := false));
  }

  // ---------------------------------------------------------------- a reader of RFC 8259

  /** Where a reader of JSON stands: in a string, behind a backslash in it, the brackets it has not seen
      closed, and whether a closing bracket has met another than its own. */
  datatype Json = Json(inString: bool, escaped: bool, open: seq<char>, broken: bool)

  /** One character: sections 2 and 7 of RFC 8259, as far as they concern strings and brackets. */
  function JsonNext(j: Json, c: char): Json {
    if j.inString then
      if j.escaped then j.(escaped := false)
      else if c == '\\' then j.(escaped := true)
      else if c == '"' then j.(inString := false)
      else j
    else
      var n := |j.open|;
      match c
      case '"' => j.(inString := true)
      case '{' => j.(open := j.open + ['{'])
      case '[' => j.(open := j.open + ['['])
      case '}' => if n == 0 then j.(broken := true) else j.(open := j.open[..n - 1], broken := j.broken || j.open[n - 1] != '{')
      case ']' => if n == 0 then j.(broken := true) else j.(open := j.open[..n - 1], broken := j.broken || j.open[n - 1] != '[')
      case _ => j
  }

  function JsonRead(text: string): Json {
    if text == "" then Json(false, false, [], false) else JsonNext(JsonRead(text[..|text| - 1]), text[|text| - 1])
  }

  /** No string and no bracket is left open. */
  predicate Finished(text: string) { !JsonRead(text).inString && JsonRead(text).open == [] }

  /** Every closing bracket closes one of its own kind. */
  predicate Paired(text: string) { !JsonRead(text).broken }

  /** No backslash of `text` stands outside a string. */
  predicate BackslashesInStrings(text: string) {
    forall i :: 0 <= i < |text| && text[i] == '\\' ==> JsonRead(text[..i]).inString
  }

  // ---------------------------------------------------------------- the repair's scanner, as far as it agrees

  /** The repair's scanner, with backslashes escaping inside strings only. */
  function NextJson(s: Scan, c: char): Scan {
    if !s.inString && !s.escape && c == '\\' then s else Next(s, c)
  }

  function JsonFrom(s: Scan, text: string): Scan {
    if text == "" then s else NextJson(JsonFrom(s, text[..|text| - 1]), text[|text| - 1])
  }

  lemma {:induction false} JsonConcat(s: Scan, a: string, b: string)
    ensures JsonFrom(s, a + b) == JsonFrom(JsonFrom(s, a), b)
    decreases |b|
  {
    hide NextJson;
    if b == "" {
      assert a + b == a;
    } else {
      JsonConcat(s, a, b[..|b| - 1]);
      assert (a + b)[..|a + b| - 1] == a + b[..|b| - 1];
    }
  }

  lemma {:induction false} JsonPlain(s: Scan, text: string)
    requires forall i :: 0 <= i < |text| ==> text[i] != '\\'
    ensures JsonFrom(s, text) == ScanFrom(s, text)
  {
    hide Next;
    if text != "" {
      JsonPlain(s, text[..|text| - 1]);
    }
  }

  /** Inside a string, closers are ordinary characters. */
  lemma {:induction false} ClosersInString(stack: string, s: Scan)
    requires s.inString && !s.escape
    ensures ScanFrom(s, Closers(stack)) == s
    decreases |stack|
  {
    if stack != "" {
      var c := Closer(stack[|stack| - 1]);
      ScanConcat(s, [c], Closers(stack[..|stack| - 1]));
      ScanOne(s, c);
      ClosersInString(stack[..|stack| - 1], s);
    }
  }

  lemma {:induction false} ClosersPop(stack: string, open: string)
    ensures |ScanFrom(Scan(false, false, open), Closers(stack)).stack|
            == if |stack| <= |open| then |open| - |stack| else 0
    ensures var r := ScanFrom(Scan(false, false, open), Closers(stack)); !r.inString && !r.escape
    decreases |stack|
  {
    if stack != "" {
      var c := Closer(stack[|stack| - 1]);
      ScanConcat(Scan(false, false, open), [c], Closers(stack[..|stack| - 1]));
      ScanOne(Scan(false, false, open), c);
      ClosersPop(stack[..|stack| - 1], Popped(open));
    }
  }

  /** A step of the reader is a step of that scanner, and it finds a bracket broken where kinds differ. */
  lemma JsonStep(j: Json, c: char)
    requires j.escaped ==> j.inString
    requires forall i :: 0 <= i < |j.open| ==> j.open[i] == '{' || j.open[i] == '['
    ensures var s, t := Scan(j.inString, j.escaped, j.open), JsonNext(j, c);
            && NextJson(s, c) == Scan(t.inString, t.escaped, t.open)
            && (t.broken <==> j.broken || Mismatched(s, c))
            && (t.escaped ==> t.inString)
            && forall i :: 0 <= i < |t.open| ==> t.open[i] == '{' || t.open[i] == '['
  {
  }

  lemma {:induction false} JsonIsScan(text: string)
    ensures var j := JsonRead(text);
            && JsonFrom(START, text) == Scan(j.inString, j.escaped, j.open)
            && (j.escaped ==> j.inString)
            && forall i :: 0 <= i < |j.open| ==> j.open[i] == '{' || j.open[i] == '['
    ensures JsonStrictFrom(START, text) == if JsonRead(text).broken then Broken else Ok(JsonFrom(START, text))
  {
    hide NextJson, JsonNext, Mismatched;
    if text != "" {
      JsonIsScan(text[..|text| - 1]);
      JsonStep(JsonRead(text[..|text| - 1]), text[|text| - 1]);
    }
  }

  /** The two scanners agree on whether a string is open, JSON expects no escaped character, and JSON
      has no more brackets open. */
  predicate ScannersAgree(code: Scan, json: Scan) {
    json.inString == code.inString && !json.escape && |json.stack| <= |code.stack|
  }

  /** A reader of JSON finds no string and no bracket left open in the repaired text exactly when, at the
      end of the input (without its trailing backslash, if that one was dropped), it agrees with the
      repair on whether a string is open, waits for no escaped character, and has no more brackets open. */
  lemma RepairCleanForJson(s: string)
    requires Repaired(s).Some?
    ensures var code, json := ScanFrom(START, Kept(Strip(s))), JsonRead(Kept(Strip(s)));
            Finished(Repaired(s).value)
            <==> json.inString == code.inString && !json.escaped && |json.open| <= |code.stack|
  {
    hide ScanFrom, JsonFrom, JsonRead, Strip, Tail, Kept;
    var kept, st := Kept(Strip(s)), ScanFrom(START, Strip(s));
    KeptScan(Strip(s));
    TailIgnoresEscape(st);
    JsonConcat(START, kept, Tail(st));
    JsonIsScan(kept);
    JsonIsScan(Repaired(s).value);
    TailForJson(st.(escape := false), JsonFrom(START, kept));
  }

  lemma TailForJson(code: Scan, json: Scan)
    requires !code.escape && (json.escape ==> json.inString)
    ensures Clean(JsonFrom(json, Tail(code))) <==> ScannersAgree(code, json)
  {
    TailIsPlain(code);
    JsonPlain(json, Tail(code));
    TailScan(code, json);
  }

  lemma TailIsPlain(s: Scan)
    ensures forall i :: 0 <= i < |Tail(s)| ==> Tail(s)[i] != '\\'
  {
    hide Closers;
    ClosersAreClosers(s.stack);
  }

  lemma TailScan(code: Scan, json: Scan)
    requires !code.escape && (json.escape ==> json.inString)
    ensures Clean(ScanFrom(json, Tail(code))) <==> ScannersAgree(code, json)
  {
    var closers := Closers(code.stack);
    if code.inString {
      ScanConcat(json, "\"", closers);
      ScanOne(json, '"');
    } else {
      assert "" + closers == closers;
    }
    hide ScanFrom;
    if json.escape {
      EscapedTail(code, json);
    } else {
      var after := if code.inString then Next(json, '"') else json;
      if after.inString {
        ClosersInString(code.stack, after);
      } else {
        ClosersPop(code.stack, after.stack);
      }
    }
  }

  lemma EscapedTail(code: Scan, json: Scan)
    requires !code.escape && json.escape && json.inString
    ensures !Clean(ScanFrom(json, Tail(code)))
  {
    var inside := json.(escape := false);
    if code.inString {
      ScanConcat(json, "\"", Closers(code.stack));
      ScanOne(json, '"');
      ClosersInString(code.stack, inside);
    } else if code.stack != "" {
      var c, rest := Closer(code.stack[|code.stack| - 1]), Closers(code.stack[..|code.stack| - 1]);
      assert Tail(code) == [c] + rest;
      ScanConcat(json, [c], rest);
      ScanOne(json, c);
      ClosersInString(code.stack[..|code.stack| - 1], inside);
    }
  }

  lemma {:induction false} ScannersSame(text: string)
    requires BackslashesInStrings(text)
    ensures JsonFrom(START, text) == ScanFrom(START, text)
  {
    hide JsonRead;
    if text != "" {
      var n := |text| - 1;
      BackslashPrefix(text, n);
      ScannersSame(text[..n]);
      JsonIsScan(text[..n]);
    }
  }

  lemma BackslashPrefix(text: string, n: nat)
    requires n <= |text| && BackslashesInStrings(text)
    ensures BackslashesInStrings(text[..n])
  {
    hide JsonRead;
    forall i | 0 <= i < n && text[..n][i] == '\\' ensures JsonRead(text[..n][..i]).inString {
      assert text[..n][..i] == text[..i];
    }
  }

  /** On anything that starts like JSON, where backslashes occur in strings only, nothing is left open. */
  lemma RepairCleanForJsonInput(s: string)
    requires Repaired(s).Some? && BackslashesInStrings(Strip(s))
    ensures Finished(Repaired(s).value)
  {
    hide ScanFrom, JsonFrom, JsonRead, Strip, BackslashesInStrings;
    var text := Strip(s);
    BackslashPrefix(text, |Kept(text)|);
    assert Kept(text) == text[..|Kept(text)|];
    ScannersSame(Kept(text));
    JsonIsScan(Kept(text));
    KeptScan(text);
    RepairCleanForJson(s);
  }

  // ---------------------------------------------------------------- bracket kinds for a JSON reader

  function JsonStrictFrom(s: Scan, text: string): Strict {
    if text == "" then Ok(s)
    else
      match JsonStrictFrom(s, text[..|text| - 1])
      case Broken => Broken
      case Ok(t) => if Mismatched(t, text[|text| - 1]) then Broken else Ok(NextJson(t, text[|text| - 1]))
  }

  lemma {:induction false} StrictSame(text: string)
    requires BackslashesInStrings(text)
    ensures JsonStrictFrom(START, text) == StrictFrom(START, text)
  {
    hide ScanFrom, Mismatched, JsonRead;
    if text != "" {
      var n := |text| - 1;
      BackslashPrefix(text, n);
      StrictSame(text[..n]);
      StrictScan(START, text[..n]);
      JsonIsScan(text[..n]);
      ScannersSame(text[..n]);
    }
  }

  lemma BackslashesRepaired(s: string)
    requires Repaired(s).Some? && BackslashesInStrings(Strip(s))
    ensures BackslashesInStrings(Repaired(s).value)
  {
    hide ScanFrom, Strip, Tail, JsonRead;
    var text, kept, r := Strip(s), Kept(Strip(s)), Repaired(s).value;
    TailIsPlain(ScanFrom(START, text));
    forall i | 0 <= i < |r| && r[i] == '\\' ensures JsonRead(r[..i]).inString {
      assert i < |kept| && text[i] == kept[i];
      assert r[..i] == text[..i];
    }
  }

  /** When all backslashes are inside strings, a reader of JSON finds every closing bracket of the
      repaired text to close one of its own kind exactly when it finds that of the input. */
  lemma RepairMatchesKindsForJson(s: string)
    requires Repaired(s).Some? && BackslashesInStrings(Strip(s))
    ensures Paired(Repaired(s).value) <==> Paired(Strip(s))
  {
    hide StrictFrom, JsonStrictFrom, JsonRead, Strip, BackslashesInStrings;
    BackslashesRepaired(s);
    StrictSame(Repaired(s).value);
    StrictSame(Strip(s));
    JsonIsScan(Repaired(s).value);
    JsonIsScan(Strip(s));
    RepairMatchesKinds(s);
  }

  /** A text is repaired exactly when it is a brace with anything behind it and only whitespace before. */
  lemma RepairedIff(s: string)
    ensures Repaired(s).Some? <==> exists n: nat :: n < |s| && s[n] == '{' && Blank(s[..n])
  {
    hide IsSpace;
    var n := LStripPads(s);
    BraceIsNoSpace();
    StripStarts(s);
    forall k: nat | k < |s| && s[k] == '{' && Blank(s[..k]) ensures LStrip(s) == s[k..] {
      assert s == s[..k] + s[k..];
      LStripDrops(s[..k], s[k..]);
      LStripKeeps(s[k..]);
    }
    assert LStrip(s) != "" ==> s[n] == LStrip(s)[0];
  }

  lemma StripStarts(s: string)
    ensures Strip(s) == "" <==> LStrip(s) == ""
    ensures Strip(s) != "" ==> Strip(s)[0] == LStrip(s)[0]
  {
    hide IsSpace, LStrip;
    var l := LStrip(s);
    var b := RStripPads(l);
    BlankRStrip(l);
  }

  /** A backslash outside strings tells them apart: the repair takes the quote in `{\"` for an escaped
      character and closes the brace only, which leaves the string open for a reader of JSON. */
  lemma RepairNotCleanForJson()
    ensures var s := ['{', '\\', '"'];
            Repaired(s) == Some(s + "}") && JsonRead(s + "}").inString && !Finished(s + "}")
  {
    var s := ['{', '\\', '"'];
    assert s[..2] == ['{', '\\'] && s[..2][..1] == ['{'] && ['{'][..0] == "";
    assert ScanFrom(START, ['{']) == Scan(false, false, "{");
    assert ScanFrom(START, ['{', '\\']) == Scan(false, true, "{");
    assert ScanFrom(START, s) == Scan(false, false, "{");
    assert Strip(s) == s;
    assert "{"[..0] == "";
    assert Closers("{") == "}" + Closers("");
    assert Tail(Scan(false, false, "{")) == "}";
    var t := s + "}";
    assert t[..3] == s;
    assert JsonRead(['{']) == Json(false, false, ['{'], false);
    assert JsonRead(['{', '\\']) == Json(false, false, ['{'], false);
    assert JsonRead(s) == Json(true, false, ['{'], false);
    assert JsonRead(t) == Json(true, false, ['{'], false);
  }
}
