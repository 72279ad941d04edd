// backend/editing/eol.py: byte-order mark and line endings at the file boundary.
module LineEndings {
  import opened Text

  const BOM := '\U{FEFF}'

  function StripBom(s: string): (r: (string, string)) {
    if s != "" && s[0] == BOM then ([BOM], s[1..]) else ("", s)
  }

  datatype Eol = LF | CR | CRLF

  function Chars(e: Eol): string {
    match e
    case LF => "\n"
    case CR => "\r"
    case CRLF => "\r\n"
  }

  function DetectEol(s: string): Eol {
    var crlf := Count(s, "\r\n");
    var cr := Count(s, "\r") - crlf;
    var lf := Count(s, "\n") - crlf;
    if crlf > 0 && crlf >= lf && crlf >= cr then CRLF
    else if cr != 0 && cr > lf then CR
    else LF
  }

  function ToLf(s: string): string {
    Replace(Replace(s, "\r\n", "\n"), "\r", "\n")
  }

  function RestoreEol(s: string, e: Eol): string {
    if e == LF then s else Replace(s, "\n", Chars(e))
  }

  // ---------------------------------------------------------------- an independent reading of line endings

  /** The line endings of `s` in order: a carriage return directly before a line feed belongs to it. */
  function Endings(s: string): seq<Eol> {
    if s == "" then []
    else if s[0] == '\r' && |s| > 1 && s[1] == '\n' then [CRLF] + Endings(s[2..])
    else if s[0] == '\r' then [CR] + Endings(s[1..])
    else if s[0] == '\n' then [LF] + Endings(s[1..])
    else Endings(s[1..])
  }

  /** `s` with every line ending rewritten as `e`. */
  function Rewritten(s: string, e: Eol): string {
    if s == "" then ""
    else if s[0] == '\r' && |s| > 1 && s[1] == '\n' then Chars(e) + Rewritten(s[2..], e)
    else if s[0] == '\r' || s[0] == '\n' then Chars(e) + Rewritten(s[1..], e)
    else [s[0]] + Rewritten(s[1..], e)
  }

  function Tally(es: seq<Eol>, e: Eol): nat {
    if es == [] then 0 else Tally(es[1..], e) + if es[0] == e then 1 else 0
  }

  // ---------------------------------------------------------------- what to_lf and restore_eol look at

  lemma AtOne(s: string, c: char)
    requires s != ""
    ensures At(s, [c], 0) <==> s[0] == c
  {
  }

  lemma AtTwo(s: string, c: char, d: char)
    requires s != ""
    ensures At(s, [c, d], 0) <==> s[0] == c && |s| > 1 && s[1] == d
  {
    if |s| > 1 {
      assert s[0..2] == [s[0], s[1]];
    }
  }

  // ---------------------------------------------------------------- what to_lf and restore_eol compute

  lemma {:induction false} ToLfRewrites(s: string)
    ensures ToLf(s) == Rewritten(s, LF)
    decreases |s|
  {
    hide Replace, Count, At;
    if s == "" {
      ReplaceEmpty("\r\n", "\n");
      ReplaceEmpty("\r", "\n");
    } else {
      var t := Replace(s, "\r\n", "\n");
      AtTwo(s, '\r', '\n');
      ReplaceStep(s, "\r\n", "\n");
      AtOne(t, '\r');
      ReplaceStep(t, "\r", "\n");
      if s[0] == '\r' && |s| > 1 && s[1] == '\n' {
        ToLfRewrites(s[2..]);
        assert t[1..] == Replace(s[2..], "\r\n", "\n");
      } else {
        ToLfRewrites(s[1..]);
        assert t[1..] == Replace(s[1..], "\r\n", "\n");
      }
    }
  }

  lemma RewrittenStep(t: string, e: Eol)
    requires t != "" && '\r' !in t
    ensures Rewritten(t, e) == (if t[0] == '\n' then Chars(e) else [t[0]]) + Rewritten(t[1..], e)
  {
  }

  lemma RewrittenNil(e: Eol)
    ensures Rewritten("", e) == "" && Endings("") == []
  {
  }

  lemma {:induction false} RestoreRewrites(t: string, e: Eol)
    requires '\r' !in t
    ensures RestoreEol(t, e) == Rewritten(t, e)
    decreases |t|
  {
    hide Replace, Count, At, Rewritten;
    if t == "" {
      ReplaceEmpty("\n", Chars(e));
      RewrittenNil(e);
    } else {
      AtOne(t, '\n');
      ReplaceStep(t, "\n", Chars(e));
      RestoreRewrites(t[1..], e);
      RewrittenStep(t, e);
      assert e == LF ==> t == [t[0]] + t[1..];
    }
  }

  lemma {:induction false} RewriteTwice(s: string, f: Eol)
    ensures Rewritten(Rewritten(s, LF), f) == Rewritten(s, f)
    ensures '\r' !in Rewritten(s, LF)
    decreases |s|
  {
    if s != "" {
      var rest := if s[0] == '\r' && |s| > 1 && s[1] == '\n' then s[2..] else s[1..];
      RewriteTwice(rest, f);
      assert Rewritten(s, LF)[1..] == Rewritten(rest, LF);
    }
  }

  /** Rewriting with one kind of ending leaves only that kind, in the same number. */
  lemma {:induction false} RewrittenEndings(t: string, e: Eol)
    requires '\r' !in t
    ensures |Endings(Rewritten(t, e))| == |Endings(t)|
    ensures forall k :: 0 <= k < |Endings(Rewritten(t, e))| ==> Endings(Rewritten(t, e))[k] == e
    ensures Rewritten(Rewritten(t, e), LF) == t
    ensures Rewritten(t, e) != "" && Rewritten(t, e)[0] == '\n' ==> e == LF
    decreases |t|
  {
    if t != "" {
      RewrittenEndings(t[1..], e);
      var rest := Rewritten(t[1..], e);
      if t[0] == '\n' {
        var r := Chars(e) + rest;
        assert r[|Chars(e)|..] == rest;
        assert t == "\n" + t[1..];
      } else {
        assert ([t[0]] + rest)[1..] == rest;
        assert t == [t[0]] + t[1..];
      }
    }
  }

  // ---------------------------------------------------------------- the round trips

  /** Restoring any ending and normalizing again gives the text back, for text without carriage returns. */
  lemma RestoreThenToLf(t: string, e: Eol)
    requires '\r' !in t
    ensures ToLf(RestoreEol(t, e)) == t
  {
    hide Replace, Rewritten;
    RestoreRewrites(t, e);
    ToLfRewrites(Rewritten(t, e));
    RewrittenEndings(t, e);
  }

  lemma {:induction false} CountsAreTallies(s: string)
    ensures Count(s, "\r\n") == Tally(Endings(s), CRLF)
    ensures Count(s, "\r") == Tally(Endings(s), CR) + Tally(Endings(s), CRLF)
    ensures Count(s, "\n") == Tally(Endings(s), LF) + Tally(Endings(s), CRLF)
    decreases |s|
  {
    hide Replace, Count, At;
    if s == "" {
      ReplaceEmpty("\r\n", "");
      ReplaceEmpty("\r", "");
      ReplaceEmpty("\n", "");
    } else {
      CountSteps(s);
      if s[0] == '\r' && |s| > 1 && s[1] == '\n' {
        CountSteps(s[1..]);
        assert s[1..][1..] == s[2..];
        CountsAreTallies(s[2..]);
      } else {
        CountsAreTallies(s[1..]);
      }
    }
  }

  lemma CountSteps(s: string)
    requires s != ""
    ensures Count(s, "\r\n") == if s[0] == '\r' && |s| > 1 && s[1] == '\n' then 1 + Count(s[2..], "\r\n") else Count(s[1..], "\r\n")
    ensures Count(s, "\r") == Count(s[1..], "\r") + if s[0] == '\r' then 1 else 0
    ensures Count(s, "\n") == Count(s[1..], "\n") + if s[0] == '\n' then 1 else 0
  {
    hide Replace, Count, At;
    AtTwo(s, '\r', '\n');
    AtOne(s, '\r');
    AtOne(s, '\n');
    ReplaceStep(s, "\r\n", "");
    ReplaceStep(s, "\r", "");
    ReplaceStep(s, "\n", "");
  }

  /** Every line ending of `s` is of one kind. */
  predicate Uniform(s: string) {
    forall i, j :: 0 <= i < |Endings(s)| && 0 <= j < |Endings(s)| ==> Endings(s)[i] == Endings(s)[j]
  }

  lemma {:induction false} TallyUniform(es: seq<Eol>, e: Eol, f: Eol)
    requires forall i :: 0 <= i < |es| ==> es[i] == e
    ensures Tally(es, f) == if f == e then |es| else 0
  {
    if es != [] {
      TallyUniform(es[1..], e, f);
    }
  }

  /** Rewriting with the kind already in use changes nothing. */
  lemma {:induction false} RewriteSame(s: string, e: Eol)
    requires forall k :: 0 <= k < |Endings(s)| ==> Endings(s)[k] == e
    ensures Rewritten(s, e) == s
    decreases |s|
  {
    if s != "" {
      var n := if s[0] == '\r' && |s| > 1 && s[1] == '\n' then 2 else 1;
      forall k | 0 <= k < |Endings(s[n..])| ensures Endings(s[n..])[k] == e {
        if |Endings(s)| > |Endings(s[n..])| {
          assert Endings(s)[k + 1] == Endings(s[n..])[k];
        }
      }
      RewriteSame(s[n..], e);
      assert |Endings(s)| > |Endings(s[n..])| ==> Endings(s)[0] == e;
      assert s == s[..n] + s[n..];
    }
  }

  /** Every line ending of `s` is `e`. */
  predicate OnlyEndings(s: string, e: Eol) {
    forall k :: 0 <= k < |Endings(s)| ==> Endings(s)[k] == e
  }

  /** Rewriting leaves a text alone exactly when it has no other kind of ending. */
  lemma RewriteSameIff(s: string, e: Eol)
    ensures Rewritten(s, e) == s <==> OnlyEndings(s, e)
  {
    hide Endings, Rewritten;
    if OnlyEndings(s, e) {
      RewriteSame(s, e);
    }
    RewriteTwice(s, e);
    RewrittenEndings(Rewritten(s, LF), e);
  }

  lemma LfStays(t: string)
    requires '\r' !in t
    ensures ToLf(t) == t && Rewritten(t, LF) == t
  {
    hide Replace, Rewritten;
    ToLfRewrites(t);
    RestoreRewrites(t, LF);
  }

  lemma ToLfThenRestoreIs(s: string, e: Eol)
    ensures '\r' !in ToLf(s) && RestoreEol(ToLf(s), e) == Rewritten(s, e)
  {
    hide Replace, Rewritten;
    ToLfRewrites(s);
    RewriteTwice(s, e);
    RestoreRewrites(ToLf(s), e);
  }

  lemma DetectUniform(s: string, e: Eol)
    requires Endings(s) != [] && forall k :: 0 <= k < |Endings(s)| ==> Endings(s)[k] == e
    ensures DetectEol(s) == e
  {
    hide Count, Endings, Tally;
    CountsAreTallies(s);
    TallyUniform(Endings(s), e, CRLF);
    TallyUniform(Endings(s), e, CR);
    TallyUniform(Endings(s), e, LF);
  }

  /** The detected ending is CR LF if there is one and neither of the others is more frequent, else CR
      if it is more frequent than LF, else LF. */
  lemma DetectByFrequency(s: string)
    ensures var n := e => Tally(Endings(s), e);
            DetectEol(s) == if n(CRLF) > 0 && n(CRLF) >= n(LF) && n(CRLF) >= n(CR) then CRLF
                            else if n(CR) > n(LF) then CR
                            else LF
  {
    hide Count, Endings, Tally;
    CountsAreTallies(s);
  }

  /** Normalizing and restoring the detected ending returns the file unchanged exactly when it uses
      one kind of line ending throughout. */
  lemma RoundTripIffUniform(s: string)
    ensures RestoreEol(ToLf(s), DetectEol(s)) == s <==> Uniform(s)
  {
    hide Replace, Count, Endings, Rewritten, DetectEol;
    var e := DetectEol(s);
    ToLfThenRestoreIs(s, e);
    if Uniform(s) {
      if Endings(s) != [] {
        DetectUniform(s, Endings(s)[0]);
      }
      RewriteSame(s, e);
    }
    if Rewritten(s, e) == s {
      ToLfRewrites(s);
      RewriteTwice(s, e);
      RewrittenEndings(ToLf(s), e);
    }
  }

  /** The mark and the rest make up the file, and the mark is taken exactly when the file starts with one. */
  lemma BomRoundTrip(s: string)
    ensures StripBom(s).0 + StripBom(s).1 == s
    ensures StripBom(s).0 == [BOM] <==> s != "" && s[0] == BOM
  {
    if s != "" {
      assert s == [s[0]] + s[1..];
    }
  }

  // ---------------------------------------------------------------- cutting a file along its normalized text

  /** Every cut of the normalized text is the trace of a cut of the file that splits no line ending. */
  lemma {:induction false} CutAlong(s: string, n: nat) returns (k: nat)
    requires n <= |Rewritten(s, LF)|
    ensures k <= |s| && Endings(s) == Endings(s[..k]) + Endings(s[k..])
    ensures Rewritten(s[..k], LF) == Rewritten(s, LF)[..n] && Rewritten(s[k..], LF) == Rewritten(s, LF)[n..]
    decreases |s|
  {
    hide Rewritten, Endings;
    k := 0;
    if n == 0 {
      assert s[..0] == "" && s[0..] == s;
      RewrittenNil(LF);
    } else {
      RewrittenNil(LF);
      var step := if s[0] == '\r' && |s| > 1 && s[1] == '\n' then 2 else 1;
      CutStep(s, step, 0);
      var j := CutAlong(s[step..], n - 1);
      k := step + j;
      assert s[k..] == s[step..][j..];
      CutStep(s, step, j);
      var whole := Rewritten(s, LF);
      assert whole[..n] == whole[..1] + whole[1..][..n - 1] && whole[n..] == whole[1..][n - 1..];
    }
  }

  lemma CutStep(s: string, step: nat, j: nat)
    requires s != "" && step == (if s[0] == '\r' && |s| > 1 && s[1] == '\n' then 2 else 1)
    requires step + j <= |s|
    ensures |Rewritten(s, LF)| > 0 && Rewritten(s, LF)[1..] == Rewritten(s[step..], LF)
    ensures Rewritten(s[..step + j], LF) == Rewritten(s, LF)[..1] + Rewritten(s[step..][..j], LF)
    ensures var first := Endings(s)[..|Endings(s)| - |Endings(s[step..])|];
            && Endings(s) == first + Endings(s[step..])
            && Endings(s[..step + j]) == first + Endings(s[step..][..j])
  {
    hide Rewritten, Endings;
    var head := s[..step + j];
    assert head[0] == s[0] && (|head| > 1 ==> head[1] == s[1]);
    assert head[step..] == s[step..][..j];
    FirstStep(s, step);
    FirstStep(head, step);
  }

  /** What the first character, or the first CR LF, amounts to. */
  lemma FirstStep(s: string, step: nat)
    requires s != "" && step == (if s[0] == '\r' && |s| > 1 && s[1] == '\n' then 2 else 1)
    ensures Rewritten(s, LF) == (if s[0] == '\r' then "\n" else [s[0]]) + Rewritten(s[step..], LF)
    ensures Endings(s) == (if step == 2 then [CRLF] else if s[0] == '\r' then [CR] else if s[0] == '\n' then [LF] else [])
                          + Endings(s[step..])
  {
  }
}
