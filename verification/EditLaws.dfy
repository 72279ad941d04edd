// backend/editing/edit.py and recovery.py: which candidates count, which errors are raised, where a batch stops.
module EditLaws {
  import opened Wrappers
  import opened Text
  import opened Replacers
  import opened Edit

  // ---------------------------------------------------------------- the winning candidates

  /** How loose a layer is. */
  function Looseness(layer: Layer): nat {
    match layer
    case Simple => 0
    case CharNormalized => 1
    case EscapeNormalized => 2
    case IndentationFlexible => 3
    case LineTrimmed => 4
    case TrimmedBoundary => 5
    case WhitespaceNormalized => 6
    case ContextAware => 7
    case BlockAnchor => 8
  }

  /** The layer yields `m`, which is not empty and stands in the content. */
  ghost predicate Offers(layer: Layer, ratio: Ratio, content: string, find: string, m: string) {
    m in Candidates(layer, ratio, content, find) && m != "" && exists q :: At(content, m, q)
  }

  /** The layer yields `x` before it first yields `y`. */
  ghost predicate YieldsFirst(cands: seq<string>, x: string, y: string) {
    exists k :: 0 <= k < |cands| && cands[k] == x && y !in cands[..k + 1]
  }

  lemma OccursIffAt(s: string, m: string)
    ensures Occurs(s, m) <==> exists q :: At(s, m, q)
  {
    forall q | At(s, m, q) ensures Occurs(s, m) {
    }
  }

  lemma OffersIff(layer: Layer, ratio: Ratio, content: string, find: string)
    ensures forall m :: m in Usable(layer, ratio, content, find) <==> Offers(layer, ratio, content, find, m)
  {
    hide Candidates, Occurs, At;
    forall m: string ensures Occurs(content, m) <==> exists q :: At(content, m, q) {
      OccursIffAt(content, m);
    }
  }

  lemma {:induction false} SeenInOrder(content: string, cands: seq<string>, i: nat, j: nat)
    requires i < j < |FirstSeen(content, cands)|
    ensures YieldsFirst(cands, FirstSeen(content, cands)[i], FirstSeen(content, cands)[j])
  {
    hide Occurs;
    var n := |cands| - 1;
    var seen := FirstSeen(content, cands[..n]);
    var x, y := FirstSeen(content, cands)[i], FirstSeen(content, cands)[j];
    if j < |seen| {
      SeenInOrder(content, cands[..n], i, j);
      var k :| 0 <= k < n && cands[..n][k] == x && y !in cands[..n][..k + 1];
      assert cands[..n][..k + 1] == cands[..k + 1];
    } else {
      assert x in seen && y == cands[n] && y !in seen;
      var k :| 0 <= k < n && cands[..n][k] == x;
      assert y !in cands[..n];
      var front := cands[..k + 1];
      forall m | 0 <= m < |front| ensures front[m] != y {
        assert front[m] == cands[..n][m];
      }
    }
  }

  lemma ListedAt(w: nat)
    requires w < |REPLACERS|
    ensures Looseness(REPLACERS[w]) == w
  {
  }

  lemma LayerListed(layer: Layer)
    ensures Looseness(layer) < |REPLACERS| && REPLACERS[Looseness(layer)] == layer
  {
  }

  /** The class is all that the strictest layer with anything to offer has to offer, each text once and
      in the order in which the layer first yields it. */
  lemma ClassExact(ratio: Ratio, content: string, find: string)
    ensures var c := EquivalenceClass(ratio, content, find);
            && (c.layer.None? <==> forall layer, m :: !Offers(layer, ratio, content, find, m))
            && (c.layer.Some? ==>
                 && (forall m :: m in c.matches <==> Offers(c.layer.value, ratio, content, find, m))
                 && (forall layer, m :: Looseness(layer) < Looseness(c.layer.value) ==> !Offers(layer, ratio, content, find, m))
                 && (forall i, j :: 0 <= i < j < |c.matches| ==>
                       && c.matches[i] != c.matches[j]
                       && YieldsFirst(Candidates(c.layer.value, ratio, content, find), c.matches[i], c.matches[j])))
  {
    hide Candidates, FirstSeen, Offers, YieldsFirst, ClassFrom, Looseness, Usable;
    ClassWinner(ratio, content, find, REPLACERS);
    forall layer: Layer, m | Offers(layer, ratio, content, find, m) ensures Usable(layer, ratio, content, find) != [] {
      OffersIff(layer, ratio, content, find);
    }
    forall layer: Layer ensures Looseness(layer) < |REPLACERS| && REPLACERS[Looseness(layer)] == layer {
      LayerListed(layer);
    }
    var c := EquivalenceClass(ratio, content, find);
    if c.layer.Some? {
      var w: nat :| WinsAt(ratio, content, find, REPLACERS, w)
                    && c == Class(Some(REPLACERS[w]), Usable(REPLACERS[w], ratio, content, find));
      ListedAt(w);
      OffersIff(REPLACERS[w], ratio, content, find);
      assert Offers(REPLACERS[w], ratio, content, find, c.matches[0]) by { assert c.matches[0] in c.matches; }
      InOrder(REPLACERS[w], ratio, content, find);
    } else {
      forall layer: Layer, m: string ensures !Offers(layer, ratio, content, find, m) {
        assert Usable(REPLACERS[Looseness(layer)], ratio, content, find) == [];
      }
    }
  }

  lemma InOrder(layer: Layer, ratio: Ratio, content: string, find: string)
    ensures var r := Usable(layer, ratio, content, find);
            forall i, j :: 0 <= i < j < |r| ==> r[i] != r[j] && YieldsFirst(Candidates(layer, ratio, content, find), r[i], r[j])
  {
    hide Candidates, YieldsFirst;
    var cands := Candidates(layer, ratio, content, find);
    forall i: nat, j: nat | i < j < |FirstSeen(content, cands)|
      ensures YieldsFirst(cands, FirstSeen(content, cands)[i], FirstSeen(content, cands)[j])
    {
      SeenInOrder(content, cands, i, j);
    }
  }

  // ---------------------------------------------------------------- errors

  lemma {:induction false} TotalConcat(content: string, a: seq<string>, b: seq<string>)
    requires NoneEmpty(a) && NoneEmpty(b)
    ensures Total(content, a + b) == Total(content, a) + Total(content, b)
    decreases |b|
  {
    hide Count;
    if b == [] {
      assert a + b == a;
    } else {
      TotalConcat(content, a, b[..|b| - 1]);
      assert (a + b)[..|a + b| - 1] == a + b[..|b| - 1];
    }
  }

  /** Every outcome of a replacement, by what the caller asked for and what the layers offer. */
  lemma OutcomesExact(ratio: Ratio, content: string, oldString: string, newString: string, all: bool)
    ensures var r, c := Replacement(ratio, content, oldString, newString, all), EquivalenceClass(ratio, content, oldString);
            && (r == Failure(EmptyOld) <==> oldString == "")
            && (r == Failure(SameStrings) <==> oldString == newString != "")
            && (r == Failure(NotFound) <==>
                 oldString != "" && oldString != newString && forall layer, m :: !Offers(layer, ratio, content, oldString, m))
            && (r == Failure(NotUnique(Total(content, c.matches), |c.matches|)) <==>
                 && !all && oldString != "" && oldString != newString
                 && (exists layer, m :: Offers(layer, ratio, content, oldString, m))
                 && forall cut :: !UniqueCut(ratio, content, oldString, cut))
            && (r.Success? <==>
                 && oldString != "" && oldString != newString
                 && (exists layer, m :: Offers(layer, ratio, content, oldString, m))
                 && (all || exists cut :: UniqueCut(ratio, content, oldString, cut)))
  {
    hide Offers, UniqueCut, EquivalenceClass, Looseness, ReplaceEach, ReplFor, Total;
    ClassExact(ratio, content, oldString);
    SingleEditSucceeds(ratio, content, oldString, newString);
    var c := EquivalenceClass(ratio, content, oldString);
    if c.layer.Some? {
      assert Offers(c.layer.value, ratio, content, oldString, c.matches[0]);
    }
  }

  // ---------------------------------------------------------------- skipping

  /** An edit counts as made already exactly when the new text is more than whitespace, cutting the
      content at it leaves two pieces, and the old text stands nowhere. */
  lemma SkipIff(content: string, oldText: string, newText: string)
    ensures IdempotentSkip(content, oldText, newText)
            <==> && (exists i :: 0 <= i < |newText| && !IsSpace(newText[i]))
                 && |Pieces(content, newText)| == 2
                 && forall q :: !At(content, oldText, q)
  {
    hide Count, IsSpace, At, Pieces;
    OccursIffAt(content, oldText);
    if newText != "" {
      ReplaceIsGlue(content, newText, "");
    }
  }

  /** The state of a batch in front of edit `k`. */
  ghost predicate Reaches(ratio: Ratio, content: string, edits: seq<Pair>, k: nat, text: string)
    requires k <= |edits|
  {
    exists o, texts, flags :: Folds(ratio, content, edits[..k], o, texts, flags) && o.text == text
  }

  lemma {:induction false} FailsAt(ratio: Ratio, edits: seq<Pair>, i: nat, o: Outcome)
      returns (k: nat, texts: seq<string>, flags: seq<bool>, cause: EditError)
    requires i <= |edits| && BatchFrom(ratio, edits, i, o).Failure?
    ensures i <= k < |edits| && BatchFrom(ratio, edits, i, o) == Failure(AtEdit(k + 1, |edits|, cause))
    ensures |texts| == k - i + 1 && |flags| == k - i && texts[0] == o.text
    ensures forall m :: 0 <= m < |flags| ==> BatchStep(ratio, texts[m], edits[i + m], texts[m + 1], flags[m])
    ensures Replacement(ratio, texts[k - i], edits[k].oldText, edits[k].newText, false) == Failure(cause)
    ensures !IdempotentSkip(texts[k - i], edits[k].oldText, edits[k].newText)
    decreases |edits| - i
  {
    hide Replacement, IdempotentSkip;
    var e := edits[i];
    var one := Replacement(ratio, o.text, e.oldText, e.newText, false);
    if one.Failure? && !IdempotentSkip(o.text, e.oldText, e.newText) {
      k, texts, flags, cause := i, [o.text], [], one.error;
    } else {
      var next := if one.Success? then Outcome(one.value, o.applied + 1, o.skipped)
                  else Outcome(o.text, o.applied, o.skipped + 1);
      var ts, fs;
      k, ts, fs, cause := FailsAt(ratio, edits, i + 1, next);
      texts, flags := [o.text] + ts, [one.Success?] + fs;
      forall m | 0 <= m < |flags| ensures BatchStep(ratio, texts[m], edits[i + m], texts[m + 1], flags[m]) {
        if m > 0 {
          assert BatchStep(ratio, ts[m - 1], edits[i + 1 + (m - 1)], ts[m], fs[m - 1]);
        }
      }
    }
  }

  lemma ReachesBy(ratio: Ratio, content: string, edits: seq<Pair>, k: nat, texts: seq<string>, flags: seq<bool>)
    requires k <= |edits| && |texts| == k + 1 && |flags| == k && texts[0] == content
    requires forall m :: 0 <= m < k ==> BatchStep(ratio, texts[m], edits[m], texts[m + 1], flags[m])
    ensures Reaches(ratio, content, edits, k, texts[k])
  {
    hide BatchStep;
    CountTrueBound(flags);
    var o := Outcome(texts[k], CountTrue(flags), k - CountTrue(flags));
    forall m | 0 <= m < k ensures BatchStep(ratio, texts[m], edits[..k][m], texts[m + 1], flags[m]) {
    }
    assert Folds(ratio, content, edits[..k], o, texts, flags);
  }

  lemma {:induction false} CountTrueBound(flags: seq<bool>)
    ensures CountTrue(flags) <= |flags|
  {
    if flags != [] {
      CountTrueBound(flags[1..]);
    }
  }

  /** A batch fails at edit `k`, with the position counted from one, exactly when the edits before it
      lead to a text on which that edit fails and is not skipped. */
  lemma BatchFailsIff(ratio: Ratio, content: string, edits: seq<Pair>, k: nat, cause: EditError)
    requires k < |edits|
    ensures Batch(ratio, content, edits) == Failure(AtEdit(k + 1, |edits|, cause))
            <==> exists text :: Reaches(ratio, content, edits, k, text)
                                && Replacement(ratio, text, edits[k].oldText, edits[k].newText, false) == Failure(cause)
                                && !IdempotentSkip(text, edits[k].oldText, edits[k].newText)
  {
    hide Replacement, IdempotentSkip, BatchFrom, BatchStep, Reaches;
    var start := Outcome(content, 0, 0);
    if Batch(ratio, content, edits) == Failure(AtEdit(k + 1, |edits|, cause)) {
      var at, texts, flags, error := FailsAt(ratio, edits, 0, start);
      forall m | 0 <= m < k ensures BatchStep(ratio, texts[m], edits[m], texts[m + 1], flags[m]) {
        assert BatchStep(ratio, texts[m], edits[0 + m], texts[m + 1], flags[m]);
      }
      ReachesBy(ratio, content, edits, k, texts, flags);
    }
    forall text | Reaches(ratio, content, edits, k, text)
                  && Replacement(ratio, text, edits[k].oldText, edits[k].newText, false) == Failure(cause)
                  && !IdempotentSkip(text, edits[k].oldText, edits[k].newText)
      ensures Batch(ratio, content, edits) == Failure(AtEdit(k + 1, |edits|, cause))
    {
      StopsAt(ratio, content, edits, k, text, cause);
    }
  }

  lemma StopsAt(ratio: Ratio, content: string, edits: seq<Pair>, k: nat, text: string, cause: EditError)
    requires k < |edits| && Reaches(ratio, content, edits, k, text)
    requires Replacement(ratio, text, edits[k].oldText, edits[k].newText, false) == Failure(cause)
    requires !IdempotentSkip(text, edits[k].oldText, edits[k].newText)
    ensures BatchFrom(ratio, edits, 0, Outcome(content, 0, 0)) == Failure(AtEdit(k + 1, |edits|, cause))
  {
    hide Replacement, IdempotentSkip, BatchStep;
    var start := Outcome(content, 0, 0);
    var o, texts, flags :| Folds(ratio, content, edits[..k], o, texts, flags) && o.text == text;
    forall m | 0 <= m < k ensures BatchStep(ratio, texts[m], edits[..k][0 + m], texts[m + 1], flags[m]) {
    }
    FoldRuns(ratio, edits[..k], 0, start, texts, flags);
    BatchSplits(ratio, edits[..k], edits[k..], 0, start);
    assert edits[..k] + edits[k..] == edits;
  }
}
