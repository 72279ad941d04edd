# Verified model of the collaborator's editing, compaction and protocol core

This project models the parts of the backend that decide what an AI edit does to a file, how a
conversation is shortened, and how a handful of small protocols keep their promises, and proves
properties of them for all inputs and all runs.

| file | models | main results |
|---|---|---|
| `Wrappers.dfy` | values that may be missing, computations that may fail | |
| `Text.dfy` | the Python string operations the code relies on | counting without overlap, split and join, decimal numerals |
| `Normalize.dfy` | normalized text with a map back to source positions | cutting the source and cutting the normal form agree; spans are sound and complete |
| `Replacers.dfy`, `LayerLaws.dfy` | the nine locators, strict to loose | every candidate is real; what each layer compares, and exactly what it yields; the strictness chain |
| `Indent.dfy` | re-indentation and quote restoration | exact shift, round trip, unchanged normal form |
| `Edit.dfy`, `EditLaws.dfy` | one replacement, replace-all, batches | one span changes, and what takes its place; edits commute with normalization; every outcome; a batch is a left fold |
| `AllAtOnce.dfy`, `PassesInterfere.dfy` | the passes of replace-all in the character layer | exactly when they are one left-to-right replacement |
| `LineEndings.dfy`, `FileEdit.dfy` | byte-order mark and line endings, and the edit between reading a file and writing it | round trip exactly for uniform text; exactly when the bytes outside the span survive |
| `Hashline.dfy`, `AnchorLaws.dfy` | edits addressed by content-hash anchors | what anchors name; drift, order independence; where every line comes out |
| `Tokens.dfy` | the incremental token cache | the cached estimate is the direct sum in every run |
| `Compaction.dfy`, `CompactionLaws.dfy` | the cut, clearing, snipping, the retry loop, the circuit breaker | tool groups stay whole; retries shrink; how far overlapping calls can push the failure counter, and when an open circuit stays open |
| `Replay.dfy` | connecting, broadcasting and replaying | no gap after a reconnect, and exact multiplicities |
| `ClaudeMessages.dfy` | OpenAI-format messages to Claude format | the stream of blocks and speakers is preserved |
| `JsonCloser.dfy` | closing truncated JSON | clean rescan, bracket kinds, shortest completion, when repairing twice is repairing once |
| `Plugins.dfy` | plugin registrations, disposers, once-hooks | exactly which disposal orders restore the registry, and which handlers come back |
| `McpBridge.dfy` | matching tool calls with results | correlation over every run; the first result wins |
| `Artifacts.dfy` | artifact registration, lifecycle and lineage | exactly when links stay acyclic, complete lineage, forward lifecycle |

Code that loops or updates state is modelled by methods and classes; each is proved equal to a
specification function, and the lemmas are about those functions. `difflib`'s ratio, SHA-1 and the
JSON parser are parameters: every theorem holds for any such function, under the assumptions it states
(seven lower-case hexadecimal digits for a line hash).

Where the code and its own description differ, the model follows the code:

- The comments of `normalize.py` say that Unicode spaces are folded into ASCII spaces. The keys of the
  space table are the ASCII space and U+3000 only, so the no-break space is left alone
  (`Normalize.FoldedToSpace`); a looser layer
  catches it only where whole lines are searched for, by trimming them or collapsing runs of whitespace.
- Uniqueness of a match is judged by non-overlapping counting, so a candidate that begins the way it
  ends can pass the test at two places (`Edit.UniqueCountNotUniquePosition` says exactly when).
- Replace-all runs one pass for each distinct candidate, over what the passes before it have left. In the
  character layer this is one replacement of all candidates only if the old text cannot overlap itself, the
  new text or a seam, or has at most two forms (`PassesInterfere.AllAtOnceIff`; `Edit.LaterPassRewrites`
  is an input where it is not).
- `recovery.py` describes skipping as what follows a text that was not found. The code also skips an edit
  whose old text was ambiguous in a looser layer, as long as it does not occur literally
  (`Edit.SkipAfterAmbiguous`; `Edit.SkipCause` says when which happens).
- `edit_file` means to keep a file's line endings. It reads and writes in text mode, so the endings are
  gone before they are detected, and every ending of the file it writes is the host's
  (`FileEdit.WrittenEndings`). On a host with LF, editing a CR LF file loses every carriage return
  (`FileEdit.CrLfLostOnLfHost`); the bytes outside the span survive exactly when the endings there are
  the host's (`FileEdit.FileKeepsBytesIff`).
- The circuit breaker is meant to stop after three failures in a row. The check and the record stand on
  both sides of the awaited model calls, and calls of one group can overlap: then the counter can go past
  three (`Compaction.OverlapReachesBound`) and a late success closes an open circuit
  (`Compaction.LateSuccessReopens`). Without overlap it does what it is meant to (`Compaction.SerialCallsTrip`).
- `snip_if_needed` promises not to orphan tool results. It looks only between the user and the assistant
  message, so results behind the removed assistant message are orphaned, unless an earlier one made the same calls
  (`Compaction.SnipOrphansIff`).
- The line number of an anchor does not follow its line: in a file that has changed, a printed anchor
  finds a line with its hash if that is the only one or stands at the printed number, whichever line it
  was printed for (`Hashline.PrintedAnchorDrifts`).
- A nested registration scope whose tool the outer scope overrides again is not undone by disposing the
  inner scope first (`Plugins.NestedOverrideStays`; `Plugins.NestedRestoresIff` says exactly when it is).
- Undo puts tool definitions back, not the handlers in them: a definition that is registered again with
  another handler keeps it (`Plugins.ReusedDefinitionKeepsHandler`; `Plugins.HandlerBackIff`).
- Rediscovery disposes plugins in loading order. An override of another plugin's tool then survives
  (`Plugins.LoadOrderRestoresIff`).
- The closer of truncated JSON lets a backslash escape outside strings too, unlike section 7 of RFC 8259
  (`JsonCloser.RepairNotCleanForJson`); on text whose backslashes are all inside strings it makes no difference.
- Artifact links point to older artifacts, unless a purged id is registered again: links that still name
  it can then lead back to it (`Artifacts.ReuseClosesCycle`; `Artifacts.AcyclicIffNoLoop` says exactly when).
- Repairing the repaired text can change it again: a dropped backslash may leave whitespace at the end
  (`JsonCloser.RepairTwiceExample`; `JsonCloser.RepairTwiceIff` says exactly when).

## Model

| member | source | states |
|---|---|---|
| Normalize.NormalizeText | backend/editing/normalize.py:27-45 | the loop over positions produces the text and the position map of the token-by-token reading |
| Normalize.SrcIncreasing | backend/editing/normalize.py:27-45 | the position map is strictly increasing and stays within the source |
| Normalize.SliceNormalizes | backend/editing/normalize.py:1-16 | for all a <= b, normalizing the source slice between mapped positions a and b gives the slice a..b of the normalized text, in spite of the one-character lookahead of escapes |
| Normalize.CutsNormalize | backend/editing/normalize.py:1-16 | cutting the source at two mapped positions cuts its normal form into the normal forms of the three parts |
| Normalize.IterSpans | backend/editing/normalize.py:48-61 | the search loop yields the spans of all occurrences, overlapping ones included, in order |
| Normalize.SpanSound | backend/editing/normalize.py:48-61 | every span lies between mapped positions and its source text has the normal form of the search text |
| Normalize.SpanComplete | backend/editing/normalize.py:48-61 | every token-aligned source slice with the normal form of the search text is yielded |
| Normalize.SpanSplits | backend/editing/normalize.py:48-61 | around a span, the normal form of the content is prefix, search text, suffix, each normalized |
| Normalize.CharNormal | backend/editing/normalize.py:79-91 | the character layer keeps the length, folds position by position and maps each position to itself |
| Normalize.CharTable | backend/editing/normalize.py:66-91 | the character form turns the eight quotes, seven dashes and the wide space into their ASCII counterparts, position by position, and leaves every other character alone |
| Normalize.CharSpansExact | backend/editing/normalize.py:101-101 | in the character layer a substring is yielded if and only if it has the normal form of the search text |
| Normalize.EscapeSkipsUnaligned | backend/editing/normalize.py:94-98 | an equivalent substring that starts inside an escape is not yielded |
| Normalize.EscapeReads | backend/editing/normalize.py:76-98 | read from the left, a backslash with one of the eight known characters becomes what it stands for; any other character stays, a backslash that escapes nothing included |
| Normalize.SpansSorted | backend/editing/normalize.py:48-61 | spans are yielded from left to right, none twice |
| Normalize.FoldedToSpace | backend/editing/normalize.py:72-75 | exactly the ASCII space and U+3000 fold to a space; the no-break space does not |
| Replacers.LineStarts | backend/editing/replacers.py:21-27 | each line's start is the total length of the lines and newlines before it |
| Replacers.LineWindow | backend/editing/replacers.py:79-80 | slicing from the start of line i to the end of line j gives the newline-join of the lines i to j |
| Replacers.TrimBoundary | backend/editing/replacers.py:99-103 | the two popping loops remove exactly the blank lines at both ends |
| Replacers.ScanWindows | backend/editing/replacers.py:91-94 | the window loop yields the joined text of every accepted window, in order |
| Replacers.ScanBlocks | backend/editing/replacers.py:163-169 | each line that trims to the first anchor yields the block up to the nearest later line that trims to the last |
| Replacers.RunReplacer | backend/editing/replacers.py:174-184 | running a layer yields its candidates, early returns included |
| Replacers.WindowLayerYields | backend/editing/replacers.py:67-146 | a candidate of a window layer is the join of as many consecutive lines as the pattern has, and the layer accepts that window |
| Replacers.BlockLayerYields | backend/editing/replacers.py:149-169 | a block candidate is a line window of at least two lines between the two anchors, with no closing anchor inside |
| Replacers.LineLayersYieldWindows | backend/editing/replacers.py:67-169 | all six line-based layers yield the newline-join of consecutive lines |
| Replacers.SpanLayersYieldEquivalents | backend/editing/replacers.py:49-64 | the character and escape layers yield source slices with the normal form of the search text |
| Replacers.CandidatesAreReal | backend/editing/replacers.py:3-5 | whatever layer yields it, a candidate is a substring of the content |
| Replacers.IndentationImpliesTrimmed | backend/editing/replacers.py:67-94 | a window accepted with the common indent ignored is accepted with every line trimmed |
| Replacers.NormIsScan | backend/editing/replacers.py:117-118 | collapsing whitespace and stripping equals a one-pass reading that puts one space between words |
| Replacers.TrimmedImpliesWhitespace | backend/editing/replacers.py:83-129 | a window accepted with every line trimmed is accepted with whitespace collapsed |
| Replacers.TrimmedImpliesContext | backend/editing/replacers.py:132-146 | and is accepted by fuzzy comparison when equal strings are rated similar |
| Replacers.StrictnessChain | backend/editing/replacers.py:174-184 | indentation-flexible candidates are line-trimmed candidates, and those are whitespace-normalized candidates when the search text is not blank |
| LayerLaws.AcceptsIff | backend/editing/replacers.py:67-146 | what each window layer lets through, for every window: the same lines behind the least indentation of either side; the same cores line by line; the same one-pass reading; or a rating of at least 0.9 of the joined cores, search text first |
| LayerLaws.StripIff | backend/editing/replacers.py:85-85 | trimming is the only way to take the whitespace off both ends |
| LayerLaws.SpaceTable | backend/editing/replacers.py:117-118 | the 29 characters that count as whitespace |
| LayerLaws.WidthIff | backend/editing/edit.py:50-53 | the indentation of a line is its leading spaces and tabs, one column each |
| LayerLaws.LeastWidthIff | backend/editing/replacers.py:34-40 | the common indent is the least indentation of a line that is not blank, and zero without one |
| LayerLaws.BoundaryLines | backend/editing/replacers.py:98-105 | the boundary layer looks for the lines from the first that is not blank to the last |
| LayerLaws.SearchLines | backend/editing/replacers.py:30-31 | the other line layers look for the lines of the search text without its final newline |
| LayerLaws.WindowLayerExact | backend/editing/replacers.py:67-146 | a window layer yields exactly the windows it accepts, in the order of their lines, and nothing where it returns early |
| LayerLaws.BlockLayerExact | backend/editing/replacers.py:149-169 | the anchor layer yields exactly one block for each line with the first core that has a line with the last core behind it, up to the nearest of those, in order |
| LayerLaws.SpanLayerExact | backend/editing/replacers.py:43-64 | the literal layer yields the search text if it occurs; the character and escape layers yield the slice at each span |
| Indent.Reindent | backend/editing/edit.py:78-93 | the loops shift each non-blank line, to the left no further than its indentation |
| Indent.ReindentRoundTrip | backend/editing/edit.py:78-93 | shifting right by d and left by d restores every text |
| Indent.ReindentShiftsExactly | backend/editing/edit.py:78-93 | for every shift: as many lines, blank lines kept, every other line moved by the shift, to the left no further than its indentation, with spaces coming in and the rest of the line unchanged; while the shift is not below minus the common indent, the common indent moves by exactly the shift |
| Indent.InsertedBlockTakesMatchedIndent | backend/editing/edit.py:128-130 | when new and old text share a common indent, the shifted new text has the common indent of the matched block |
| Indent.PreserveQuoteStyle | backend/editing/edit.py:56-75 | the loop restyles each straight quote by what stands before it |
| Indent.QuotesKeepNormalForm | backend/editing/edit.py:56-75 | quote restoration keeps length and character-normal form and touches straight quotes only |
| Indent.QuotesRestored | backend/editing/edit.py:56-75 | a straight quote of a kind the match has in curly form opens at the start and behind whitespace or an opening bracket and closes elsewhere; every other character stays |
| Edit.FindClass | backend/editing/edit.py:31-47 | the nested loops return the first layer with a usable candidate and all its distinct candidates |
| Edit.ClassWinner | backend/editing/edit.py:31-47 | the winner is the strictest layer with a usable candidate, all stricter ones have none, and the class is all of its usable candidates |
| Edit.ClassIsReal | backend/editing/edit.py:41-44 | class members are non-empty and occur in the content |
| EditLaws.ClassExact | backend/editing/edit.py:31-47 | the class is all that the strictest layer with anything to offer has to offer, each text once and in the order in which the layer first yields it; there is none if and only if no layer offers anything |
| Edit.ApplyReplacement | backend/editing/edit.py:96-140 | the checks, the total, the replace-all loop and the single replacement, with every error |
| Edit.SingleEditFrame | backend/editing/edit.py:110-140 | a successful single edit had one distinct candidate with one non-overlapping occurrence, replaced that occurrence and kept everything before and after it |
| Edit.SingleEditSucceeds | backend/editing/edit.py:105-120 | a single edit succeeds if and only if the old text is neither empty nor the new one and the content can be cut at such a unique candidate |
| Edit.SingleEditInserts | backend/editing/edit.py:122-140 | a successful single edit puts in place of the match: the new text as it stands (literal, escape and whitespace layers), the new text with the quotes of the match (character layer), or the new text with every line moved by the indent of the match minus that of the old text (the five layers that ignore indentation) |
| EditLaws.OutcomesExact | backend/editing/edit.py:105-120 | which error is raised, or none, by what the caller asked for and what the layers offer |
| EditLaws.TotalConcat | backend/editing/edit.py:114-115 | the count that is reported adds up over the candidates |
| Edit.LiteralEdit | backend/editing/edit.py:110-140 | an old text that occurs literally is replaced as it stands by the new text as it stands if it is counted once, and refused with its count otherwise |
| Edit.MatchesOverlap | backend/editing/edit.py:114-120 | any other occurrence of the accepted candidate overlaps the replaced one |
| Edit.CharEditCommutes | backend/editing/edit.py:110-140 | when the character layer wins, N(content) = N(p) + N(old) + N(s), N(result) = N(p) + N(new) + N(s), and the length changes by the difference of old and new |
| Edit.EditKeepsBlockIndent | backend/editing/edit.py:122-140 | when a layer that ignores indentation wins and the new text has the common indent of the old one, the block put in place has the common indent of the block taken out |
| Edit.UniqueCountNotUniquePosition | backend/editing/edit.py:114-120 | a candidate can be counted once and still occur at two places if and only if it starts with something it ends with |
| Edit.ReplaceAllOfOne | backend/editing/edit.py:135-139 | with one distinct candidate, replace-all keeps the pieces between its occurrences and puts what a single edit would put in place of each |
| Edit.ReplaceAllIsChain | backend/editing/edit.py:135-139 | with several, it is a chain of such passes, one for each candidate in order of first appearance, each over what the pass before left and with what a single edit would put in place of its candidate |
| Edit.LaterPassRewrites | backend/editing/edit.py:135-139 | an input where a later pass rewrites what an earlier one put in, so the passes are not one simultaneous replacement |
| AllAtOnce.AllAtOnce | backend/editing/edit.py:110-139 | when the normal form of the old text has no border and can overlap neither that of the new text nor a seam it leaves, or when at most two texts have this form, replace-all in the character layer is one left-to-right replacement, each occurrence with its own quotes restored, and N(result) is N(content) with N(old) replaced by N(new) |
| PassesInterfere.AllAtOnceIff | backend/editing/edit.py:110-139 | and only then: for any normal forms u of the old and v of the new text, replace-all is N(content) with u replaced by v for all such texts and contents if and only if u is v or the condition above holds |
| PassesInterfere.BorderedFails | backend/editing/edit.py:135-139 | a normal form of at least three texts that can overlap itself: whatever other form is put in place of it, some content comes out as no single replacement would leave it |
| PassesInterfere.TouchFails | backend/editing/edit.py:135-139 | a normal form of at least three texts that occurs in what is put in place of it, or has no border and can overlap it or its seam: some content has an occurrence made by one pass and taken by a later one |
| Edit.ApplyBatch | backend/editing/edit.py:143-164 | the batch loop, with the index of the failing edit |
| Edit.BatchIsFold | backend/editing/edit.py:143-164 | a batch succeeds with an outcome if and only if there are edits and a chain of texts leads from the content to the outcome, each step a successful single edit or a skip that leaves the text alone; applied counts the former and applied + skipped is the number of edits |
| Edit.BatchSplits | backend/editing/edit.py:146-148 | running a batch is running its first part and then the rest on what that left; a failing first part fails the whole |
| EditLaws.BatchFailsIff | backend/editing/edit.py:153-163 | a batch fails at an edit, named by its position from one, if and only if the edits before it lead to a text on which it fails and is not skipped |
| Edit.SkipCause | backend/editing/recovery.py:12-21 | when the new text is not blank and stands there exactly once and the old text not literally, the edit is skipped after NotFound if and only if no layer has a candidate, skipped after NotUnique if and only if the winning layer counts more than one, and applied otherwise |
| EditLaws.SkipIff | backend/editing/recovery.py:12-21 | an edit counts as made already if and only if the new text is more than whitespace, cuts the content into two pieces, and the old text stands nowhere |
| Edit.SkipAfterAmbiguous | backend/editing/edit.py:157-162 | a batch whose only edit fails as ambiguous and is skipped all the same |
| LineEndings.ToLfRewrites | backend/editing/eol.py:31-33 | the two replacements turn each line ending, read left to right, into one line feed |
| LineEndings.RestoreThenToLf | backend/editing/eol.py:31-38 | for text without carriage returns, normalizing after restoring any ending gives the text back |
| LineEndings.CountsAreTallies | backend/editing/eol.py:19-23 | the three counts are the numbers of CRLF, CR and LF endings |
| LineEndings.DetectByFrequency | backend/editing/eol.py:19-28 | the detected ending is CR LF if there is one and neither of the others is more frequent, else CR if it is more frequent than LF, else LF |
| LineEndings.RoundTripIffUniform | backend/editing/eol.py:19-38 | normalizing and restoring the detected ending returns the file unchanged if and only if it uses one kind of ending throughout |
| LineEndings.BomRoundTrip | backend/editing/eol.py:14-16 | mark and rest make up the text, and the mark is taken exactly when the text starts with one |
| FileEdit.EditKeepsOtherText | backend/editing/tests/test_edit.py:133-140 | on a text with uniform endings, stripping the mark, matching on LF endings and restoring keeps the mark and everything outside the edited span |
| FileEdit.WrittenEndings | backend/workspace/__init__.py:409-445 | whatever was asked for, the file written has the host's line ending throughout and reads back as mark and updated text |
| FileEdit.OneOutcome | backend/workspace/__init__.py:409-447 | when one replacement is refused, taken for done, without effect, or written, and what is written |
| FileEdit.ManyOutcome | backend/workspace/__init__.py:418-447 | the same for a batch: refused as a whole, without effect, or written once, with every old and new text read as the file is |
| FileEdit.FileKeepsBytesIff | backend/workspace/__init__.py:409-447 | a single edit cuts the file between line endings into before, match and after, and before and after are written back byte for byte if and only if their endings are the host's |
| FileEdit.CrLfLostOnLfHost | backend/workspace/__init__.py:414-415 | a CR LF file that loses its carriage returns on a host with LF, though the same edit of the same text keeps them |
| Hashline.ParsePrinted | backend/editing/hashline.py:40-45 | a printed anchor parses to its line number and hash |
| AnchorLaws.ParseAnchorIff | backend/editing/hashline.py:10-45 | a text is an anchor if and only if it has the parts of the pattern, and then names the number its digits write and its hash in small letters |
| Hashline.AnnotateLines | backend/editing/hashline.py:34-37 | the view has one line per body line: L, its number, a hash sign, its hash, a bar and the line |
| Hashline.PrintedAnchorResolves | backend/editing/hashline.py:65-77 | every printed anchor resolves to its own line even when hashes collide |
| AnchorLaws.ResolveIff | backend/editing/hashline.py:63-77 | every outcome of looking an anchor up: malformed, stale if no line has its hash, the line that is the only one with it or has the number, ambiguous otherwise |
| Hashline.ApplyAnchoredEdits | backend/editing/hashline.py:48-101 | index, placement, rendering and the trailing newline, with every error in order |
| AnchorLaws.OutputAt | backend/editing/hashline.py:85-96 | every line starts at its index plus the insertions and minus the deletions on earlier lines; there stands the line itself if no edit finds it, the text of a replacement, or the line and the inserted text behind it; a deleted line takes no room |
| AnchorLaws.AppliedToText | backend/editing/hashline.py:25-31 | the lines are those of the text without its final newline, none in an empty file; the result has a final newline if and only if there was one, or no text, and something is left |
| AnchorLaws.RefusedIff | backend/editing/hashline.py:54-83 | edits are refused if and only if there are none or one cannot be placed, and the first such edit gives the reason: its anchor, a line taken already, or its operation |
| Hashline.UniqueAnchorSurvives | backend/editing/hashline.py:68-77 | an anchor whose hash is unique resolves to the same line after lines with other hashes are inserted anywhere |
| Hashline.PrintedAnchorDrifts | backend/editing/hashline.py:68-77 | for any later text, a printed anchor resolves to line j if and only if j has its hash and is the only line with it or has the printed number; it is stale if and only if no line has its hash |
| Hashline.OpsCharacterized | backend/editing/hashline.py:63-83 | placing the edits succeeds if and only if each finds a line and has a known operation and no two find the same line; the table then says what the edits say |
| Hashline.OrderIndependent | backend/editing/hashline.py:52-53 | if one ordering of the edits succeeds, every permutation gives the same output lines |
| Hashline.OutputByLine | backend/editing/hashline.py:85-96 | the output is the concatenation, in order, of what each line becomes |
| Hashline.OutputLength | backend/editing/hashline.py:85-96 | the output has lines minus deletions plus insertions |
| Hashline.EditsCommuteWithDrift | backend/editing/hashline.py:1-5 | while every anchor pins one line, editing commutes with inserting other lines at any place |
| Hashline.EditsCommuteWithPrefix | backend/editing/hashline.py:1-5 | in particular it commutes with putting other lines in front |
| Tokens.Estimator.EstimateTokens | backend/executors/compact_tokens.py:132-150 | cached answer, one-message increment or recount with eviction of the oldest half, on the dictionary in insertion order |
| Tokens.EstimateExact | backend/executors/compact_tokens.py:132-150 | on a cache whose entries hold prefix totals, one estimate is the direct sum and leaves such a cache of at most 32 entries |
| Tokens.CachedEstimateIsDirect | backend/executors/compact_tokens.py:132-150 | after any interleaving of appends, estimates, evictions and clears over any lists, an estimate is the direct sum and the cache holds at most 32 entries |
| Tokens.RewrittenListIsStale | backend/executors/compact_tokens.py:135-143 | for a list whose messages were rewritten in place, the estimate is right if and only if the guard notices or the rewritten messages outweigh the old ones so little that the count stays within the same four characters |
| Tokens.EstimateCounts | backend/executors/compact_tokens.py:26-83 | every message adds its text, its name and eight characters, and two more for each CJK character in either; four of them make a token |
| Tokens.VerifierExact | backend/executors/compact_tokens.py:71-73 | a list is recognised by the first 32 characters of the last message's text |
| Tokens.EvictsOldest | backend/executors/compact_tokens.py:146-148 | a full cache loses its sixteen oldest entries and no other |
| Tokens.AskedTwice | backend/executors/compact_tokens.py:135-150 | an estimate leaves an entry for what the list now holds, so that asking again gives the same answer and changes nothing |
| Compaction.FindSplit | backend/executors/compact.py:684-693 | the walk to the left finds the cut, or reports that compaction stops |
| Compaction.SplitIsSafeAndLatest | backend/executors/compact.py:687-696 | the kept part has at least keep_recent messages and does not start with a tool message, every tool run stays with the message before it, and no later cut has these properties |
| Compaction.SplitStops | backend/executors/compact.py:684-693 | compaction stops if and only if there is nothing to drop or every earlier cut falls into a tool run |
| Compaction.CompactionKeepsPairs | backend/executors/compact.py:758-778 | in a history where every tool result answers a call of the message its group follows, this still holds after compaction and in the part that is summarized |
| Compaction.InjectedKeepsPairs | backend/executors/compact.py:176-203 | re-injecting the workspace context changes only the text of the first message, which still ends with what it said, and makes or breaks no pairing |
| CompactionLaws.ContextAppears | backend/executors/compact.py:176-203 | the first 25000 characters of the context stand behind the heading in the first message, in front of what it said; without messages, or without more than whitespace, nothing happens |
| Compaction.CompactConversation | backend/executors/compact.py:742-778 | the kept tail is untouched behind a user message that ends with the summary or the marker, with the context in front of it, for every behaviour of the model |
| Compaction.ApplyToolResultMicrocompact | backend/executors/compact.py:314-339 | exactly the compactable results with at least five later ones lose their content; everything else is unchanged |
| CompactionLaws.ClearedExactly | backend/executors/compact.py:314-339 | a message is replaced by the marker if and only if it is a result of one of the five tools and at least five such results come later |
| Compaction.MicrocompactIncremental | backend/executors/compact.py:314-339 | clearing after every round equals clearing once at the end |
| Compaction.CountConversationPairs | backend/executors/compact.py:347-357 | the loop counts user-then-assistant exchanges |
| CompactionLaws.PairsAreReplies | backend/executors/compact.py:347-357 | the exchanges are the assistant messages whose nearest user or assistant message before them is a user's |
| Compaction.SnipRemovesOnePair | backend/executors/compact.py:374-400 | snipping removes exactly one exchange and leaves at least four |
| CompactionLaws.SnippedExactly | backend/executors/compact.py:366-400 | the first user message and the first assistant message behind it are cut out with all between, if and only if there are more than four exchanges and no tool message stands between |
| Compaction.SnipOrphansIff | backend/executors/compact.py:393-400 | snipping keeps every tool result with its call if and only if each result behind the removed assistant message also answers a call of the assistant message that then stands before it |
| Compaction.SnipOrphansFollowing | backend/executors/compact.py:393-400 | where no call id is issued twice: if and only if no tool result follows the removed assistant message |
| Compaction.SnipOrphansExample | backend/executors/compact.py:365-367 | a well-formed history of five exchanges that snipping breaks |
| Compaction.DropOldestRounds | backend/executors/compact_retry.py:5-13 | the loop drops the oldest 30 percent and leading tool results, keeping at least one message |
| CompactionLaws.DropExact | backend/executors/compact_retry.py:5-13 | what goes is three tenths rounded down, one at least, and then exactly the tool results that would come first, except a last message |
| Compaction.AiCompact | backend/executors/compact.py:581-620 | the retry loop makes these calls and ends with this summary |
| Compaction.CallsShrink | backend/executors/compact.py:581-614 | at most four calls, each on a non-empty suffix with the right count of omitted messages, strictly shrinking, and not starting with a dangling tool result unless one message is left |
| CompactionLaws.RetriesExact | backend/executors/compact.py:581-614 | each call but the last overflowed and the next is given what dropping left of it; the last one did not overflow, could not be shortened, or is the fourth |
| CompactionLaws.SummaryIsLast | backend/executors/compact.py:589-619 | the summary is what the last call came back with, unless it is empty |
| Compaction.Breaker.Begin | backend/executors/compact.py:678-694 | whatever run of overlapping calls has led to the counters, the model is asked if and only if the call needs and allows it and the last recorded outcomes of its group are not three failures |
| Compaction.Breaker.End | backend/executors/compact.py:698-735 | a summary clears the counter, its absence adds one, a cancellation leaves it alone, as in the step of the run model |
| Compaction.CounterIsTrailingFailures | backend/executors/compact.py:640-650 | in every interleaving of starts and ends of calls the counter is the number of failures recorded since the last success |
| Compaction.CounterWithinOverlap | backend/executors/compact.py:636-650 | the counter is at most two more than the largest number of calls of the group that were waiting at a time |
| Compaction.OverlapReachesBound | backend/executors/compact.py:640-641 | and this is reached for every number: two overlapping calls can leave the counter at four |
| Compaction.BoundFromHereIff | backend/executors/compact.py:681-682 | from a state on the counter stays within three, whatever follows, if and only if it stands at three and no call of the group is waiting |
| Compaction.OpenForGoodIff | backend/executors/compact.py:681-682 | an open circuit keeps the model from being asked again, whatever follows, if and only if no call of the group is waiting |
| Compaction.SerialCallsTrip | backend/executors/compact.py:636-650 | when calls of a group never overlap, the counter never exceeds three, and after the third failure in a row the model is never asked for the group again |
| Compaction.LateSuccessReopens | backend/executors/compact.py:707-708 | a run in which a call that was still waiting at the third failure succeeds and the next call asks again |
| Replay.WSManager.Connect | backend/ws_manager.py:46-50 | registering and computing the replay is one step on the group and leaves other groups alone |
| Replay.WSManager.Record | backend/ws_manager.py:114-119 | a broadcast appends to a history of at most 500 events |
| Replay.WSManager.Deliver | backend/ws_manager.py:122-135 | a snapshot under the lock and one send for each connection in it |
| Replay.WSManager.DisconnectSync | backend/ws_manager.py:100-112 | dropping a socket removes its entries and reports who went offline |
| Replay.DisconnectKeepsOthers | backend/ws_manager.py:104-108 | all entries of the socket go, and the others keep their order |
| Replay.GoneIff | backend/ws_manager.py:104-112 | in any list, the member of the socket's first entry is reported if and only if it is not 0 and no other socket of the list belongs to it |
| Replay.GoneMeansOffline | backend/ws_manager.py:104-112 | a member other than 0 is reported if and only if the disconnect takes them from online to offline |
| Replay.HistoryIsRecent | backend/ws_manager.py:119-119 | the bounded history is always the tail of everything recorded |
| Replay.WindowCovers | backend/ws_manager.py:58-67 | a cursor that names a message of the window replays a list that ends with exactly what was recorded behind it, even if ids repeat |
| Replay.ReplayExact | backend/ws_manager.py:58-67 | nothing without a cursor or with one that names none of the last 500 messages; else exactly what was recorded behind the first of those with this id |
| Replay.StayingReceives | backend/ws_manager.py:122-128 | while a client stays connected, each snapshot sends it its event once per registration |
| Replay.ReconnectLeavesNoGap | backend/ws_manager.py:46-67 | in every interleaving a client whose cursor is in the window is sent every later message whose snapshot is taken, at most twice, and twice exactly if the message was recorded before the connect and its snapshot came after, where the replay counts for the messages that are in it |
| ClaudeMessages.ConvertAll | backend/ai/client.py:275-318 | the first pass says, block by block, what the messages say one by one; it fails exactly when some call's arguments do not parse |
| ClaudeMessages.MergeRoles | backend/ai/client.py:320-335 | the second pass leaves no system message and no equal neighbours, and the same stream of blocks and speakers |
| ClaudeMessages.ToClaudeMessages | backend/ai/client.py:275-335 | both together: alternating roles and the per-message stream, in order |
| ClaudeMessages.MeaningMiddle | backend/ai/client.py:278-318 | each message contributes its blocks in its own place, whatever surrounds it |
| ClaudeMessages.EachSpeaks | backend/ai/client.py:278-318 | between what the other messages say, a tool message is a user's result under its call id; an assistant message with calls says its text, if it has any, then each call in order with id, name and parsed arguments; a system message says nothing; any other says its text, or its blocks with image links in the other form |
| ClaudeMessages.LoadableIff | backend/ai/client.py:297-304 | only an argument text of an assistant's call that does not parse stops the conversion |
| ClaudeMessages.ToolSaysResult | backend/ai/client.py:280-292 | a tool message is a user block with its call id and content |
| ClaudeMessages.SilentMessages | backend/ai/client.py:322-331 | system messages and plain messages with empty text contribute nothing |
| JsonCloser.RepairJsonArguments | backend/ai/client.py:387-431 | the scanning loop and the closing loop produce the text handed to the parser |
| JsonCloser.RepairedIff | backend/ai/client.py:387-389 | a text is repaired if and only if it is a brace with anything behind it and only whitespace before |
| JsonCloser.RepairScansClean | backend/ai/client.py:416-429 | rescanning the repaired text ends outside strings with nothing open |
| JsonCloser.RepairOnlyCloses | backend/ai/client.py:416-431 | the repaired text is the stripped input minus at most one trailing backslash plus closers only |
| JsonCloser.RepairStable | backend/ai/client.py:387-431 | text is only stripped if and only if what is left already scans clean |
| JsonCloser.RepairTwiceIff | backend/ai/client.py:387-431 | repairing twice is repairing once, except exactly when nothing is open at the end, a backslash is dropped, and whitespace stands before it |
| JsonCloser.RepairTwiceExample | backend/ai/client.py:417-418 | an object, a blank and a backslash: the second repair takes away the blank that the first one leaves |
| JsonCloser.CompletionIsShortest | backend/ai/client.py:416-429 | no completion that scans clean is shorter than the one appended |
| JsonCloser.RepairMatchesKinds | backend/ai/client.py:409-429 | the bracket kinds of the repaired text match if and only if the closers of the input matched |
| JsonCloser.RepairMatchesKindsForJson | backend/ai/client.py:409-429 | when all backslashes of the input are inside strings, a reader of RFC 8259 (sections 2 and 7) finds every closing bracket of the repaired text to close one of its own kind if and only if it finds that of the input |
| JsonCloser.RepairCleanForJson | backend/ai/client.py:398-415 | that reader finds no string and no bracket left open in the repaired text if and only if at the end of the input it agrees with the repair on whether a string is open, waits for no escaped character, and has no more brackets open |
| JsonCloser.RepairCleanForJsonInput | backend/ai/client.py:398-415 | which is so whenever all backslashes are inside strings |
| JsonCloser.RepairNotCleanForJson | backend/ai/client.py:409-411 | an input with a backslash outside strings whose repair leaves a string open |
| Plugins.ToolExecutor.Register | backend/executors/tool_executor.py:180-260 | a registration changes the registry or a list and hands its undo to the active disposer, which runs it at once if it has been disposed |
| Plugins.HookAdded | backend/executors/tool_executor.py:210-245 | a hook goes to the end of its list unless one with its function and condition is there, and no list ever gets two such hooks |
| Plugins.ToolAdded | backend/executors/tool_executor.py:180-260 | a tool takes its name and gets its handler, a middleware goes to the end of the list once, nothing else is touched, and the undo remembers what the name stood for |
| Plugins.ToolExecutor.RunCleanup | backend/executors/tool_executor.py:191-197 | what each undo does, and when it does nothing |
| Plugins.Disposer.Add | backend/executors/tool_executor.py:106-110 | a disposed disposer runs a cleanup at once |
| Plugins.Disposer.Dispose | backend/executors/tool_executor.py:112-122 | cleanups run newest first, and a second call does nothing |
| Plugins.CellBackIff | backend/executors/tool_executor.py:191-197 | for one tool name, restores lead back to the first entry if and only if they run newest first |
| Plugins.DisposeRestoresIff | backend/executors/tool_executor.py:100-129 | any order of cleanups restores hooks and middlewares; it restores the registry if and only if for each name the restores run newest first |
| Plugins.DisposersRestoreIff | backend/executors/tool_executor.py:112-138 | for any nesting of scopes and any order of disposing, hooks and middlewares come back, and the registry does if and only if, of two registrations of a tool, the later one's disposer never has its turn after the earlier one's |
| Plugins.NestedRestoresIff | backend/tests/test_plugin_disposer.py:62-76 | an inner scope disposed before an outer one that goes on after it: the registry comes back if and only if no tool of the inner scope is registered again by the outer one later |
| Plugins.NestedOverrideStays | backend/executors/tool_executor.py:191-197 | registrations by outer, inner and outer scope of one tool name, after which the inner scope's tool stays behind |
| Plugins.LifoRestores | backend/executors/tool_executor.py:112-122 | disposers loaded one after another and disposed last-in-first-out restore registry and lists exactly, overrides included |
| Plugins.LoadOrderRestoresIff | backend/executors/registry.py:117-118 | disposing in loading order restores the registry if and only if no tool name was registered under two disposers |
| Plugins.HandlerBackIff | backend/executors/tool_executor.py:186-197 | whatever cleanups run in whatever order, a definition has its old handler again if and only if the last registration that used it, if any, gave it that handler |
| Plugins.ReverseRestoresToolsIff | backend/executors/tool_executor.py:186-197 | undoing newest first restores the registry for reused definitions too, and definitions with their handlers if and only if none of them was last registered with another handler |
| Plugins.FreshKeepsHandlers | backend/executors/tool_executor.py:186-197 | with new definitions, a restored registry has its handlers back too |
| Plugins.ReusedDefinitionKeepsHandler | backend/executors/tool_executor.py:186-188 | undoing the re-registration of a definition that is already registered leaves the new handler in it |
| Plugins.OnceFiresAtMostOnce | backend/executors/tool_executor.py:278-308 | in every interleaving of registrations, removals and executions a once-hook fires at most once per registration |
| Plugins.OnceConserved | backend/executors/tool_executor.py:278-308 | every registration of a once-hook has fired, still waits, or was taken out by a removal |
| Plugins.VisitExact | backend/executors/tool_executor.py:278-308 | an execution fires each matching hook of its snapshot, a once-hook only if it is still listed, which it then is no longer |
| McpBridge.MCPBridge.Open | backend/executors/mcp_bridge.py:81-90 | a refused call changes nothing; an accepted one gets a new id and a new pending future |
| McpBridge.MCPBridge.FinishPending | backend/executors/mcp_bridge.py:74-77 | the entry is dropped only if it still holds this call's future |
| McpBridge.MCPBridge.Resolve | backend/executors/mcp_bridge.py:64-72 | a result takes the entry out and resolves its future once; unknown ids change nothing |
| McpBridge.MCPBridge.ResetAll | backend/executors/mcp_bridge.py:41-48 | a lost bus resolves every pending future with an error and empties the table |
| McpBridge.IdsDistinct | backend/executors/mcp_bridge.py:87-88 | requests with different counters have different ids, whatever their kinds and origins |
| McpBridge.RunKeepsInv | backend/executors/mcp_bridge.py:64-141 | every run keeps: ids numbered by the counter, pending futures unresolved and owned by calls in flight, results truthful |
| McpBridge.Correlation | backend/executors/mcp_bridge.py:64-141 | in every run request ids never repeat, pending futures are unresolved, no entry outlives its call, and a returned result is one sent for the call's own id or the notice of the lost bus |
| McpBridge.OutcomeIsFinal | backend/executors/mcp_bridge.py:99-108 | a call has at most one outcome |
| McpBridge.ArrivalReachesItsCall | backend/executors/mcp_bridge.py:64-72 | a result that arrives while its call waits reaches that call and no other |
| McpBridge.FirstReplyWins | backend/executors/mcp_bridge.py:64-141 | a call that waits when a result arrives for its id returns this result or none, whatever comes later |
| McpBridge.WakeReturns | backend/executors/mcp_bridge.py:99-108 | a call whose frame is out and whose result is there returns it; any other end is without a result |
| McpBridge.BeginWaits | backend/executors/mcp_bridge.py:81-93 | a call can begin if and only if the sender for its kind is installed, and then waits under its own id with an unresolved future |
| McpBridge.InstalledOrigin | backend/executors/mcp_bridge.py:35-39 | installing a sender makes way for calls of its kind under its origin and touches no waiting call |
| McpBridge.LostBusNotifies | backend/executors/mcp_bridge.py:41-48 | a lost bus gives every call that waits the notice, changes no other result, and lets nothing begin |
| Artifacts.ArtifactStore.RegisterArtifact | backend/artifacts/manager.py:142-175 | relations must be other artifacts of the same group; failures leave the rows alone |
| Artifacts.RegisterExact | backend/artifacts/manager.py:136-175 | a registration goes through if and only if both links are absent or name other artifacts of the group and the id is free; the new row is active with both links, and a refusal says what was wrong first |
| Artifacts.ArtifactStore.RevokeArtifact | backend/artifacts/manager.py:368-378 | only active rows of the group are revoked, and the answer says whether one was |
| Artifacts.ArtifactStore.DeleteArtifact | backend/artifacts/manager.py:299-307 | rows of the group that are not deleted yet become deleted |
| Artifacts.ArtifactStore.PurgeDeletedArtifacts | backend/artifacts/manager.py:326-365 | exactly the expired deleted rows go whose file is local and missing or unlinked, the other expired ones are reported as skipped, and a dry run removes nothing and counts every local file |
| Artifacts.RowAfter | backend/artifacts/manager.py:299-378 | what each operation makes of each row, by its id, group, status, age and file |
| Artifacts.PurgeReports | backend/artifacts/manager.py:326-365 | what a purge and a dry run report |
| Artifacts.ArtifactStore.GetArtifactLineage | backend/artifacts/manager.py:381-430 | the loop lists the ancestors and the query the direct descendants |
| Artifacts.LineageFollowsLinks | backend/artifacts/manager.py:392-412 | on any rows the listing ends, repeats nothing, follows the primary links, and stops only without a link, at a missing row or at an id already listed |
| Artifacts.NearestAncestorListsIt | backend/artifacts/manager.py:394-420 | an artifact is among the descendants of its nearest ancestor |
| Artifacts.LineageByBothLinks | backend/artifacts/manager.py:392-424 | the descendants are all rows of the group that link to the artifact by either link, and each step of the ancestry follows the parent where there is one |
| Artifacts.RegisterAcyclicIff | backend/artifacts/manager.py:142-175 | on any rows without a cycle, a registration closes one if and only if it goes through and its parent or derives-from link leads, over zero or more links already there, back to its own id |
| Artifacts.AcyclicIffNoLoop | backend/artifacts/manager.py:142-175 | parent and derives-from links are free of cycles at every point of a run if and only if no registration in it closes such a loop |
| Artifacts.LineageAcyclic | backend/artifacts/manager.py:142-175 | in particular, in every run that reuses no purged id they form no cycle |
| Artifacts.RegisterOneGroupIff | backend/artifacts/manager.py:142-159 | on rows whose links stay in one group, a registration keeps this if and only if it fails or every row that already links to its id is of its group |
| Artifacts.LinksStayInGroup | backend/artifacts/manager.py:143-159 | in every run that reuses no purged id linked artifacts belong to one group |
| Artifacts.LineageComplete | backend/artifacts/manager.py:392-412 | on any rows without cycles and with links in one group, the listing is the whole primary chain up to an artifact without a link or with a purged origin |
| Artifacts.RunLineageComplete | backend/artifacts/manager.py:392-412 | which covers every run that reuses no purged id |
| Artifacts.ReuseClosesCycle | backend/artifacts/manager.py:136-175 | a concrete run that registers a purged id again and ends in a cycle: two artifacts, each the parent of the other |
| Artifacts.LifecycleStep | backend/artifacts/manager.py:299-378 | one operation moves a status only from active to revoked or deleted or from revoked to deleted, never changes links, and removes deleted rows only |
| Artifacts.LifecycleForward | backend/artifacts/manager.py:299-378 | over any continuation without reuse a row only moves forward and keeps its links |

## Left out

- Hashline.ParsePrinted: digits of line numbers are the ASCII digits; the pattern also accepts other decimal digits.
- Tokens.CachedEstimateIsDirect: lists only grow and messages do not change, and a list is its identity, so reuse of a memory address is not modelled; the CJK adjustment is its default, the integer 2.
- ClaudeMessages.ToClaudeMessages: message content None is not modelled; merging two neighbours of one role where one has content None raises a TypeError in the source.
- PassesInterfere.AllAtOnceIff: about the character layer; the candidates of looser layers differ in length, so no single replacement is stated for them beyond Edit.ReplaceAllIsChain.
- Replay.ReconnectLeavesNoGap: an event counts as sent when it is handed to the socket; a failed or timed-out send shows up as the client leaving.
- Replay.WSManager.Connect: accepting the socket and the sends after the lock are not modelled.
- Plugins.OnceFiresAtMostOnce: whether a hook's condition matches is arbitrary; what hooks do to arguments and results is not modelled.
- Plugins.DisposeRestoresIff: hooks and middlewares are compared by identity; bound methods, which are equal without being identical, are not modelled, nor are cleanups that raise.
- McpBridge.Correlation: schemas by tool name are not modelled; a timeout may end a call even when its result is already there.
- Artifacts.ArtifactStore.GetArtifactLineage: versions, names and the order of the descendants are not modelled.
- Artifacts.ArtifactStore.PurgeDeletedArtifacts: how a locator becomes a safe path is not modelled, nor is the order of the two reports.
- Compaction.CompactConversation: the wording of prompts and summaries is a parameter, and message contents are strings; a list of blocks, which gets the context as its first block, is not modelled.
- Compaction.Breaker.Begin: the size threshold and the split are one condition, and the two strategies are one stretch of waiting.
- Compaction.DropOldestRounds: the fraction is the exact rational 3/10, which agrees with the rounded product for every list length that fits in memory.
- Edit.SkipCause: the hint shown when an edit does not match is not modelled.
- FileEdit.FileKeepsBytesIff: decoding, path checks, version guards, history and the redirection of learned files to drafts are not modelled; the file system is the text before decoding newlines and after encoding them.
- JsonCloser.RepairJsonArguments: parsing the repaired text is not modelled.
- The session-memory summary, database compaction, thresholds and result truncation: prompts, storage and arithmetic.
- HTTP routes, provider calls, streaming, channels, workflows and SQL: their behaviour lies outside the files modelled here.
