# klondiff core in Dafny

A model of the line matching and diff rendering of klondiff, the Klondike
and patience differs:

- `unique_lcs.dfy` (module `UniqueLcs`): the patience-sorting unique
  longest common subsequence `unique_lcs_py`. It builds the `index` map,
  fills the `btoa` array in place, and runs the stacks, `bisect` and
  backpointers. It is proved to return a longest strictly increasing chain
  of lines that occur exactly once on both sides.
- `piers.dfy` (module `Piers`): the recursive patience matcher of
  `_piersdiff_py.py`. `recurse_matches_py` anchors on the unique lines,
  recurses into the gaps and peels a common prefix or suffix.
  `_collapse_sequences` folds pairs into `(i, j, n)` blocks. The
  `PatienceSequenceMatcher_py` class caches its matching blocks. The
  predicate `Recursed` states which list of pairs a call appends for a box
  and a depth, branch by branch. It fixes the recursion's output up to
  which longest unique chain `unique_lcs_py` picks when several tie.
- `piers_example.dfy` (module `PiersExample`): a file with a repeated line
  matched against itself, where the repeated lines are matched only by the
  recursion into the gap between two anchors.
- `common.dfy` (module `Common`): blocks, opcodes, the `Raised` exceptions
  and `_check_consistency`.
- `opcodes.dfy` (module `Opcodes`): `get_opcodes` of both matcher classes.
  It covers the gap tags, `add_tag`, the Klondike `extra_effort` pass over
  character blocks, the split of a block into `equal` runs and one-line
  `replace`s, and the final coverage check.
- `klondike.dfy` (module `Klondike`): `KlondikeSequenceMatcher`. Its steps
  are the common key prefix and suffix, anchors grown over agreeing keys,
  the `difflib` blocks of the gaps, and the shift pass that rewrites the
  block array in place. The class caches its results.
- `colordiff.dfy` (module `ColorDiff`): `LineParser.parse_line`, the
  `colorstring` split, `parse_changed_line` over character blocks, and the
  `DiffWriter` class. `write` keeps a chunk buffer and `_writeline` holds
  one `-` line until it sees whether a `+` line follows.
- `unified.dfy` (module `Unified`): `istext`, `_format_range_unified` with
  a parser that reads ranges back, and `unified_diff` over given opcode
  groups. `unified_diff` finds the function-context line, and the
  `Flavour` parameter selects the `klonpatiencediff.py` variant (context
  line right-stripped) or the `patiencediff.py` one (not stripped).
- `text.dfy` (module `Text`): `strip`, `rstrip` and `join` on strings.

Some things are parameters instead of code:

- `difflib.SequenceMatcher` is a function returning monotone blocks that
  end in the dummy `(len, len, 0)`: the line matcher of the Klondike gaps
  and the character matcher of `parse_changed_line` and `extra_effort`.
- The `clear_junk` regex is a `key: string -> string` function.
- The function-line regex of `unified_diff` is a predicate on lines.
- `get_grouped_opcodes` is replaced by the groups it yields.
- Terminal colours are `Piece(fg, bg, text)` values.

Python exceptions are results. `IndexError` is a read past the end of a
list. `NotCovered` is the `Exception` of the coverage check. `IndexHazard`
is a read at a negative index, which Python wraps around; the model
refuses it.

## Model

| member | source | states |
|---|---|---|
| UniqueLcs.UniqueLcs | _piersdiff_py.py:31-106 | every returned pair joins equal lines that occur exactly once in `a` and once in `b`; the pairs strictly increase on both sides; no such chain is longer; the result is empty exactly when no line is unique on both sides (the same code is klondikediff.py:25-100) |
| UniqueLcs.BuildIndex | _piersdiff_py.py:45-53 | `index[line]` is the position of a line that occurs once in `a`, `None` for a repeated line, absent for a line not in `a` |
| UniqueLcs.MatchUniqueLines | _piersdiff_py.py:54-69 | after the pass, `btoa[j] == Some(i)` exactly when `b[j] == a[i]` and that line occurs exactly once in each file; otherwise `None` |
| UniqueLcs.BtoaChains | _piersdiff_py.py:54-69 | under the filled table, the unique-in-both chains are exactly the increasing chains read from `btoa` |
| UniqueLcs.Bisect | _piersdiff_py.py:89 | `bisect` returns the insertion point to the right: all stack tops before it are `<= apos`, all after it are `> apos` |
| UniqueLcs.PlaceEntry | _piersdiff_py.py:76-97 | one step of patience sorting keeps the stacks sorted, keeps every top the end of a backpointer chain as long as its stack number, and keeps the bound that no chain so far is longer than the number of stacks |
| UniqueLcs.PatienceChain | _piersdiff_py.py:70-105 | the stacks and the walk back give a longest strictly increasing chain of the `btoa` table |
| UniqueLcs.WalkBack | _piersdiff_py.py:100-105 | walking the backpointers from the last top and reversing gives the chain ending at that top |
| Piers.RecurseMatches | _piersdiff_py.py:109-168 | `answer` only grows at its end; it is unchanged when `maxrecursion < 0` or a range is empty; the appended pairs lie in the box, join equal lines and strictly increase on both sides; with depth left they contain a longest unique-line chain of the box, and without a unique line they start at `(alo, blo)` when the first lines agree, else end at `(ahi-1, bhi-1)` when the last lines agree; and the appended pairs are `Recursed` for the box and depth: the anchors of a longest unique chain threaded with the recursion into each gap and the box after the last anchor, or the whole run of equal first lines then the recursion into the rest, or the recursion into the box before the whole run of equal last lines then that run, each inner call one level shallower |
| Piers.MatchBox | _piersdiff_py.py:126-168 | the pairs one call appends, with the same guarantees as `RecurseMatches`, `Recursed` included |
| Piers.Anchors | _piersdiff_py.py:135-138 | the unique LCS of the box shifted back by `alo`/`blo`: unique matches, increasing, a longest unique chain of the box, empty exactly when the box has no unique line |
| Piers.ShiftChain | _piersdiff_py.py:135-138 | shifting a longest unique chain of the box gives increasing pairs of equal lines inside the box that hold that chain |
| Piers.AnchorPass | _piersdiff_py.py:133-145 | the anchor loop appends increasing matching pairs up to the last anchor, every anchor among them; nothing is appended exactly when the box has no unique line; the pairs are the anchors of a longest unique chain threaded with the recursion into their gaps, `(last_a_pos, last_b_pos)` is the last anchor, and those pairs followed by any recursion into the box after the last anchor are `Recursed` for the whole box |
| Piers.VisitAnchor | _piersdiff_py.py:139-145 | one anchor: the earlier pairs are kept, the pairs between them and the anchor are `Recursed` for the gap box `(last_a_pos+1, last_b_pos+1)` to `(apos, bpos)` at one level less (nothing when the gap is empty on a side), and the anchor pair comes last |
| Piers.PeelPrefix | _piersdiff_py.py:150-157 | with equal first lines, the first appended pair is `(alo, blo)`, all pairs are increasing, matching and inside the box, and they are the whole run of equal first lines followed by a `Recursed` list for the rest of the box one level down (`PeeledPrefix`) |
| Piers.PeelSuffix | _piersdiff_py.py:158-168 | with equal last lines, the last appended pair is `(ahi-1, bhi-1)`, all pairs are increasing, matching and inside the box, and they are a `Recursed` list for the box before the whole run of equal last lines one level down, followed by that run (`PeeledSuffix`) |
| Piers.ThreadAnchors | _piersdiff_py.py:135-145 | the loop over the anchors: the result is empty exactly when there is no anchor, holds every anchor, is the anchors threaded with the recursion into each gap before them (`Threaded`), and leaves `(last_a_pos, last_b_pos)` at the last anchor |
| Piers.RecursedAnchors | _piersdiff_py.py:133-148 | the anchors threaded with their gap recursions, followed by any recursion into the box after the last anchor, are `Recursed` for the box |
| Piers.LeadRun | _piersdiff_py.py:152-155 | the prefix loop appends the pairs `(alo+k, blo+k)` for the whole run of equal first lines and stops at the first unequal pair or at the end of the box |
| Piers.HeadRunMaximal | _piersdiff_py.py:152-155 | the run of equal first lines is equal on both sides and cannot be extended: it stops at the end of a range or at an unequal pair |
| Piers.PrefixJoin | _piersdiff_py.py:150-157 | the run of equal first lines followed by a `Recursed` list for the rest of the box is `PeeledPrefix` and starts at `(alo, blo)` |
| Piers.TailRun | _piersdiff_py.py:160-164 | the suffix loop stops at `nahi`, `nbhi` with `ahi - nahi == bhi - nbhi` the whole run of equal last lines |
| Piers.TailLengthMaximal | _piersdiff_py.py:160-164 | the run of equal last lines is equal on both sides and cannot be extended backwards |
| Piers.AppendRun | _piersdiff_py.py:167-168 | the closing loop appends exactly the pairs `(nahi+i, nbhi+i)` for `i < ahi - nahi` after the pairs already found |
| Piers.SuffixJoin | _piersdiff_py.py:158-168 | a `Recursed` list for the box before the run of equal last lines followed by that run is `PeeledSuffix` |
| Piers.ThreadedLast | _piersdiff_py.py:135-145 | a threaded list ends with the last anchor, after the threaded list of the earlier anchors and a `Recursed` list for the gap between |
| Piers.KeepAll | _piersdiff_py.py:253 | the filter on the original lines keeps every pair when all pairs join equal lines |
| PiersExample.RepeatedRecursed | _piersdiff_py.py:109-168 | for the file `x, y, y, z` against itself with depth 10 the only `Recursed` list is `[(0,0),(1,1),(2,2),(3,3)]`: the anchors `x` and `z`, and between them the run of `y`s peeled by the gap recursion |
| PiersExample.RepeatedGap | _piersdiff_py.py:150-157 | the gap between the anchors holds no unique line, so the recursion peels the whole run of equal first lines `[(1,1),(2,2)]` |
| PiersExample.RepeatedMatches | _piersdiff_py.py:247-251 | for `x, y, y, z` against itself the stripped-line matcher returns exactly `[(0,0),(1,1),(2,2),(3,3)]` |
| PiersExample.RepeatedBlocks | _piersdiff_py.py:242-262 | for `x, y, y, z` against itself the only `PatienceBlocks` are `[(0,0,4),(4,4,0)]` |
| Piers.CollapseSequences | _piersdiff_py.py:171-195 | expanding each `(sa, sb, n)` into the pairs `(sa+k, sb+k)` gives back the input; every `n >= 1`; no two neighbouring triples could be merged; increasing pairs give consistent blocks |
| Piers.PendingNext | _piersdiff_py.py:180-190 | one turn of the loop: a pair continuing the pending block on both sides lengthens it by one; any other pair closes it and opens `(i_a, i_b, 1)`; the first pair opens the first block; the expanded pairs stay the input read so far |
| Piers.CollapsedUnique | _piersdiff_py.py:171-195 | two lists of non-empty, pairwise unmergeable blocks that expand to the same pairs are equal, so the collapsed blocks are determined by the pairs |
| Piers.ExpandIndex | _piersdiff_py.py:171-195 | every line of every collapsed block appears among the expanded pairs |
| Piers.KeepExactMembers | _piersdiff_py.py:253 | the filter keeps exactly the pairs whose original lines are equal |
| Piers.MatchingBlocks | _piersdiff_py.py:245-260 | the result is `PatienceBlocks`: the dummy `(len(a), len(b), 0)` last, before it the collapse of the pairs whose original lines are equal, taken from the list the recursive matcher returns on the stripped lines with depth 10 (`Recursed`, which fixes the list up to which longest unique chain `unique_lcs_py` picks when several tie: anchors, gap recursion and peeled runs; also increasing pairs of equal stripped lines holding a longest unique-line chain); the blocks are consistent and inside both files, each joins identical original lines, every block but the dummy has size at least 1 |
| Piers.PatienceBlocksOf | _piersdiff_py.py:250-257 | stripped matches, filtered on the original lines and collapsed, followed by the dummy are well formed, join identical lines and are `PatienceBlocks` |
| Piers.ExampleMatches | _piersdiff_py.py:245-253 | in the docstring example, `"abxcd"` against `"abcd"`, the only list the stripped-line matcher may return is `[(0,0),(1,1),(3,2),(4,3)]` |
| Piers.MatchingBlocksExample | _piersdiff_py.py:233-235 | the docstring example: on `"abxcd"` against `"abcd"` the only `PatienceBlocks` are `[(0,0,2),(3,2,2),(5,4,0)]` |
| Piers.PatienceMatcher.constructor | _piersdiff_py.py:216-221 | a new matcher holds `a` and `b` and has no cached blocks |
| Piers.PatienceMatcher.GetMatchingBlocks | _piersdiff_py.py:242-262 | a second call returns the cached list unchanged and the result is cached; the result is `PatienceBlocks` of the two files (the collapse of the filtered `Recursed` matches of the stripped lines, then the dummy), well formed, and every block joins identical lines |
| Common.CheckConsistency | _piersdiff_py.py:198-208 | raises exactly when the blocks are not consistent; `a` is reported when some block starts before the end of the previous one on the `a` side after a consistent prefix, `b` when only the `b` side overlaps (the same code is klondikediff.py:103-113) |
| Common.ConsistentExtend | _piersdiff_py.py:202-208 | a consistent prefix followed by a block starting after the previous end on both sides stays consistent |
| Common.ViolationInconsistent | _piersdiff_py.py:203-206 | a block that starts before the previous end on either side makes the list inconsistent |
| Opcodes.AddTag | klondikediff.py:262-268 | `insert` when the `a` range is empty, else `delete` when the `b` range is empty, else `replace`; the ranges are kept and the tag fits them |
| Opcodes.GapOps | _piersdiff_py.py:378-388 | the gap before a block gets `replace` when both sides are non-empty, `delete` when only `a` is, `insert` when only `b` is, nothing when both are empty; on a forward gap the opcode tiles it exactly |
| Opcodes.SplitBlock | _piersdiff_py.py:390-399 | inside a block each line with differing original text becomes a one-line `replace` and the runs between become `equal`; the opcodes tile the block; raises `IndexError` exactly when the block runs past the end of a file |
| Opcodes.BlockOpsCover | _piersdiff_py.py:390-399 | every line of a block lies in one of its opcodes, `equal` exactly when the two lines are identical |
| Opcodes.CheckCoverage | _piersdiff_py.py:401-412 | the sanity check passes exactly when the opcodes chain from `(0, 0)` to `(len(a), len(b))`, each starting where the previous ended |
| Opcodes.Advance | klondikediff.py:293-298 | the offset loop stops at the first line whose end, counting two separator characters per line, passes the target offset |
| Opcodes.AnchorLines | klondikediff.py:299-314 | the lines before an anchor go through `add_tag` and the anchor line pair becomes one `equal` (identical lines) or `replace` opcode; the chain is extended to just after the anchor and `equal` stays sound |
| Opcodes.ExtraEffort | klondikediff.py:284-320 | the extra-effort pass over a `replace` gap tiles the gap exactly, and every `equal` it emits covers identical lines |
| Opcodes.EmitGap | klondikediff.py:278-326 | the gap opcodes: extra effort when it applies, otherwise the single gap opcode; they tile a forward gap; a gap the pass would slice at a negative index raises `IndexHazard` |
| Opcodes.EmitBlock | klondikediff.py:278-338 | one loop iteration: gap opcodes then block opcodes, tiling from `(i, j)` to the block end; which error is raised and when |
| Opcodes.GetOpcodes | _piersdiff_py.py:367-414 | the answer is the gap opcodes and block opcodes of the blocks in order; every `equal` covers identical lines; a normal return tiles both files from `(0, 0)` to `(len(a), len(b))`; the tags fit when the blocks are consistent; well-formed blocks never raise; `IndexError` exactly for a block out of range (no extra effort); `NotCovered` only when the tiling fails (it also models klondikediff.py:269-353) |
| Opcodes.AssembleCover | _piersdiff_py.py:390-399 | every line of every block is covered by an opcode of the answer, `equal` exactly when the original lines are identical, otherwise that line's one-line `replace` |
| Klondike.Keys | klondikediff.py:153-155 | the key list has one key per line, `key(line)` |
| Klondike.CommonPrefix | klondikediff.py:161-163 | `start_line` is the length of the longest common key prefix, which is followed by differing keys; raises `IndexError` exactly when one key list is a prefix of the other |
| Klondike.CommonSuffix | klondikediff.py:164-170 | `-end_line` is the length of the longest common key suffix, which is preceded by differing keys; raises `IndexError` exactly when one key list is a suffix of the other |
| Klondike.BackRunMatches | klondikediff.py:187-190 | the keys agree over the backward run `BackRun` and differ just before it unless it reaches the front of a list |
| Klondike.BackRunOff | klondikediff.py:187-190 | growing back runs off a list exactly when `BackRun` reaches the front of one |
| Klondike.ForwardRunMatches | klondikediff.py:191-193 | the keys agree over the forward run `ForwardRun` and differ just after it unless it reaches the end of a list |
| Klondike.ForwardRunOff | klondikediff.py:191-193 | growing forward runs off a list exactly when `ForwardRun` reaches the end of one |
| Klondike.GrowBack | klondikediff.py:187-190 | `-start` is exactly `BackRun`, the agreeing keys before the anchor, and stops at a differing pair; `IndexHazard` exactly when the run reaches line 0 of either list |
| Klondike.GrowForward | klondikediff.py:191-193 | `end` is exactly `ForwardRun`, the agreeing keys from the anchor, and stops at a differing pair; `IndexError` exactly when the run reaches the end of either list |
| Klondike.Grow | klondikediff.py:187-193 | the grown block is `GrownBlock` `(apos+start, bpos+start, end-start)`, the maximal run of agreeing keys through the anchor; `IndexHazard` exactly when the backward loop runs off, `IndexError` exactly when only the forward loop does |
| Klondike.GrowJoin | klondikediff.py:187-201 | when neither run reaches a list's edge, `GrownBlock` holds the anchor, its keys agree and the keys differ just before and just after it |
| Klondike.StepOf | klondikediff.py:183-203 | one turn of the anchor loop as a function: an anchor at or before `last_a` adds nothing; otherwise the growth error, or the gap blocks then the grown block with `last_a`/`last_b` moved to its end, which never moves back |
| Klondike.AnchorStep | klondikediff.py:181-203 | the result is exactly `StepOf`: an anchor at or before `last_a` is skipped; otherwise the gap blocks from the line matcher, then the grown block, and `last_a`/`last_b` move to its end; each error exactly when its loop runs off |
| Klondike.AnchorLoop | klondikediff.py:177-203 | the loop as a fold of `StepOf` from the prefix block and `last_a = last_b = start_line`; `last_a` stays between `start_line` and `len(a)` |
| Klondike.LoopErrSticks | klondikediff.py:181-203 | once the anchors read so far have raised, the whole loop raises the same error |
| Klondike.GrowAnchors | klondikediff.py:177-203 | `matches` is exactly `AnchorBlocks`, the fold of the loop; all blocks join agreeing keys; the first is `(0, 0, start_line)` when `start_line > 0`; an error comes from an anchor whose growth runs off |
| Klondike.MiddleAnchors | klondikediff.py:173-174 | the anchors are a longest unique-line LCS of `a_ws[start_line:end_line]` against `b_ws[start_line:end_line]`, moved back by `start_line`, pairing equal keys |
| Klondike.RawOf | klondikediff.py:177-209 | `matches` before the shift pass from `start_line`, `-end_line` and the anchors: the fold of the loop, the suffix block when `end_line` is set, then the dummy, which is last |
| Klondike.MiddleBlocks | klondikediff.py:177-209 | the blocks are exactly `RawOf` for the given edges and anchors; they have the raw shape, or an anchor's growth ran off |
| Klondike.RawResultIntro | klondikediff.py:160-174 | for common edges, any unique-line LCS of the middle pairs equal keys, and `RawOf` over it is a `RawResult` |
| Klondike.RawResultOf | klondikediff.py:160-209 | one instance: common edges, the middle's LCS and `RawOf` over them satisfy `RawResult` |
| Klondike.UniqueMiddle | klondikediff.py:172-174 | the LCS of the slice bounds left by a suffix of `-end_line` lines is the LCS of the middle `a_ws[start_line:end_line]` |
| Klondike.RawBlocks | klondikediff.py:160-209 | the result is `RawResult`: `IndexError` exactly when the prefix or suffix scan runs off a list; otherwise `RawOf` for the common prefix and suffix and some longest unique-line LCS of the middle, which has the raw shape (prefix block, key blocks, suffix block `(len(a)+end_line, len(b)+end_line, -end_line)`, dummy) unless an anchor's growth ran off |
| Klondike.FindBlank | klondikediff.py:215-219 | the inner loop finds the last empty key of the overlap window, or reports that it has none |
| Klondike.ShiftPass | klondikediff.py:211-220 | the in-place pass moves each next block's start forward by the overlap and shrinks it, keeping its end and its diagonal; the current block may end at the last empty key of the overlap; reading past the end raises `IndexError` |
| Klondike.ShiftedConsistent | klondikediff.py:224-226 | after the shift pass no block ends past the start of the next on either side, so `_check_consistency` passes |
| Klondike.ShiftedMatches | klondikediff.py:211-220 | a shifted block of non-negative size still joins agreeing keys |
| Klondike.ShiftedKeepsDummy | klondikediff.py:209-220 | the dummy `(len(a), len(b), 0)` is still last after the shift pass |
| Klondike.ShiftedMatchedKeys | klondikediff.py:211-226 | shifting the raw blocks keeps them consistent, matching on keys and ending in the dummy |
| Klondike.MatchKeys | klondikediff.py:149-228 | on the key lists the result is `KeyResult`: exactly a `RawResult` run through the shift pass (`KlondikeBlocks`); a normal return is consistent, matches on keys and ends in the dummy; each error is traced to the edge scans, an anchor's growth or the shift pass |
| Klondike.ExampleEdges | klondikediff.py:160-170 | in the docstring example the common prefix and suffix are both two lines |
| Klondike.NoneBetween | klondikediff.py:173 | a list of pairs whose second components lie in an empty range is empty, so the empty middle `b_ws[2:-2]` of the example has no anchors |
| Klondike.ExampleShift | klondikediff.py:211-220 | the raw blocks of the docstring example do not overlap, so the shift pass returns them unchanged |
| Klondike.MatchingBlocksExample | klondikediff.py:144-146 | the docstring example: with a key function that keeps each letter, whatever the `difflib` matcher, `KlondikeBlocks` of `"abxcd"` against `"abcd"` is exactly `[(0,0,2),(3,2,2),(5,4,0)]` |
| Klondike.KlondikeMatcher.constructor | klondikediff.py:121-126 | a new matcher holds its lines, key function, matchers and `extra_effort`, and has nothing cached |
| Klondike.KlondikeMatcher.GetMatchingBlocks | klondikediff.py:128-228 | a cached list is returned unchanged; the result is `KlondikeBlocks` of the stored keys, the raw blocks run through the shift pass, and on a fresh call also `KeyResult`; a result is cached; after a raise nothing is cached |
| Klondike.KlondikeMatcher.GetOpcodes | klondikediff.py:230-353 | a cached list is returned; otherwise the list is cached before it is filled, so it stays cached after a raise; a normal return tiles both files, every `equal` covers identical lines, and without extra effort the gaps are the plain gap opcodes |
| Klondike.KlondikeMatcher.CacheOpcodes | klondikediff.py:270 | `self.opcodes` is the same list as `answer`, so once filled it holds the opcodes: storing opcodes whose `equal` entries cover identical lines keeps the matcher valid and changes no other cache |
| ColorDiff.ParseLine | colordiff.py:30-40 | a leading `@` gives diffstuff, `+` newtext, `-` oldtext, and anything else, the empty line included, plain |
| ColorDiff.NewTextSplitJoins | colordiff.py:115-123 | an added line ending in a newline splits into body, maximal trailing blank run and `\r?\n`, which concatenate back to the line |
| ColorDiff.TrailingBlanksRun | colordiff.py:116 | the trailing run holds only spaces and tabs and is maximal |
| ColorDiff.ColorStringText | colordiff.py:112-132 | colouring a line keeps its text: the pieces concatenate to the line |
| ColorDiff.DiffStuffPiecesText | colordiff.py:124-129 | a hunk header coloured by its `@@ ... @@` part still spells the line |
| ColorDiff.SplitRejoins | colordiff.py:136 | the parts of `text.split('\n')`, newline-terminated except the last, concatenate back to the text |
| ColorDiff.PendingAsWritten | colordiff.py:140 | as written, the pending chunks after `write` are just the part after the last newline |
| ColorDiff.WriteDropsPending | colordiff.py:134-140 | as written, `write("ab")` then `write("cd")` loses `"ab"` |
| ColorDiff.PendingAfterWrite | colordiff.py:134-140 | corrected: the part after the last newline is appended to what was pending, and pending chunks never hold a newline |
| ColorDiff.WriteKeepsText | colordiff.py:134-140 | corrected: the lines handed to `_writeline` followed by the pending chunks spell the old chunks followed by the text |
| ColorDiff.WriteKeepsTextNoNewline | colordiff.py:136-140 | text without a newline hands on nothing and is appended to the chunks |
| ColorDiff.HandedLinesAreLines | colordiff.py:137-138 | every line handed to `_writeline` ends in its newline and holds no other |
| ColorDiff.WriteLineHolds | colordiff.py:150-163 | a `-` line that is not `---` is held, unless it completes a pair; at most one line is held; a held line followed by a `+` line is written with it through `parse_changed_line`, old before new; before any other line it is released as oldtext first |
| ColorDiff.WriteLineText | colordiff.py:148-164 | `_writeline` loses and invents no text: what it writes plus the line now held is the line held before plus the new line |
| ColorDiff.FeedText | colordiff.py:137-138 | over a run of handed lines, the text written plus the held line is the line held before plus the lines, in order |
| ColorDiff.MaxSizeIsMax | colordiff.py:180 | `max(m[2] ...)` is the largest block size and some block has it |
| ColorDiff.KeepLongMembers | colordiff.py:182 | the filter keeps exactly the blocks of size 0 or at least 3 |
| ColorDiff.CutChanged | colordiff.py:183-194 | the cutting loop builds, on each side, the marker, the changed text before the first kept block, then each block's unchanged text and the changed text up to the next block |
| ColorDiff.ChangedLineText | colordiff.py:179-198 | both outputs of `parse_changed_line` spell the old and the new line exactly, cut or coloured whole |
| ColorDiff.ChangedLineSame | colordiff.py:189-191 | with a matcher whose blocks join equal characters, the text painted oldsame equals the text painted newsame |
| ColorDiff.DiffWriter.constructor | colordiff.py:45-49 | a new writer has no chunks and no held line |
| ColorDiff.DiffWriter.ParseChangedLine | colordiff.py:169-198 | the loop builds exactly the pair `[old, new]` that `ChangedLine` describes |
| ColorDiff.DiffWriter.WriteLine | colordiff.py:148-164 | the target receives the pieces of one `_writeline` step and the hold slot takes its new value |
| ColorDiff.DiffWriter.Write | colordiff.py:134-142 | in colour mode, the completed lines go to `_writeline` in order and the rest stays pending (the corrected behaviour, see Findings); the buffer invariant is kept; without colour the text passes straight through |
| ColorDiff.WriteKeepsInvariant | colordiff.py:134-142 | `write` keeps the buffer invariant: handed lines then pending chunks spell all input, and no chunk holds a newline |
| Unified.IsText | klonpatiencediff.py:44-60 | a block with a NUL byte is binary; an empty block is text |
| Unified.PlainBlockIsText | klonpatiencediff.py:57-60 | a block of printable bytes and `\n \r \t \f \b` only is text |
| Unified.BinaryBlockIsNotText | klonpatiencediff.py:57-60 | a non-empty block with no text byte is binary |
| Unified.NonTextOfText | klonpatiencediff.py:59 | deleting the text characters from a text-only block leaves nothing |
| Unified.NonTextOfBinary | klonpatiencediff.py:59 | deleting the text characters from a block without any keeps it whole |
| Unified.FormatRangeSingleLine | klonpatiencediff.py:90-94 | a range is written as one number exactly when it holds one line |
| Unified.FormatRangeRoundTrip | klonpatiencediff.py:85-94 | every formatted range reads back as itself: length 1 is `start+1`, length 0 is `start,0`, any other is `start+1,length` (the same code is patiencediff.py:37-46) |
| Unified.IntStrRoundTrip | klonpatiencediff.py:91 | a formatted integer reads back as itself |
| Unified.EmitOp | klonpatiencediff.py:173-182 | equal emits `' '` plus the old lines; replace emits all `-` lines and then all `+` lines; delete only `-`; insert only `+` |
| Unified.OpSides | klonpatiencediff.py:172-182 | the lines of one opcode read back as its old lines and its new lines |
| Unified.EmitGroup | klonpatiencediff.py:172-182 | the lines of a group are the lines of its opcodes in order |
| Unified.GroupSides | klonpatiencediff.py:158-182 | a hunk body reads back as the old lines `a[first[1]:last[2]]` and the new lines `b[first[3]:last[4]]` |
| Unified.HunkHeaderRanges | klonpatiencediff.py:158-170 | the `@@` line carries ranges that read back as the group's old range and new range, followed by the context |
| Unified.FunctionLines | klonpatiencediff.py:143-146 | the function lines are increasing indices of old lines the expression matches |
| Unified.FunctionLinesComplete | klonpatiencediff.py:146 | every old line the expression matches is listed |
| Unified.AdvanceFunction | klonpatiencediff.py:162-163 | `current_function` moves to the number of function lines before `first[1]+n`, and never back |
| Unified.FunctionContext | patiencediff.py:113-121 | the context is the last function line before the limit, or empty; right-stripped in the `klonpatiencediff.py` flavour (klonpatiencediff.py:161-169), unstripped here |
| Unified.ContextIsLastFunctionLine | klonpatiencediff.py:161-169 | the named line is the last old line that matches before the limit; there is none exactly when no line before the limit matches |
| Unified.PointerNeverBack | klonpatiencediff.py:162-163 | `current_function` never decreases from one group to the next |
| Unified.PointerIsLimit | klonpatiencediff.py:162-163 | over ordered groups `current_function` after a group depends only on that group's limit |
| Unified.HunkContext | klonpatiencediff.py:161-170 | over ordered groups the context of each hunk is the last matching old line before `first[1]+n`, or none when there is no such line |
| Unified.UnifiedText | klonpatiencediff.py:149-156 | there is no output exactly when there are no groups |
| Unified.EmitHunk | klonpatiencediff.py:158-182 | one hunk: `current_function` moves on, then the `@@` line with its context, then the body |
| Unified.EmitGroups | klonpatiencediff.py:149-182 | the loop writes nothing without groups, otherwise the header pair once and then every hunk in order |
| Unified.UnifiedDiff | klonpatiencediff.py:99-182 | the output is the header pair and the hunks of all groups, or nothing (the same body is patiencediff.py:51-134) |
| Text.Strip | _piersdiff_py.py:247-248 | `strip()` keeps a slice of the line with whitespace only before and after it, and starts and ends with a non-space |
| Text.RStripPrefix | klonpatiencediff.py:165 | `rstrip()` keeps the longest prefix that does not end in whitespace, dropping only whitespace |

## Left out

- File and stream I/O and the command line are not modelled: `binary_test`, `unified_diff_files`, `_read_colordiffrc`, the `main` functions, optparse and the git external-diff arguments.
- `DiffWriter.flush` only flushes the target stream; it is I/O and is not modelled. It does not write a held line or pending chunks.
- `difflib.SequenceMatcher` and `get_grouped_opcodes` are library code. Their results are parameters: a line matcher, a character matcher and the opcode groups, assumed to return monotone blocks inside their inputs that end in the dummy.
- The `clear_junk` regex (klondikediff.py:153) is a `key` function parameter. Its semantics (whitespace removed, runs of three or more cut to two) are not modelled.
- `get_nearly_matching_blocks` (_piersdiff_py.py:264-336) is an older copy of the Klondike heuristic and is not modelled. Its `get_opcodes` is modelled over any given blocks (`Opcodes.GetOpcodes`).
- Terminal escape codes, `terminal.has_ansi_colors` and the colour table are not modelled; output is `Piece(fg, bg, text)` values with every colour set. The terminal module is not part of this model.
- `colordiff()`, `_matched_lines` and `_analyse_old_new` (colordiff.py:200-248) are not modelled: they rebind `sys.stdout` and call names that are never imported.
- The C-extension import switch (patiencediff.py:163-174), `mutter`, and the debug prints at klondikediff.py:306-307 are not modelled. The `equal` tag chosen next to those prints is modelled.
- Piers.PatienceMatcher.constructor: the `NotImplementedError` for a non-`None` `isjunk` (_piersdiff_py.py:217-219) is not modelled; there is no `isjunk` parameter.
- Klondike.KlondikeMatcher.constructor: the `NotImplementedError` for a non-`None` `isjunk` (klondikediff.py:122-124) is not modelled either.
- Piers.MatchingBlocks: the `_do_check_consistency` switch and `__debug__` are not modelled. The check is proved to pass, so it always passes (`Klondike.ShiftedConsistent` plays the same part for the Klondike matcher).
- Piers.MatchingBlocks: the tie-break of `unique_lcs_py` (_piersdiff_py.py:70-105) is not specified. `Recursed`, `StrippedMatches` and `PatienceBlocks` accept the anchors of any longest unique chain of a box, while the patience pass picks one of them. Example: for `a = ["p", "q"]` and `b = ["q", "p"]` the source takes the chain `[(0,1)]` and returns `[(0,1,1),(2,2,0)]`; `PatienceBlocks` also accepts `[(1,0,1),(2,2,0)]`, from the equally long chain `[(1,0)]`. The same holds for `Piers.RecurseMatches`, `Piers.MatchBox` and `Piers.PatienceMatcher.GetMatchingBlocks`.
- Opcodes.GetOpcodes: when no opcode is emitted but the files are not both empty, the end check of the coverage loop formats the unbound loop variable `t` (_piersdiff_py.py:408-409, klondikediff.py:347-348), so Python raises `UnboundLocalError`; the model reports `NotCovered` instead.
- Opcodes.GetOpcodes: the coverage check raises `NotCovered` instead of an `Exception` carrying the joined messages (_piersdiff_py.py:402-412, klondikediff.py:341-351). The messages are not modelled.
- Klondike.GrowBack: Python reads `a_ws[-1]`, which wraps around to the last line, when an anchor's backward run reaches line 0. The model returns `Err(IndexHazard)` there. So `Klondike.MatchKeys` and `Klondike.KlondikeMatcher.GetMatchingBlocks` refuse inputs that Python answers. Example: keys `x = [A, B, U, Q]` and `y = [A, C, A, B, U, R]`. Python returns `[(0,0,1),(1,3,2),(4,6,0)]`; the model returns `Err(IndexHazard)`.
- Opcodes.EmitGap: an extra-effort gap that starts at a negative index (`Opcodes.GapHazard`) gives `Err(IndexHazard)`. Python slices with a wrapped start there instead.
- Text.IsSpace: whitespace is Python 2 byte-string whitespace (space, `\t`, `\n`, `\r`, `\v`, `\f`). Unicode whitespace is not modelled.
- Unified.IsText: the float comparison `len(nontext)/len(block) <= 0.30` is the exact ratio `10*len(nontext) <= 3*len(block)`. The two can differ only for blocks far longer than the 512 bytes `binary_test` reads.
- ColorDiff.ColorString: the `check_style` argument is ignored by the source and is not modelled.

## Findings

| source | as written | input that shows it | evidently intended | confidence | as-written member | corrected member |
|---|---|---|---|---|---|---|
| colordiff.py:140 | `self.chunks = [newstuff[-1]]` replaces the pending chunks with the part after the last newline, even when the text held no newline | `write("ab")` then `write("cd")`: no line is handed on, and the pending chunks become `["cd"]`, so `"ab"` is lost | append the tail to the pending chunks (the loop has already emptied them when a newline was seen), so handed lines plus pending chunks spell all text written | not executed | ColorDiff.PendingAsWritten, ColorDiff.WriteDropsPending | ColorDiff.PendingAfterWrite, ColorDiff.WriteKeepsText |
