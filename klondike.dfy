/** `KlondikeSequenceMatcher.get_matching_blocks`: matches lines on
    "junk-normalised" keys. It takes the common key prefix and suffix as
    blocks, anchors the middle on the unique-line LCS, grows each anchor
    over neighbouring equal keys, fills the gaps before anchors with a
    general line matcher, and finally shifts overlapping blocks apart in
    place. The key function and the general matcher are parameters. */
module Klondike {
  import opened Common
  import UniqueLcs
  import Opcodes

  /** The key of every line (`clear_junk.sub('', s)` for each `s`). */
  function Keys(key: string -> string, lines: seq<string>): (keys: seq<string>)
    ensures |keys| == |lines| && forall i :: 0 <= i < |lines| ==> keys[i] == key(lines[i])
  {
    seq(|lines|, i requires 0 <= i < |lines| => key(lines[i]))
  }

  /** A block of at least one line whose keys agree: `x[i:i+n] == y[j:j+n]`. */
  predicate KeyBlock(x: seq<string>, y: seq<string>, m: Block)
  {
    1 <= m.size && BlockMatches(x, y, m)
  }

  /** What a `difflib` line matcher returns, as far as this code relies on
      it: blocks inside both inputs whose lines agree. */
  ghost predicate ValidLineMatcher(f: (seq<string>, seq<string>) -> seq<Block>)
  {
    forall x: seq<string>, y: seq<string> ::
      forall k :: 0 <= k < |f(x, y)| ==> 0 <= f(x, y)[k].size && BlockMatches(x, y, f(x, y)[k])
  }

  /** `x[lo:hi]` for bounds inside `x`: empty when `lo >= hi`. */
  function Slice<T>(x: seq<T>, lo: nat, hi: nat): seq<T>
    requires lo <= |x| && hi <= |x|
  {
    if lo <= hi then x[lo..hi] else []
  }

  /** The first `while` loop: the number of leading lines whose keys agree.
      It runs off the end, raising `IndexError`, exactly when one key list
      is a prefix of the other. */
  method CommonPrefix(x: seq<string>, y: seq<string>) returns (r: Result<nat, Raised>)
    ensures r.Ok? ==> r.value < |x| && r.value < |y| && x[..r.value] == y[..r.value] && x[r.value] != y[r.value]
    ensures r.Err? <==> x <= y || y <= x
    ensures r.Err? ==> r.error == IndexError
  {
    var n := 0;
    while n < |x| && n < |y| && x[n] == y[n]
      invariant n <= |x| && n <= |y| && x[..n] == y[..n]
    {
      n := n + 1;
    }
    if n == |x| || n == |y| {
      assert x[..n] == x || y[..n] == y;
      return Err(IndexError);
    }
    assert x[..n + 1][n] != y[..n + 1][n];
    return Ok(n);
  }

  /** `ys` ends with `xs`. */
  predicate IsSuffix(xs: seq<string>, ys: seq<string>)
  {
    |xs| <= |ys| && xs == ys[|ys| - |xs|..]
  }

  /** The second `while` loop, over negative indices: the number of
      trailing lines whose keys agree (`-end_line`). It runs off the front,
      raising `IndexError`, exactly when one key list is a suffix of the
      other. */
  method CommonSuffix(x: seq<string>, y: seq<string>) returns (r: Result<nat, Raised>)
    ensures r.Ok? ==> var s := r.value;
              s < |x| && s < |y| && x[|x| - s..] == y[|y| - s..] && x[|x| - s - 1] != y[|y| - s - 1]
    ensures r.Err? <==> IsSuffix(x, y) || IsSuffix(y, x)
    ensures r.Err? ==> r.error == IndexError
  {
    var s := 0;
    while s < |x| && s < |y| && x[|x| - s - 1] == y[|y| - s - 1]
      invariant s <= |x| && s <= |y| && x[|x| - s..] == y[|y| - s..]
    {
      assert x[|x| - s - 1..] == [x[|x| - s - 1]] + x[|x| - s..];
      assert y[|y| - s - 1..] == [y[|y| - s - 1]] + y[|y| - s..];
      s := s + 1;
    }
    if s == |x| || s == |y| {
      assert x[|x| - s..] == x || y[|y| - s..] == y;
      return Err(IndexError);
    }
    assert x[|x| - s - 1..][0] != y[|y| - s - 1..][0];
    return Ok(s);
  }

  /** The keys agree on the `n` lines before `(i, j)`. */
  predicate RunBefore(x: seq<string>, y: seq<string>, i: nat, j: nat, n: nat)
  {
    n <= i <= |x| && n <= j <= |y| && x[i - n..i] == y[j - n..j]
  }

  /** Growing back from `(apos, bpos)` would walk past the front of a list:
      the keys agree all the way back to line 0 of the shorter prefix. */
  predicate BackRunsOff(x: seq<string>, y: seq<string>, apos: nat, bpos: nat)
  {
    RunBefore(x, y, apos, bpos, if apos <= bpos then apos else bpos)
  }

  /** Growing forward from `(apos, bpos)` would walk past the end of a list:
      the keys agree all the way to the end of the shorter remainder. */
  predicate ForwardRunsOff(x: seq<string>, y: seq<string>, apos: nat, bpos: nat)
    requires apos <= |x| && bpos <= |y|
  {
    BlockMatches(x, y, Block(apos, bpos, if |x| - apos <= |y| - bpos then |x| - apos else |y| - bpos))
  }

  /** The anchor `(apos, bpos)` grown as far as the keys agree: `m` holds
      it, lies on its diagonal, its keys agree, and the keys differ just
      before and just after it. */
  predicate GrownAnchor(x: seq<string>, y: seq<string>, apos: nat, bpos: nat, m: Block)
  {
    && m.a <= apos < m.a + m.size && m.b - m.a == bpos - apos
    && BlockMatches(x, y, m)
    && 0 < m.a && 0 < m.b && x[m.a - 1] != y[m.b - 1]
    && m.a + m.size < |x| && m.b + m.size < |y| && x[m.a + m.size] != y[m.b + m.size]
  }

  /** A run of agreeing keys agrees at each of its lines. */
  lemma {:induction false} RunBeforeAt(x: seq<string>, y: seq<string>, i: nat, j: nat, m: nat, n: nat)
    requires n < m
    ensures RunBefore(x, y, i, j, m) ==> x[i - n - 1] == y[j - n - 1]
  {
    if RunBefore(x, y, i, j, m) {
      assert x[i - m..i][m - n - 1] == x[i - n - 1];
      assert y[j - m..j][m - n - 1] == y[j - n - 1];
    }
  }

  /** A block whose keys agree agrees at each of its lines. */
  lemma {:induction false} BlockMatchesAt(x: seq<string>, y: seq<string>, m: Block, k: nat)
    requires k < m.size
    ensures BlockMatches(x, y, m) ==> x[m.a + k] == y[m.b + k]
  {
    if BlockMatches(x, y, m) {
      assert x[m.a..m.a + m.size][k] == x[m.a + k];
      assert y[m.b..m.b + m.size][k] == y[m.b + k];
    }
  }

  /** The number of lines just before `(i, j)` whose keys agree, counting
      back until they differ or a list starts. */
  function BackRun(x: seq<string>, y: seq<string>, i: nat, j: nat): (n: nat)
    requires i <= |x| && j <= |y|
    ensures n <= i && n <= j
    decreases i
  {
    if 0 < i && 0 < j && x[i - 1] == y[j - 1] then BackRun(x, y, i - 1, j - 1) + 1 else 0
  }

  /** The number of lines from `(i, j)` on whose keys agree, counting
      forward until they differ or a list ends. */
  function ForwardRun(x: seq<string>, y: seq<string>, i: nat, j: nat): (e: nat)
    requires i <= |x| && j <= |y|
    ensures i + e <= |x| && j + e <= |y|
    decreases |x| - i
  {
    if i < |x| && j < |y| && x[i] == y[j] then ForwardRun(x, y, i + 1, j + 1) + 1 else 0
  }

  /** The anchor `(apos, bpos)` grown both ways over agreeing keys:
      `(apos + start, bpos + start, end - start)`. */
  function GrownBlock(x: seq<string>, y: seq<string>, apos: nat, bpos: nat): (m: Block)
    requires apos <= |x| && bpos <= |y|
    ensures m.a <= apos && m.b <= bpos && m.b - m.a == bpos - apos
    ensures apos <= m.a + m.size <= |x| && m.b + m.size <= |y|
  {
    var n, e := BackRun(x, y, apos, bpos), ForwardRun(x, y, apos, bpos);
    Block(apos - n, bpos - n, n + e)
  }

  /** The keys agree over the backward run, and differ just before it
      unless it reaches the front of a list. */
  lemma {:induction false} BackRunMatches(x: seq<string>, y: seq<string>, i: nat, j: nat)
    requires i <= |x| && j <= |y|
    ensures var n := BackRun(x, y, i, j);
              RunBefore(x, y, i, j, n) && (n < i && n < j ==> x[i - n - 1] != y[j - n - 1])
    decreases i
  {
    if 0 < i && 0 < j && x[i - 1] == y[j - 1] {
      BackRunMatches(x, y, i - 1, j - 1);
      var n := BackRun(x, y, i, j);
      assert x[i - n..i] == x[i - n..i - 1] + [x[i - 1]];
      assert y[j - n..j] == y[j - n..j - 1] + [y[j - 1]];
    }
  }

  /** Growing back runs off a list exactly when the backward run reaches
      the front of one. */
  lemma {:induction false} BackRunOff(x: seq<string>, y: seq<string>, i: nat, j: nat)
    requires i <= |x| && j <= |y|
    ensures BackRunsOff(x, y, i, j) <==> (var n := BackRun(x, y, i, j); n == i || n == j)
  {
    var n := BackRun(x, y, i, j);
    var m := if i <= j then i else j;
    BackRunMatches(x, y, i, j);
    if n < m {
      RunBeforeAt(x, y, i, j, m, n);
    }
  }

  /** The keys agree over the forward run, and differ just after it
      unless it reaches the end of a list. */
  lemma {:induction false} ForwardRunMatches(x: seq<string>, y: seq<string>, i: nat, j: nat)
    requires i <= |x| && j <= |y|
    ensures var e := ForwardRun(x, y, i, j);
              BlockMatches(x, y, Block(i, j, e)) && (i + e < |x| && j + e < |y| ==> x[i + e] != y[j + e])
    decreases |x| - i
  {
    if i < |x| && j < |y| && x[i] == y[j] {
      ForwardRunMatches(x, y, i + 1, j + 1);
      var e := ForwardRun(x, y, i, j);
      assert x[i..i + e] == [x[i]] + x[i + 1..i + e];
      assert y[j..j + e] == [y[j]] + y[j + 1..j + e];
    }
  }

  /** Growing forward runs off a list exactly when the forward run reaches
      the end of one. */
  lemma {:induction false} ForwardRunOff(x: seq<string>, y: seq<string>, i: nat, j: nat)
    requires i <= |x| && j <= |y|
    ensures ForwardRunsOff(x, y, i, j) <==> (var e := ForwardRun(x, y, i, j); i + e == |x| || j + e == |y|)
  {
    var e := ForwardRun(x, y, i, j);
    var m := if |x| - i <= |y| - j then |x| - i else |y| - j;
    ForwardRunMatches(x, y, i, j);
    if e < m {
      BlockMatchesAt(x, y, Block(i, j, m), e);
    }
  }

  /** The loop growing an anchor backward (`start`): the number of lines
      before `(apos, bpos)` whose keys agree. Walking back past line 0
      would read `a_ws[-1]` and wrap around in Python; the model raises
      `IndexHazard` there instead. */
  method GrowBack(x: seq<string>, y: seq<string>, apos: nat, bpos: nat) returns (r: Result<nat, Raised>)
    requires apos < |x| && bpos < |y|
    ensures r.Ok? ==> var n := r.value;
              RunBefore(x, y, apos, bpos, n) && n < apos && n < bpos && x[apos - n - 1] != y[bpos - n - 1]
    ensures r.Ok? ==> r.value == BackRun(x, y, apos, bpos)
    ensures r.Err? <==> BackRunsOff(x, y, apos, bpos)
    ensures r.Err? ==> r.error == IndexHazard
  {
    var n := 0;
    while n < apos && n < bpos && x[apos - n - 1] == y[bpos - n - 1]
      invariant n <= apos && n <= bpos
      invariant BackRun(x, y, apos, bpos) == n + BackRun(x, y, apos - n, bpos - n)
    {
      n := n + 1;
    }
    BackRunMatches(x, y, apos, bpos);
    BackRunOff(x, y, apos, bpos);
    if n == apos || n == bpos {
      return Err(IndexHazard);
    }
    return Ok(n);
  }

  /** The loop growing an anchor forward (`end`): the length of the run of
      agreeing keys starting at `(apos, bpos)`. Walking past the end raises
      `IndexError`. */
  method GrowForward(x: seq<string>, y: seq<string>, apos: nat, bpos: nat) returns (r: Result<nat, Raised>)
    requires apos < |x| && bpos < |y| && x[apos] == y[bpos]
    ensures r.Ok? ==> var e := r.value;
              1 <= e && apos + e < |x| && bpos + e < |y| &&
              BlockMatches(x, y, Block(apos, bpos, e)) && x[apos + e] != y[bpos + e]
    ensures r.Ok? ==> r.value == ForwardRun(x, y, apos, bpos)
    ensures r.Err? <==> ForwardRunsOff(x, y, apos, bpos)
    ensures r.Err? ==> r.error == IndexError
  {
    var end := 1;
    while apos + end < |x| && bpos + end < |y| && x[apos + end] == y[bpos + end]
      invariant 1 <= end && apos + end <= |x| && bpos + end <= |y|
      invariant ForwardRun(x, y, apos, bpos) == end + ForwardRun(x, y, apos + end, bpos + end)
    {
      end := end + 1;
    }
    ForwardRunMatches(x, y, apos, bpos);
    ForwardRunOff(x, y, apos, bpos);
    if apos + end >= |x| || bpos + end >= |y| {
      return Err(IndexError);
    }
    return Ok(end);
  }

  /** Both growth loops: the anchor becomes the maximal run of agreeing
      keys through it, unless a loop runs off either list. */
  method Grow(x: seq<string>, y: seq<string>, apos: nat, bpos: nat) returns (r: Result<Block, Raised>)
    requires apos < |x| && bpos < |y| && x[apos] == y[bpos]
    ensures r.Ok? ==> GrownAnchor(x, y, apos, bpos, r.value) && r.value == GrownBlock(x, y, apos, bpos)
    ensures r == Err(IndexHazard) <==> BackRunsOff(x, y, apos, bpos)
    ensures r == Err(IndexError) <==>
              && !BackRunsOff(x, y, apos, bpos)
              && ForwardRunsOff(x, y, apos, bpos)
    ensures r.Err? ==> r.error != NotCovered
  {
    var back := GrowBack(x, y, apos, bpos);
    if back.Err? {
      return Err(back.error);
    }
    var end := GrowForward(x, y, apos, bpos);
    if end.Err? {
      return Err(end.error);
    }
    var m := Block(apos - back.value, bpos - back.value, back.value + end.value);
    GrowJoin(x, y, apos, bpos);
    return Ok(m);
  }

  /** When neither loop runs off a list, the backward run and the forward
      run through an anchor join into one grown block. */
  lemma {:induction false} GrowJoin(x: seq<string>, y: seq<string>, apos: nat, bpos: nat)
    requires apos < |x| && bpos < |y| && x[apos] == y[bpos]
    ensures var n, e := BackRun(x, y, apos, bpos), ForwardRun(x, y, apos, bpos);
              n < apos && n < bpos && apos + e < |x| && bpos + e < |y| ==>
                GrownAnchor(x, y, apos, bpos, GrownBlock(x, y, apos, bpos))
  {
    var n, e := BackRun(x, y, apos, bpos), ForwardRun(x, y, apos, bpos);
    if n < apos && n < bpos && apos + e < |x| && bpos + e < |y| {
      BackRunMatches(x, y, apos, bpos);
      ForwardRunMatches(x, y, apos, bpos);
      SliceJoin(x, apos - n, apos, apos + e);
      SliceJoin(y, bpos - n, bpos, bpos + e);
    }
  }

  /** The `difflib` blocks of a gap, moved from the sliced lists back to
      whole-list positions, empty ones dropped:
      `[(a+last_a, b+last_b, s) for a,b,s in in_matches if s]`. */
  function Relocate(inner: seq<Block>, da: nat, db: nat): (r: seq<Block>)
    ensures |r| <= |inner|
  {
    if |inner| == 0 then []
    else
      var m := inner[|inner| - 1];
      Relocate(inner[..|inner| - 1], da, db) + (if m.size != 0 then [Block(m.a + da, m.b + db, m.size)] else [])
  }

  /** A block matching on the slices `x[lo:hi]`, `y[lo2:hi2]` matches on the
      whole lists once moved by `(lo, lo2)`, and stays inside the slices. */
  lemma {:induction false} SliceBlockMatches(x: seq<string>, y: seq<string>, lo: nat, hi: nat, lo2: nat, hi2: nat, m: Block)
    requires lo <= hi <= |x| && lo2 <= hi2 <= |y|
    requires BlockMatches(x[lo..hi], y[lo2..hi2], m)
    ensures BlockMatches(x, y, Block(m.a + lo, m.b + lo2, m.size))
    ensures m.a + lo + m.size <= hi && m.b + lo2 + m.size <= hi2
  {
    assert m.a + m.size <= hi - lo && m.b + m.size <= hi2 - lo2;
    forall i | m.a + lo <= i < m.a + lo + m.size
      ensures x[i] == y[i - m.a - lo + m.b + lo2]
    {
      assert x[lo..hi][m.a..m.a + m.size][i - m.a - lo] == x[i];
      assert y[lo2..hi2][m.b..m.b + m.size][i - m.a - lo] == y[i - m.a - lo + m.b + lo2];
    }
    assert x[m.a + lo..m.a + lo + m.size] == y[m.b + lo2..m.b + lo2 + m.size];
  }

  /** Relocated gap blocks of a valid matcher are key blocks lying inside
      the gap `[lo, hi) x [lo2, hi2)`. */
  lemma {:induction false} RelocateMatches(x: seq<string>, y: seq<string>, lo: nat, hi: nat, lo2: nat, hi2: nat, inner: seq<Block>)
    requires lo <= hi <= |x| && lo2 <= hi2 <= |y|
    requires forall k :: 0 <= k < |inner| ==> 0 <= inner[k].size && BlockMatches(x[lo..hi], y[lo2..hi2], inner[k])
    ensures forall k :: 0 <= k < |Relocate(inner, lo, lo2)| ==>
              var m := Relocate(inner, lo, lo2)[k];
              KeyBlock(x, y, m) && lo <= m.a && m.a + m.size <= hi && lo2 <= m.b && m.b + m.size <= hi2
  {
    if |inner| > 0 {
      var m := inner[|inner| - 1];
      RelocateMatches(x, y, lo, hi, lo2, hi2, inner[..|inner| - 1]);
      SliceBlockMatches(x, y, lo, hi, lo2, hi2, m);
    }
  }

  /** The extra `difflib` search in the gap before a grown anchor ending at
      `(hiA, hiB)`: only when the gap is non-empty on both sides and holds
      more than two lines in all. */
  function GapBlocks(f: (seq<string>, seq<string>) -> seq<Block>, x: seq<string>, y: seq<string>,
                     lastA: nat, lastB: nat, hiA: nat, hiB: nat): seq<Block>
    requires hiA <= |x| && hiB <= |y|
  {
    if hiA > lastA && hiB > lastB && hiA + hiB > lastA + lastB + 2 then
      Relocate(f(x[lastA..hiA], y[lastB..hiB]), lastA, lastB)
    else []
  }

  /** Gap blocks of a valid line matcher are key blocks inside the gap. */
  lemma {:induction false} GapBlocksMatch(f: (seq<string>, seq<string>) -> seq<Block>, x: seq<string>, y: seq<string>,
                                           lastA: nat, lastB: nat, hiA: nat, hiB: nat)
    requires ValidLineMatcher(f) && hiA <= |x| && hiB <= |y|
    ensures forall k :: 0 <= k < |GapBlocks(f, x, y, lastA, lastB, hiA, hiB)| ==>
              var m := GapBlocks(f, x, y, lastA, lastB, hiA, hiB)[k];
              KeyBlock(x, y, m) && lastA <= m.a && m.a + m.size <= hiA && lastB <= m.b && m.b + m.size <= hiB
  {
    if hiA > lastA && hiB > lastB && hiA + hiB > lastA + lastB + 2 {
      RelocateMatches(x, y, lastA, hiA, lastB, hiB, f(x[lastA..hiA], y[lastB..hiB]));
    }
  }

  /** What one anchor adds: blocks, and the new `(last_a, last_b)`. */
  datatype Step = Step(added: seq<Block>, lastA: nat, lastB: nat)

  /** What one turn of the anchor loop does from `(last_a, last_b)`: an
      anchor at or before `last_a` adds nothing; otherwise growing it
      raises if it runs off a list, or it adds the gap blocks before the
      grown block and the block itself, and `(last_a, last_b)` moves to
      the end of the grown block. */
  function StepOf(x: seq<string>, y: seq<string>, f: (seq<string>, seq<string>) -> seq<Block>,
                  lastA: nat, lastB: nat, anchor: Pair): (r: Result<Step, Raised>)
    requires lastA <= |x| && lastB <= |y| && anchor.0 < |x| && anchor.1 < |y|
    ensures r.Ok? ==> r.value.lastA <= |x| && r.value.lastB <= |y|
    ensures r.Ok? ==> lastA <= r.value.lastA
  {
    var (apos, bpos) := anchor;
    if apos <= lastA then Ok(Step([], lastA, lastB))
    else if BackRunsOff(x, y, apos, bpos) then Err(IndexHazard)
    else if ForwardRunsOff(x, y, apos, bpos) then Err(IndexError)
    else
      var m := GrownBlock(x, y, apos, bpos);
      Ok(Step(GapBlocks(f, x, y, lastA, lastB, m.a, m.b) + [m], m.a + m.size, m.b + m.size))
  }

  /** Every anchor lies inside both lists. */
  predicate AnchorsIn(x: seq<string>, y: seq<string>, anchors: seq<Pair>)
  {
    forall u :: 0 <= u < |anchors| ==> anchors[u].0 < |x| && anchors[u].1 < |y|
  }

  /** Every anchor lies inside both lists and pairs two equal keys. */
  predicate AnchorsMatch(x: seq<string>, y: seq<string>, anchors: seq<Pair>)
  {
    forall u :: 0 <= u < |anchors| ==> anchors[u].0 < |x| && anchors[u].1 < |y| && x[anchors[u].0] == y[anchors[u].1]
  }

  /** The anchor loop as a fold: it starts from the prefix block (when
      `p > 0`) and `last_a = last_b = p`, and takes one `StepOf` per anchor;
      the first error raised ends it. */
  function AnchorLoop(x: seq<string>, y: seq<string>, f: (seq<string>, seq<string>) -> seq<Block>,
                      anchors: seq<Pair>, p: nat): (r: Result<Step, Raised>)
    requires p <= |x| && p <= |y| && AnchorsIn(x, y, anchors)
    ensures r.Ok? ==> p <= r.value.lastA <= |x| && r.value.lastB <= |y|
    decreases |anchors|
  {
    if |anchors| == 0 then Ok(Step(if p > 0 then [Block(0, 0, p)] else [], p, p))
    else
      match AnchorLoop(x, y, f, anchors[..|anchors| - 1], p)
      case Err(e) => Err(e)
      case Ok(st) =>
        match StepOf(x, y, f, st.lastA, st.lastB, anchors[|anchors| - 1])
        case Err(e) => Err(e)
        case Ok(nx) => Ok(Step(st.added + nx.added, nx.lastA, nx.lastB))
  }

  /** The list `matches` after the anchor loop, or what it raised. */
  function AnchorBlocks(x: seq<string>, y: seq<string>, f: (seq<string>, seq<string>) -> seq<Block>,
                        anchors: seq<Pair>, p: nat): (r: Result<seq<Block>, Raised>)
    requires p <= |x| && p <= |y| && AnchorsIn(x, y, anchors)
    ensures r.Ok? <==> AnchorLoop(x, y, f, anchors, p).Ok?
  {
    match AnchorLoop(x, y, f, anchors, p)
    case Ok(st) => Ok(st.added)
    case Err(e) => Err(e)
  }

  /** Once a prefix of the anchors has raised, the whole loop raises the
      same. */
  lemma {:induction false} LoopErrSticks(x: seq<string>, y: seq<string>, f: (seq<string>, seq<string>) -> seq<Block>,
                                          anchors: seq<Pair>, p: nat, k: nat)
    requires p <= |x| && p <= |y| && AnchorsIn(x, y, anchors) && k <= |anchors|
    requires AnchorLoop(x, y, f, anchors[..k], p).Err?
    ensures AnchorLoop(x, y, f, anchors, p) == AnchorLoop(x, y, f, anchors[..k], p)
    decreases |anchors|
  {
    if k < |anchors| {
      var init := anchors[..|anchors| - 1];
      assert init[..k] == anchors[..k];
      LoopErrSticks(x, y, f, init, p, k);
    } else {
      assert anchors[..k] == anchors;
    }
  }

  /** One iteration of the anchor loop. An anchor at or before `last_a` is
      skipped; otherwise it is grown, the gap before it is searched, and
      `(last_a, last_b)` moves to the end of the grown block. */
  method AnchorStep(x: seq<string>, y: seq<string>, f: (seq<string>, seq<string>) -> seq<Block>,
                    lastA: nat, lastB: nat, apos: nat, bpos: nat) returns (r: Result<Step, Raised>)
    requires ValidLineMatcher(f)
    requires lastA <= |x| && lastB <= |y|
    requires apos < |x| && bpos < |y| && x[apos] == y[bpos]
    ensures apos <= lastA ==> r == Ok(Step([], lastA, lastB))
    ensures apos > lastA ==>
              (r == Err(IndexHazard) <==> BackRunsOff(x, y, apos, bpos))
    ensures apos > lastA ==>
              (r == Err(IndexError) <==>
                 && !BackRunsOff(x, y, apos, bpos)
                 && ForwardRunsOff(x, y, apos, bpos))
    ensures r.Ok? && apos > lastA ==>
              var st := r.value;
              |st.added| >= 1 &&
              var m := st.added[|st.added| - 1];
              && GrownAnchor(x, y, apos, bpos, m)
              && st.added[..|st.added| - 1] == GapBlocks(f, x, y, lastA, lastB, m.a, m.b)
              && st.lastA == m.a + m.size && st.lastB == m.b + m.size
    ensures r.Ok? ==> r.value.lastA <= |x| && r.value.lastB <= |y|
    ensures r.Ok? ==> forall k :: 0 <= k < |r.value.added| ==> KeyBlock(x, y, r.value.added[k])
    ensures r.Err? ==> AnchorRunsOff(x, y, (apos, bpos), r.error)
    ensures r == StepOf(x, y, f, lastA, lastB, (apos, bpos))
  {
    if apos <= lastA {
      return Ok(Step([], lastA, lastB));
    }
    var grown := Grow(x, y, apos, bpos);
    if grown.Err? {
      assert AnchorRunsOff(x, y, (apos, bpos), grown.error);
      assert grown.error == IndexHazard || grown.error == IndexError;
      return Err(grown.error);
    }
    var m := grown.value;
    assert !BackRunsOff(x, y, apos, bpos) && !ForwardRunsOff(x, y, apos, bpos);
    var gap := GapBlocks(f, x, y, lastA, lastB, m.a, m.b);
    GapBlocksMatch(f, x, y, lastA, lastB, m.a, m.b);
    var added := gap + [m];
    assert added[..|added| - 1] == gap;
    r := Ok(Step(added, m.a + m.size, m.b + m.size));
    assert r == StepOf(x, y, f, lastA, lastB, (apos, bpos));
  }

  /** The common prefix as a block: `(0, 0, n)` with the keys agreeing on
      the first `n` lines and differing on the next. */
  ghost predicate PrefixBlock(x: seq<string>, y: seq<string>, m: Block)
  {
    m.a == 0 && m.b == 0 && 1 <= m.size < |x| && m.size < |y| &&
    x[..m.size] == y[..m.size] && x[m.size] != y[m.size]
  }

  /** The common suffix as a block: `(len(a) - n, len(b) - n, n)` with the
      keys agreeing on the last `n` lines and differing just before. */
  ghost predicate SuffixBlock(x: seq<string>, y: seq<string>, m: Block)
  {
    1 <= m.size < |x| && m.size < |y| && m.a == |x| - m.size && m.b == |y| - m.size &&
    x[m.a..] == y[m.b..] && x[m.a - 1] != y[m.b - 1]
  }

  /** The list `matches` before the shift pass: key blocks, the prefix
      block first when the first keys agree, the suffix block before the
      dummy when the last keys agree, and the dummy last. */
  ghost predicate RawShape(x: seq<string>, y: seq<string>, blocks: seq<Block>)
  {
    && 0 < |x| && 0 < |y| && |blocks| >= 1
    && blocks[|blocks| - 1] == Block(|x|, |y|, 0)
    && (forall k :: 0 <= k < |blocks| - 1 ==> KeyBlock(x, y, blocks[k]))
    && (x[0] == y[0] ==> PrefixBlock(x, y, blocks[0]))
    && (x[|x| - 1] == y[|y| - 1] ==> |blocks| >= 2 && SuffixBlock(x, y, blocks[|blocks| - 2]))
  }

  /** `anchors` is a longest unique-line LCS of `x[p:hiA]`, `y[p:hiB]`,
      moved back to whole-list positions: an increasing chain of lines
      unique in both slices, no chain of the slices longer. */
  ghost predicate UniqueAnchors(x: seq<string>, y: seq<string>, p: nat, hiA: nat, hiB: nat, anchors: seq<Pair>)
    requires p <= |x| && p <= |y| && hiA <= |x| && hiB <= |y|
  {
    && StrictlyIncreasing(anchors)
    && (forall u :: 0 <= u < |anchors| ==>
          p <= anchors[u].0 < hiA && p <= anchors[u].1 < hiB &&
          UniqueLcs.UniqueMatch(Slice(x, p, hiA), Slice(y, p, hiB), anchors[u].0 - p, anchors[u].1 - p))
    && (forall c :: UniqueLcs.IsUniqueChain(Slice(x, p, hiA), Slice(y, p, hiB), c) ==> |c| <= |anchors|)
    && (forall u :: 0 <= u < |anchors| ==> x[anchors[u].0] == y[anchors[u].1])
  }

  /** The anchors of the middle between a common prefix of `p` lines and
      a common suffix of `s` lines: the unique-line LCS of `x[p:len(x)-s]`
      against `y[p:len(y)-s]`. */
  ghost predicate MiddleAnchorsOf(x: seq<string>, y: seq<string>, p: nat, s: nat, anchors: seq<Pair>)
    requires p <= |x| && p <= |y| && s <= |x| && s <= |y|
  {
    UniqueAnchors(x, y, p, |x| - s, |y| - s, anchors)
  }

  /** The anchors: the unique-line LCS of `x[p:hiA]`, `y[p:hiB]`, moved
      back to whole-list positions. */
  method MiddleAnchors(x: seq<string>, y: seq<string>, p: nat, hiA: nat, hiB: nat) returns (anchors: seq<Pair>)
    requires p <= |x| && p <= |y| && hiA <= |x| && hiB <= |y|
    ensures UniqueAnchors(x, y, p, hiA, hiB, anchors)
  {
    var xs, ys := Slice(x, p, hiA), Slice(y, p, hiB);
    var result := UniqueLcs.UniqueLcs(xs, ys);
    anchors := seq(|result|, u requires 0 <= u < |result| => (result[u].0 + p, result[u].1 + p));
    forall u | 0 <= u < |anchors|
      ensures anchors[u].0 - p == result[u].0 && anchors[u].1 - p == result[u].1
      ensures x[anchors[u].0] == y[anchors[u].1]
    {
      assert xs[anchors[u].0 - p] == x[anchors[u].0];
      assert ys[anchors[u].1 - p] == y[anchors[u].1];
    }
  }

  /** Growing the anchor `(apos, bpos)` runs off a list and raises `e`:
      backward past line 0 (`IndexHazard`), or, failing that, forward
      past the end (`IndexError`). */
  predicate AnchorRunsOff(x: seq<string>, y: seq<string>, anchor: Pair, e: Raised)
  {
    && anchor.0 < |x| && anchor.1 < |y| && x[anchor.0] == y[anchor.1]
    && (e == IndexHazard ==> BackRunsOff(x, y, anchor.0, anchor.1))
    && (e == IndexError ==> !BackRunsOff(x, y, anchor.0, anchor.1) && ForwardRunsOff(x, y, anchor.0, anchor.1))
    && e != NotCovered
  }

  /** The loop over the anchors, starting after a common prefix of `p`
      lines: the prefix block when `p > 0`, then what each anchor adds. */
  method GrowAnchors(x: seq<string>, y: seq<string>, f: (seq<string>, seq<string>) -> seq<Block>,
                     anchors: seq<Pair>, p: nat) returns (r: Result<seq<Block>, Raised>)
    requires ValidLineMatcher(f)
    requires p <= |x| && p <= |y|
    requires forall u :: 0 <= u < |anchors| ==> anchors[u].0 < |x| && anchors[u].1 < |y| && x[anchors[u].0] == y[anchors[u].1]
    requires p > 0 ==> x[..p] == y[..p]
    ensures r.Ok? ==> forall k :: 0 <= k < |r.value| ==> KeyBlock(x, y, r.value[k])
    ensures r.Ok? && p > 0 ==> |r.value| > 0 && r.value[0] == Block(0, 0, p)
    ensures r.Err? ==> exists u :: 0 <= u < |anchors| && AnchorRunsOff(x, y, anchors[u], r.error)
    ensures r == AnchorBlocks(x, y, f, anchors, p)
  {
    var matches: seq<Block> := [];
    if p > 0 {
      assert x[..p] == x[0..p] && y[..p] == y[0..p];
      matches := [Block(0, 0, p)];
    }
    var lastA: nat, lastB: nat := p, p;
    assert anchors[..0] == [];
    for u := 0 to |anchors|
      invariant lastA <= |x| && lastB <= |y|
      invariant forall k :: 0 <= k < |matches| ==> KeyBlock(x, y, matches[k])
      invariant p > 0 ==> |matches| > 0 && matches[0] == Block(0, 0, p)
      invariant AnchorLoop(x, y, f, anchors[..u], p) == Ok(Step(matches, lastA, lastB))
    {
      var st := AnchorStep(x, y, f, lastA, lastB, anchors[u].0, anchors[u].1);
      assert anchors[u] == (anchors[u].0, anchors[u].1);
      assert anchors[..u + 1][..u] == anchors[..u] && anchors[..u + 1][u] == anchors[u];
      if st.Err? {
        LoopErrSticks(x, y, f, anchors, p, u + 1);
        return Err(st.error);
      }
      matches := matches + st.value.added;
      lastA, lastB := st.value.lastA, st.value.lastB;
    }
    assert anchors[..|anchors|] == anchors;
    return Ok(matches);
  }

  /** The prefix block, the grown blocks, the suffix block and the dummy
      make up a list of the raw shape. */
  lemma {:induction false} RawShapeIntro(x: seq<string>, y: seq<string>, p: nat, s: nat, grown: seq<Block>, blocks: seq<Block>)
    requires p < |x| && p < |y| && x[..p] == y[..p] && x[p] != y[p]
    requires s < |x| && s < |y| && x[|x| - s..] == y[|y| - s..] && x[|x| - s - 1] != y[|y| - s - 1]
    requires forall k :: 0 <= k < |grown| ==> KeyBlock(x, y, grown[k])
    requires p > 0 ==> |grown| > 0 && grown[0] == Block(0, 0, p)
    requires blocks == (if s > 0 then grown + [Block(|x| - s, |y| - s, s)] else grown) + [Block(|x|, |y|, 0)]
    ensures RawShape(x, y, blocks)
  {
    if s > 0 {
      assert x[|x| - s..] == x[|x| - s..|x|] && y[|y| - s..] == y[|y| - s..|y|];
      assert blocks[|blocks| - 2] == Block(|x| - s, |y| - s, s);
    }
    if x[0] == y[0] {
      assert p != 0;
    }
    if x[|x| - 1] == y[|y| - 1] {
      assert s != 0;
    }
  }

  lemma {:induction false} AnchorWitness(x: seq<string>, y: seq<string>, anchors: seq<Pair>, e: Raised)
    requires exists u :: 0 <= u < |anchors| && AnchorRunsOff(x, y, anchors[u], e)
    ensures exists i, j :: AnchorRunsOff(x, y, (i, j), e)
  {
    var u :| 0 <= u < |anchors| && AnchorRunsOff(x, y, anchors[u], e);
    assert AnchorRunsOff(x, y, (anchors[u].0, anchors[u].1), e);
  }

  /** One key list is a prefix or a suffix of the other, so the prefix or
      the suffix scan runs off its end. */
  predicate EdgeRunsOff(x: seq<string>, y: seq<string>)
  {
    x <= y || y <= x || IsSuffix(x, y) || IsSuffix(y, x)
  }

  /** `p` is the length of the common key prefix and `s` that of the
      common key suffix, neither running off a list. */
  predicate CommonEdges(x: seq<string>, y: seq<string>, p: nat, s: nat)
  {
    && p < |x| && p < |y| && x[..p] == y[..p] && x[p] != y[p]
    && s < |x| && s < |y| && x[|x| - s..] == y[|y| - s..] && x[|x| - s - 1] != y[|y| - s - 1]
  }

  /** `matches` before the shift pass, from the prefix length `p`, the
      suffix length `s` and the anchors: the anchor loop, then the suffix
      block when `s > 0`, then the dummy; or what the loop raised. */
  function RawOf(x: seq<string>, y: seq<string>, f: (seq<string>, seq<string>) -> seq<Block>,
                 p: nat, s: nat, anchors: seq<Pair>): (r: Result<seq<Block>, Raised>)
    requires p <= |x| && p <= |y| && s <= |x| && s <= |y| && AnchorsIn(x, y, anchors)
    ensures r.Ok? ==> |r.value| > 0 && r.value[|r.value| - 1] == Block(|x|, |y|, 0)
  {
    match AnchorBlocks(x, y, f, anchors, p)
    case Err(e) => Err(e)
    case Ok(grown) =>
      Ok((if s > 0 then grown + [Block(|x| - s, |y| - s, s)] else grown) + [Block(|x|, |y|, 0)])
  }

  /** What the code before the shift pass yields: `IndexError` when the
      prefix or suffix scan runs off a list; otherwise the raw blocks for
      the common prefix and suffix and some longest unique-line LCS of the
      middle. */
  ghost predicate RawResult(x: seq<string>, y: seq<string>, f: (seq<string>, seq<string>) -> seq<Block>,
                            r: Result<seq<Block>, Raised>)
  {
    if EdgeRunsOff(x, y) then r == Err(IndexError)
    else exists p: nat, s: nat, anchors: seq<Pair> ::
           && CommonEdges(x, y, p, s)
           && MiddleAnchorsOf(x, y, p, s, anchors)
           && r == RawOf(x, y, f, p, s, anchors)
  }

  /** The blocks before the shift pass: prefix block, grown anchors with
      the `difflib` blocks of the gaps before them, suffix block, dummy. */
  method RawBlocks(x: seq<string>, y: seq<string>, f: (seq<string>, seq<string>) -> seq<Block>)
    returns (r: Result<seq<Block>, Raised>)
    requires ValidLineMatcher(f)
    ensures EdgeRunsOff(x, y) ==> r == Err(IndexError)
    ensures r.Ok? ==> RawShape(x, y, r.value)
    ensures r.Err? ==> EdgeRunsOff(x, y) || exists i, j :: AnchorRunsOff(x, y, (i, j), r.error)
    ensures RawResult(x, y, f, r)
  {
    var pr := CommonPrefix(x, y);
    if pr.Err? {
      return Err(pr.error);
    }
    var sf := CommonSuffix(x, y);
    if sf.Err? {
      return Err(sf.error);
    }
    var p, s := pr.value, sf.value;
    var hiA, hiB := |x| - s, |y| - s;
    RawResultIntro(x, y, f, p, s, hiA, hiB);
    var anchors := MiddleAnchors(x, y, p, hiA, hiB);
    r := MiddleBlocks(x, y, f, p, s, anchors);
  }

  /** Blocks grown from the common prefix and suffix lengths and a
      unique-line LCS of the middle `x[p:hiA]`, `y[p:hiB]` are the raw
      result; the anchors of the LCS pair equal keys inside both lists. */
  lemma {:induction false} RawResultIntro(x: seq<string>, y: seq<string>, f: (seq<string>, seq<string>) -> seq<Block>,
                                           p: nat, s: nat, hiA: nat, hiB: nat)
    requires CommonEdges(x, y, p, s) && hiA == |x| - s && hiB == |y| - s
    ensures forall anchors {:trigger UniqueAnchors(x, y, p, hiA, hiB, anchors)} ::
              UniqueAnchors(x, y, p, hiA, hiB, anchors) ==>
                AnchorsMatch(x, y, anchors) && RawResult(x, y, f, RawOf(x, y, f, p, s, anchors))
  {
    forall anchors | UniqueAnchors(x, y, p, hiA, hiB, anchors)
      ensures AnchorsMatch(x, y, anchors) && RawResult(x, y, f, RawOf(x, y, f, p, s, anchors))
    {
      UniqueMiddle(x, y, p, s, hiA, hiB, anchors);
      RawResultOf(x, y, f, p, s, anchors);
    }
  }

  /** The unique-line LCS of `x[p:hiA]`, `y[p:hiB]` for the bounds left by
      a common suffix of `s` lines is the anchors of the middle. */
  lemma {:induction false} UniqueMiddle(x: seq<string>, y: seq<string>, p: nat, s: nat, hiA: nat, hiB: nat,
                                         anchors: seq<Pair>)
    requires p <= |x| && p <= |y| && s <= |x| && s <= |y| && hiA == |x| - s && hiB == |y| - s
    requires UniqueAnchors(x, y, p, hiA, hiB, anchors)
    ensures UniqueAnchors(x, y, p, |x| - s, |y| - s, anchors)
  {
    var xs, ys := Slice(x, p, hiA), Slice(y, p, hiB);
    assert xs == Slice(x, p, |x| - s) && ys == Slice(y, p, |y| - s);
    forall c | UniqueLcs.IsUniqueChain(Slice(x, p, |x| - s), Slice(y, p, |y| - s), c)
      ensures |c| <= |anchors|
    {
      assert UniqueLcs.IsUniqueChain(xs, ys, c);
    }
  }

  /** One instance of `RawResultIntro`. */
  lemma {:induction false} RawResultOf(x: seq<string>, y: seq<string>, f: (seq<string>, seq<string>) -> seq<Block>,
                                        p: nat, s: nat, anchors: seq<Pair>)
    requires CommonEdges(x, y, p, s)
    requires MiddleAnchorsOf(x, y, p, s, anchors)
    ensures AnchorsMatch(x, y, anchors) && RawResult(x, y, f, RawOf(x, y, f, p, s, anchors))
  {
  }

  /** With a common prefix and suffix that stop inside both lists, no list
      is a prefix or a suffix of the other. */
  lemma {:induction false} EdgesStayOn(x: seq<string>, y: seq<string>, p: nat, s: nat)
    requires CommonEdges(x, y, p, s)
    ensures !EdgeRunsOff(x, y)
  {
  }

  /** Between a common prefix of `p` lines and a common suffix of `s`
      lines: the blocks grown from the anchors of the middle, with the
      prefix block, the suffix block and the dummy. */
  method MiddleBlocks(x: seq<string>, y: seq<string>, f: (seq<string>, seq<string>) -> seq<Block>,
                      p: nat, s: nat, anchors: seq<Pair>) returns (r: Result<seq<Block>, Raised>)
    requires ValidLineMatcher(f)
    requires CommonEdges(x, y, p, s)
    requires AnchorsMatch(x, y, anchors)
    ensures r.Ok? ==> RawShape(x, y, r.value)
    ensures r.Err? ==> exists i, j :: AnchorRunsOff(x, y, (i, j), r.error)
    ensures r == RawOf(x, y, f, p, s, anchors)
  {
    var grown := GrowAnchors(x, y, f, anchors, p);
    if grown.Err? {
      AnchorWitness(x, y, anchors, grown.error);
      return Err(grown.error);
    }
    var matches := grown.value;
    if s > 0 {
      matches := matches + [Block(|x| - s, |y| - s, s)];
    }
    matches := matches + [Block(|x|, |y|, 0)];
    RawShapeIntro(x, y, p, s, grown.value, matches);
    return Ok(matches);
  }

  /** Where block `m` ends on the `a` side. */
  function End(m: Block): int
  {
    m.a + m.size
  }

  /** How far block `m` reaches into the next block, the larger of the two
      sides (`d` in the shift pass). */
  function Overlap(m: Block, next: Block): int
  {
    var da, db := m.a + m.size - next.a, m.b + m.size - next.b;
    if da >= db then da else db
  }

  /** The boundary between a block `m` and the next one after the shift
      pass: `m` now ends at `end`, the next block starts at `start` (both
      on the `a` side). Without overlap nothing moves. With an overlap `d`
      the boundary goes just after the last empty key among the `d` lines
      starting the next block, or past all `d` when none is empty: `m` gives
      up the lines after the boundary, the next block those before it. */
  ghost predicate CutAt(x: seq<string>, m: Block, next: Block, end: int, start: int)
  {
    var d := Overlap(m, next);
    if d <= 0 then end == m.a + m.size && start == next.a
    else
      && next.a < start <= next.a + d <= |x|
      && m.a + m.size - end == next.a + d - start
      && (forall i :: start <= i < next.a + d ==> x[i] != "")
      && (start == next.a + d || x[start - 1] == "")
  }

  /** No overlap reaches past the end of `x` on the `a` side, where the
      blank search would raise `IndexError`. */
  predicate ShiftFits(x: seq<string>, raw: seq<Block>)
  {
    forall t :: 0 <= t < |raw| - 1 ==>
      Overlap(raw[t], raw[t + 1]) <= 0 || raw[t + 1].a + Overlap(raw[t], raw[t + 1]) <= |x|
  }

  /** The shift pass done up to block `n`: every block keeps its diagonal,
      the first keeps its start, block `n` still ends where it did, and
      every boundary before `n` is cut. */
  ghost predicate ShiftedUpTo(x: seq<string>, raw: seq<Block>, cur: seq<Block>, n: nat)
  {
    && |cur| == |raw| && n < |raw|
    && (forall t :: 0 <= t < |raw| ==> cur[t].b - cur[t].a == raw[t].b - raw[t].a)
    && cur[0].a == raw[0].a && End(cur[n]) == End(raw[n])
    && (forall t :: 0 <= t < n ==> CutAt(x, raw[t], raw[t + 1], End(cur[t]), cur[t + 1].a))
  }

  /** The whole shift pass: `cut` is `raw` with every boundary cut. */
  ghost predicate Shifted(x: seq<string>, raw: seq<Block>, cut: seq<Block>)
  {
    |cut| == |raw| && (|raw| == 0 || ShiftedUpTo(x, raw, cut, |raw| - 1))
  }

  /** The body of the shift pass for an overlap `d > 0` between a block
      `mn`, which still ends where it did before the pass (`rawN`), and the
      next block: the blank search over the `d` lines starting the next
      block, then the new pair of blocks. Only the size of `mn` changes. */
  method CutBoundary(x: seq<string>, mn: Block, next: Block, d: int, ghost rawN: Block) returns (c: Block, nx: Block)
    requires 0 < d == Overlap(rawN, next) && next.a + d <= |x| && End(mn) == End(rawN)
    ensures c.a == mn.a && c.b == mn.b && nx.b - nx.a == next.b - next.a && End(nx) == End(next)
    ensures CutAt(x, rawN, next, End(c), nx.a)
  {
    c := mn;
    var e := d;
    var blank := FindBlank(x, next.a, d);
    if blank.Some? {
      var k := blank.value;
      c := Block(mn.a, mn.b, mn.size - k);
      e := d - k;
    }
    nx := Block(next.a + e, next.b + e, next.size - e);
  }

  /** One turn of the shift pass: with block `n` and the next one
      replaced by `c` and `nx`, which keep their diagonals, the start of
      block `n`, the end of the next block, and cut the boundary between
      them, the pass is done up to the next block. */
  lemma {:induction false} ShiftStep(x: seq<string>, raw: seq<Block>, cur: seq<Block>, n: nat, c: Block, nx: Block)
    requires ShiftedUpTo(x, raw, cur, n) && n + 1 < |raw| && cur[n + 1] == raw[n + 1]
    requires c.a == cur[n].a && c.b - c.a == cur[n].b - cur[n].a
    requires nx.b - nx.a == raw[n + 1].b - raw[n + 1].a && End(nx) == End(raw[n + 1])
    requires CutAt(x, raw[n], raw[n + 1], End(c), nx.a)
    ensures ShiftedUpTo(x, raw, cur[n := c][n + 1 := nx], n + 1)
  {
    var cut := cur[n := c][n + 1 := nx];
    forall t | 0 <= t < n + 1
      ensures CutAt(x, raw[t], raw[t + 1], End(cut[t]), cut[t + 1].a)
    {
      if t < n {
        assert cut[t] == cur[t] && cut[t + 1].a == cur[t + 1].a;
      }
    }
  }

  /** The inner `for k in range(d)` loop: the offset from the end of the
      window `[lo, lo + d)` of its last empty key, if there is one. */
  method FindBlank(x: seq<string>, lo: nat, d: nat) returns (k: Option<nat>)
    requires lo + d <= |x|
    ensures k.Some? ==> k.value < d && x[lo + d - 1 - k.value] == ""
    ensures k.Some? ==> forall i :: lo + d - k.value <= i < lo + d ==> x[i] != ""
    ensures k.None? ==> forall i :: lo <= i < lo + d ==> x[i] != ""
  {
    for t := 0 to d
      invariant forall i :: lo + d - t <= i < lo + d ==> x[i] != ""
    {
      if x[lo + d - t - 1] == "" {
        return Some(t);
      }
    }
    return None;
  }

  /** The shift pass, in place on `matches`: for each block, its overlap
      `d` with the next is computed from a copy taken before the pass; the
      block gives up the lines after the last empty key of the overlap
      and the next block starts after it. Reading a key past the end of
      `x` raises `IndexError`. */
  method ShiftPass(x: seq<string>, m: array<Block>) returns (err: Option<Raised>)
    modifies m
    ensures err.None? <==> ShiftFits(x, old(m[..]))
    ensures err.Some? ==> err == Some(IndexError)
    ensures err.None? ==> Shifted(x, old(m[..]), m[..])
  {
    if m.Length == 0 {
      return None;
    }
    ghost var raw := m[..];
    var orig := m[..m.Length - 1];
    for n := 0 to m.Length - 1
      invariant forall t :: n < t < m.Length ==> m[t] == raw[t]
      invariant ShiftedUpTo(x, raw, m[..], n)
      invariant forall t :: 0 <= t < n ==>
                  Overlap(raw[t], raw[t + 1]) <= 0 || raw[t + 1].a + Overlap(raw[t], raw[t + 1]) <= |x|
    {
      var next := m[n + 1];
      var da, db := orig[n].a + orig[n].size - next.a, orig[n].b + orig[n].size - next.b;
      var d := if da >= db then da else db;
      assert next == raw[n + 1] && d == Overlap(raw[n], raw[n + 1]);
      ghost var cur := m[..];
      if d > 0 {
        if next.a + d > |x| {
          return Some(IndexError);
        }
        var c, nx := CutBoundary(x, m[n], next, d, raw[n]);
        m[n], m[n + 1] := c, nx;
      }
      assert m[..] == cur[n := m[n]][n + 1 := m[n + 1]];
      ShiftStep(x, raw, cur, n, m[n], m[n + 1]);
    }
    return None;
  }

  /** After the shift pass no block ends past the start of the next on
      either side: `_check_consistency` passes. */
  lemma {:induction false} ShiftedConsistent(x: seq<string>, raw: seq<Block>, cut: seq<Block>)
    requires Shifted(x, raw, cut)
    ensures Consistent(cut)
  {
    forall t | 0 < t < |cut|
      ensures cut[t - 1].a + cut[t - 1].size <= cut[t].a && cut[t - 1].b + cut[t - 1].size <= cut[t].b
    {
      assert CutAt(x, raw[t - 1], raw[t], End(cut[t - 1]), cut[t].a);
    }
  }

  /** Every shifted block lies inside its original block, on the same
      diagonal. */
  lemma {:induction false} ShiftedInside(x: seq<string>, raw: seq<Block>, cut: seq<Block>, t: nat)
    requires Shifted(x, raw, cut) && t < |raw|
    ensures raw[t].a <= cut[t].a && End(cut[t]) <= End(raw[t])
    ensures cut[t].b - cut[t].a == raw[t].b - raw[t].a
  {
    if t > 0 {
      assert CutAt(x, raw[t - 1], raw[t], End(cut[t - 1]), cut[t].a);
    }
    if t < |raw| - 1 {
      assert CutAt(x, raw[t], raw[t + 1], End(cut[t]), cut[t + 1].a);
    }
  }

  /** A slice of a slice is a slice. */
  lemma {:induction false} SubSlice<T>(s: seq<T>, lo: nat, hi: nat, i: nat, j: nat)
    requires lo <= hi <= |s| && i <= j <= hi - lo
    ensures s[lo..hi][i..j] == s[lo + i..lo + j]
  {
    forall k | 0 <= k < j - i
      ensures s[lo..hi][i..j][k] == s[lo + i..lo + j][k]
    {
      assert s[lo..hi][i..j][k] == s[lo..hi][i + k] == s[lo + i + k];
    }
  }

  /** A shifted block of non-negative size still joins agreeing keys. */
  lemma {:induction false} ShiftedMatches(x: seq<string>, y: seq<string>, raw: seq<Block>, cut: seq<Block>, t: nat)
    requires Shifted(x, raw, cut) && t < |raw|
    requires BlockMatches(x, y, raw[t]) && 0 <= cut[t].size
    ensures BlockMatches(x, y, cut[t])
  {
    ShiftedInside(x, raw, cut, t);
    var o, n := raw[t], cut[t];
    assert o.a <= n.a && n.a + n.size <= o.a + o.size && n.b - n.a == o.b - o.a;
    SubSlice(x, o.a, o.a + o.size, n.a - o.a, n.a - o.a + n.size);
    SubSlice(y, o.b, o.b + o.size, n.a - o.a, n.a - o.a + n.size);
  }

  /** Blocks that already satisfy `_check_consistency` come through the
      shift pass unchanged. */
  lemma {:induction false} ShiftedKeepsConsistent(x: seq<string>, raw: seq<Block>, cut: seq<Block>)
    requires Shifted(x, raw, cut) && Consistent(raw)
    ensures cut == raw
  {
    forall t | 0 <= t < |raw|
      ensures cut[t] == raw[t]
    {
      if t > 0 {
        assert CutAt(x, raw[t - 1], raw[t], End(cut[t - 1]), cut[t].a);
      }
      if t < |raw| - 1 {
        assert CutAt(x, raw[t], raw[t + 1], End(cut[t]), cut[t + 1].a);
      }
    }
  }

  /** The dummy stays last through the shift pass when the block before
      it lies inside both lists. */
  lemma {:induction false} ShiftedKeepsDummy(x: seq<string>, y: seq<string>, raw: seq<Block>, cut: seq<Block>)
    requires Shifted(x, raw, cut) && |raw| > 0 && raw[|raw| - 1] == Block(|x|, |y|, 0)
    requires |raw| > 1 ==> BlockMatches(x, y, raw[|raw| - 2])
    ensures cut[|cut| - 1] == Block(|x|, |y|, 0)
  {
    var n := |raw| - 1;
    if n > 0 {
      assert Overlap(raw[n - 1], raw[n]) <= 0;
      assert CutAt(x, raw[n - 1], raw[n], End(cut[n - 1]), cut[n].a);
    }
  }

  /** What `get_matching_blocks` promises about its result, on the keys:
      monotone blocks as `_check_consistency` demands, ending in the dummy,
      each block of non-negative size joining agreeing keys, and the first
      block starting at `(0, 0)` when the first keys agree. */
  ghost predicate MatchedKeys(x: seq<string>, y: seq<string>, blocks: seq<Block>)
  {
    && 0 < |x| && 0 < |y| && |blocks| > 0
    && Consistent(blocks)
    && blocks[|blocks| - 1] == Block(|x|, |y|, 0)
    && (forall k :: 0 <= k < |blocks| && 0 <= blocks[k].size ==> BlockMatches(x, y, blocks[k]))
    && (x[0] == y[0] ==> blocks[0].a == 0 && blocks[0].b == 0)
  }

  /** Shifting the raw blocks apart keeps them consistent, matching, and
      ending in the dummy block. */
  lemma {:induction false} ShiftedMatchedKeys(x: seq<string>, y: seq<string>, rb: seq<Block>, blocks: seq<Block>)
    requires RawShape(x, y, rb) && Shifted(x, rb, blocks)
    ensures MatchedKeys(x, y, blocks)
  {
    ShiftedConsistent(x, rb, blocks);
    ShiftedKeepsDummy(x, y, rb, blocks);
    forall k | 0 <= k < |blocks| && 0 <= blocks[k].size
      ensures BlockMatches(x, y, blocks[k])
    {
      ShiftedMatches(x, y, rb, blocks, k);
    }
    if x[0] == y[0] {
      ShiftedInside(x, rb, blocks, 0);
    }
  }

  /** The shift pass and the consistency check applied to what the code
      before them yielded: an error passes through; raw blocks come out
      with every boundary cut, unless an overlap reaches past the end of
      `x` and the blank search raises `IndexError`. */
  ghost predicate AfterShift(x: seq<string>, raw: Result<seq<Block>, Raised>, r: Result<seq<Block>, Raised>)
  {
    match raw
    case Err(e) => r == Err(e)
    case Ok(rb) => if ShiftFits(x, rb) then r.Ok? && Shifted(x, rb, r.value) else r == Err(IndexError)
  }

  /** What `get_matching_blocks` computes on the key lists `x` and `y`. */
  ghost predicate KlondikeBlocks(x: seq<string>, y: seq<string>, f: (seq<string>, seq<string>) -> seq<Block>,
                                 r: Result<seq<Block>, Raised>)
  {
    exists raw :: RawResult(x, y, f, raw) && AfterShift(x, raw, r)
  }

  /** Everything `get_matching_blocks` promises on the key lists `x` and
      `y`: `IndexError` when one list is a prefix or suffix of the other;
      a result of matched keys obtained by shifting raw blocks apart; an
      error only from the edges, an anchor running off, or an overlap past
      the end; and, exactly, the raw blocks run through the shift pass. */
  ghost predicate KeyResult(x: seq<string>, y: seq<string>, f: (seq<string>, seq<string>) -> seq<Block>,
                            r: Result<seq<Block>, Raised>)
  {
    && (EdgeRunsOff(x, y) ==> r == Err(IndexError))
    && (r.Ok? ==> MatchedKeys(x, y, r.value))
    && (r.Ok? ==> exists rb :: RawShape(x, y, rb) && Shifted(x, rb, r.value))
    && (r.Err? ==> || EdgeRunsOff(x, y)
                   || (exists i, j :: AnchorRunsOff(x, y, (i, j), r.error))
                   || (r.error == IndexError && exists rb :: RawShape(x, y, rb) && !ShiftFits(x, rb)))
    && KlondikeBlocks(x, y, f, r)
  }

  /** The body of `get_matching_blocks` on the key lists: the raw blocks,
      copied into an array, shifted apart in place, then checked. */
  method MatchKeys(x: seq<string>, y: seq<string>, f: (seq<string>, seq<string>) -> seq<Block>)
    returns (r: Result<seq<Block>, Raised>)
    requires ValidLineMatcher(f)
    ensures KeyResult(x, y, f, r)
  {
    var raw := RawBlocks(x, y, f);
    if raw.Err? {
      assert AfterShift(x, raw, Err(raw.error));
      return Err(raw.error);
    }
    var rb := raw.value;
    var matches := new Block[|rb|](i requires 0 <= i < |rb| => rb[i]);
    assert matches[..] == rb;
    var err := ShiftPass(x, matches);
    if err.Some? {
      ShiftErrResult(x, y, f, raw);
      return Err(err.value);
    }
    var blocks := matches[..];
    ShiftedResult(x, y, f, raw, blocks);
    var check := CheckConsistency(blocks);
    assert check.None?;
    return Ok(blocks);
  }

  /** Raw blocks whose overlap reaches past the end of `x` make the shift
      pass raise `IndexError`. */
  lemma {:induction false} ShiftErrResult(x: seq<string>, y: seq<string>, f: (seq<string>, seq<string>) -> seq<Block>,
                                          raw: Result<seq<Block>, Raised>)
    requires RawResult(x, y, f, raw) && raw.Ok? && RawShape(x, y, raw.value) && !ShiftFits(x, raw.value)
    ensures KeyResult(x, y, f, Err(IndexError))
  {
    assert AfterShift(x, raw, Err(IndexError));
  }

  /** Raw blocks that the shift pass cuts apart give matched keys. */
  lemma {:induction false} ShiftedResult(x: seq<string>, y: seq<string>, f: (seq<string>, seq<string>) -> seq<Block>,
                                         raw: Result<seq<Block>, Raised>, blocks: seq<Block>)
    requires RawResult(x, y, f, raw) && raw.Ok? && RawShape(x, y, raw.value)
    requires ShiftFits(x, raw.value) && Shifted(x, raw.value, blocks)
    ensures KeyResult(x, y, f, Ok(blocks))
  {
    ShiftedMatchedKeys(x, y, raw.value, blocks);
    assert AfterShift(x, raw, Ok(blocks));
  }

  /** Keys that agree on a common prefix of `p` lines agree at each line
      before `p`. */
  lemma {:induction false} AgreeBefore(x: seq<string>, y: seq<string>, p: nat, k: nat)
    ensures p <= |x| && p <= |y| && x[..p] == y[..p] && k < p ==> x[k] == y[k]
  {
    if p <= |x| && p <= |y| && x[..p] == y[..p] && k < p {
      assert x[..p][k] == y[..p][k];
    }
  }

  /** Keys that agree on a common suffix of `s` lines agree at each of
      the last `s` lines. */
  lemma {:induction false} AgreeAfter(x: seq<string>, y: seq<string>, s: nat, k: nat)
    ensures s <= |x| && s <= |y| && x[|x| - s..] == y[|y| - s..] && k < s ==> x[|x| - 1 - k] == y[|y| - 1 - k]
  {
    if s <= |x| && s <= |y| && x[|x| - s..] == y[|y| - s..] && k < s {
      assert x[|x| - s..][s - 1 - k] == y[|y| - s..][s - 1 - k];
    }
  }

  /** In the docstring example the common prefix and suffix are both two
      lines long (`start_line = 2`, `end_line = -2`). */
  lemma {:induction false} ExampleEdges(p: nat, s: nat)
    requires CommonEdges(ExampleA, ExampleB, p, s)
    ensures p == 2 && s == 2
  {
    var x, y := ExampleA, ExampleB;
    assert x[2][0] != y[2][0] && x[2][0] != y[1][0];
    AgreeBefore(x, y, p, 2);
    AgreeAfter(x, y, s, 2);
  }

  /** The edges of the docstring example stop inside both lists. */
  lemma {:induction false} ExampleEdgesHold()
    ensures CommonEdges(ExampleA, ExampleB, 2, 2)
  {
    var x, y := ExampleA, ExampleB;
    assert x[2][0] != y[2][0] && x[2][0] != y[1][0];
    assert x[..2] == y[..2] && x[3..] == y[2..];
  }

  /** The middle of the docstring example, `["x"]` against `[]`, has no
      anchors. */
  lemma {:induction false} ExampleNoAnchors(anchors: seq<Pair>)
    requires MiddleAnchorsOf(ExampleA, ExampleB, 2, 2, anchors)
    ensures anchors == []
  {
    NoneBetween(anchors, 2, 2);
  }

  /** No list of pairs has every second component in an empty range
      except the empty list. */
  lemma {:induction false} NoneBetween(ps: seq<Pair>, lo: nat, hi: nat)
    ensures (forall u :: 0 <= u < |ps| ==> lo <= ps[u].1 < hi) && hi <= lo ==> ps == []
  {
    if |ps| > 0 {
      assert !(lo <= ps[0].1 < hi) || lo < hi;
    }
  }

  /** Without anchors, the raw blocks of the docstring example are the
      prefix block, the suffix block and the dummy. */
  lemma {:induction false} ExampleRaw(f: (seq<string>, seq<string>) -> seq<Block>)
    ensures RawOf(ExampleA, ExampleB, f, 2, 2, []) == Ok([Block(0, 0, 2), Block(3, 2, 2), Block(5, 4, 0)])
  {
    assert AnchorBlocks(ExampleA, ExampleB, f, [], 2) == Ok([Block(0, 0, 2)]);
    assert |ExampleA| == 5 && |ExampleB| == 4;
    assert [Block(0, 0, 2)] + [Block(3, 2, 2)] + [Block(5, 4, 0)] == [Block(0, 0, 2), Block(3, 2, 2), Block(5, 4, 0)];
  }

  /** The raw result of the docstring example. */
  lemma {:induction false} ExampleRawResult(f: (seq<string>, seq<string>) -> seq<Block>, raw: Result<seq<Block>, Raised>)
    requires RawResult(ExampleA, ExampleB, f, raw)
    ensures raw == Ok([Block(0, 0, 2), Block(3, 2, 2), Block(5, 4, 0)])
  {
    ExampleEdgesHold();
    EdgesStayOn(ExampleA, ExampleB, 2, 2);
    var p: nat, s: nat, anchors: seq<Pair> :| && CommonEdges(ExampleA, ExampleB, p, s)
                                                && MiddleAnchorsOf(ExampleA, ExampleB, p, s, anchors)
                                                && raw == RawOf(ExampleA, ExampleB, f, p, s, anchors);
    ExampleEdges(p, s);
    ExampleNoAnchors(anchors);
    ExampleRaw(f);
  }

  /** The raw blocks of the docstring example do not overlap, so the shift
      pass leaves them as they are. */
  lemma {:induction false} ExampleShift(r: Result<seq<Block>, Raised>)
    requires AfterShift(ExampleA, Ok([Block(0, 0, 2), Block(3, 2, 2), Block(5, 4, 0)]), r)
    ensures r == Ok([Block(0, 0, 2), Block(3, 2, 2), Block(5, 4, 0)])
  {
    var raw: seq<Block> := [Block(0, 0, 2), Block(3, 2, 2), Block(5, 4, 0)];
    assert Overlap(raw[0], raw[1]) <= 0 && Overlap(raw[1], raw[2]) <= 0;
    assert ShiftFits(ExampleA, raw);
    assert Consistent(raw);
    ShiftedKeepsConsistent(ExampleA, raw, r.value);
  }

  /** The docstring example of `get_matching_blocks` (`"abxcd"` against
      `"abcd"`), with a key function that keeps each of these letters as
      it is: whatever the general line matcher, the result is
      `[(0, 0, 2), (3, 2, 2), (5, 4, 0)]`. */
  lemma {:induction false} MatchingBlocksExample(key: string -> string, f: (seq<string>, seq<string>) -> seq<Block>,
                                                  r: Result<seq<Block>, Raised>)
    requires forall t :: t in ExampleA ==> key(t) == t
    requires KlondikeBlocks(Keys(key, ExampleA), Keys(key, ExampleB), f, r)
    ensures r == Ok([Block(0, 0, 2), Block(3, 2, 2), Block(5, 4, 0)])
  {
    ExampleKeys(key);
    ExampleBlocks(f, r);
  }

  /** A key function that keeps the letters of the docstring example keeps
      both its files. */
  lemma {:induction false} ExampleKeys(key: string -> string)
    requires forall t :: t in ExampleA ==> key(t) == t
    ensures Keys(key, ExampleA) == ExampleA && Keys(key, ExampleB) == ExampleB
  {
    assert forall i :: 0 <= i < |ExampleA| ==> key(ExampleA[i]) == ExampleA[i];
    assert ExampleB[0] == ExampleA[0] && ExampleB[1] == ExampleA[1];
    assert ExampleB[2] == ExampleA[3] && ExampleB[3] == ExampleA[4];
    assert forall j :: 0 <= j < |ExampleB| ==> key(ExampleB[j]) == ExampleB[j];
  }

  /** The docstring example on the keys themselves. */
  lemma {:induction false} ExampleBlocks(f: (seq<string>, seq<string>) -> seq<Block>, r: Result<seq<Block>, Raised>)
    requires KlondikeBlocks(ExampleA, ExampleB, f, r)
    ensures r == Ok([Block(0, 0, 2), Block(3, 2, 2), Block(5, 4, 0)])
  {
    var raw :| RawResult(ExampleA, ExampleB, f, raw) && AfterShift(ExampleA, raw, r);
    ExampleRawResult(f, raw);
    ExampleShift(r);
  }

  /** `KlondikeSequenceMatcher`: the two line lists, the key function, the
      general line matcher used in the gaps, the character matcher and the
      `extra_effort` switch of `get_opcodes`, and the cached results. */
  class KlondikeMatcher {
    const a: seq<string>
    const b: seq<string>
    const key: string -> string
    const lineMatcher: (seq<string>, seq<string>) -> seq<Block>
    const charMatcher: (string, string) -> seq<Block>
    const extraEffort: bool
    var aKeys: seq<string>
    var bKeys: seq<string>
    var matchingBlocks: Option<seq<Block>>
    var opcodes: Option<seq<Opcode>>

    /** The oracles behave as `difflib` does, and cached blocks and keys
        are those of `a` and `b`; cached opcodes only ever mark as equal
        lines whose text is identical. */
    ghost predicate Valid()
      reads this
    {
      && ValidLineMatcher(lineMatcher)
      && (forall s: string, t: string :: Opcodes.CharBlocksIn(charMatcher(s, t), |s|, |t|))
      && (matchingBlocks.Some? ==>
            && aKeys == Keys(key, a) && bKeys == Keys(key, b) && MatchedKeys(aKeys, bKeys, matchingBlocks.value)
            && KlondikeBlocks(aKeys, bKeys, lineMatcher, Ok(matchingBlocks.value)))
      && (opcodes.Some? ==> Opcodes.AllEqualText(a, b, opcodes.value))
    }

    /** `__init__` with `isjunk=None`: nothing computed yet. */
    constructor (a: seq<string>, b: seq<string>, key: string -> string,
                 lineMatcher: (seq<string>, seq<string>) -> seq<Block>,
                 charMatcher: (string, string) -> seq<Block>, extraEffort: bool)
      requires ValidLineMatcher(lineMatcher)
      requires forall s: string, t: string :: Opcodes.CharBlocksIn(charMatcher(s, t), |s|, |t|)
      ensures this.a == a && this.b == b && this.key == key && this.lineMatcher == lineMatcher
      ensures this.charMatcher == charMatcher && this.extraEffort == extraEffort
      ensures matchingBlocks == None && opcodes == None
      ensures Valid()
    {
      this.a := a;
      this.b := b;
      this.key := key;
      this.lineMatcher := lineMatcher;
      this.charMatcher := charMatcher;
      this.extraEffort := extraEffort;
      aKeys := [];
      bKeys := [];
      matchingBlocks := None;
      opcodes := None;
    }

    /** `get_matching_blocks`: a cached list is returned as it is; otherwise
        the keys are computed and stored, and the blocks are cached unless
        computing them raises. */
    method GetMatchingBlocks() returns (r: Result<seq<Block>, Raised>)
      requires Valid()
      modifies this
      ensures Valid() && opcodes == old(opcodes)
      ensures aKeys == Keys(key, a) && bKeys == Keys(key, b)
      ensures old(matchingBlocks).Some? ==> r == Ok(old(matchingBlocks).value) && matchingBlocks == old(matchingBlocks)
      ensures r.Ok? ==> matchingBlocks == Some(r.value) && MatchedKeys(aKeys, bKeys, r.value)
      ensures r.Err? ==> matchingBlocks == None
      ensures old(matchingBlocks).None? ==> KeyResult(aKeys, bKeys, lineMatcher, r)
      ensures KlondikeBlocks(aKeys, bKeys, lineMatcher, r)
    {
      if matchingBlocks.Some? {
        return Ok(matchingBlocks.value);
      }
      var x, y := Keys(key, a), Keys(key, b);
      r := MatchKeys(x, y, lineMatcher);
      aKeys, bKeys := x, y;
      if r.Ok? {
        matchingBlocks := Some(r.value);
      }
    }

    /** `get_opcodes`: a cached list is returned as it is. Otherwise the
        empty list is cached first and filled as the opcodes are built, so
        that after an exception the partial list stays cached. */
    method GetOpcodes() returns (ops: seq<Opcode>, err: Option<Raised>, ghost gaps: seq<seq<Opcode>>)
      requires Valid()
      modifies this
      ensures Valid()
      ensures Opcodes.AllEqualText(a, b, ops)
      ensures old(opcodes).Some? ==> ops == old(opcodes).value && err.None?
      ensures old(opcodes).None? ==> opcodes == Some(ops)
      ensures old(opcodes).None? && err.None? ==> Opcodes.Chained(ops, 0, 0, |a|, |b|)
      ensures old(opcodes).None? && err.None? && matchingBlocks.Some? ==> Opcodes.AllWellTagged(ops)
      ensures old(opcodes).None? && err.None? ==>
                matchingBlocks.Some? && |gaps| == |matchingBlocks.value| &&
                Opcodes.NoneOutOfRange(matchingBlocks.value, |a|, |b|) &&
                ops == Opcodes.Assemble(a, b, gaps, matchingBlocks.value)
      ensures old(opcodes).None? && err.None? && !extraEffort ==>
                forall k :: 0 <= k < |gaps| ==>
                  gaps[k] == Opcodes.PlainGap(matchingBlocks.value, k)
    {
      gaps := [];
      if opcodes.Some? {
        return opcodes.value, None, gaps;
      }
      opcodes := Some([]);
      var blocks := GetMatchingBlocks();
      if blocks.Err? {
        return [], Some(blocks.error), gaps;
      }
      var effort := if extraEffort then Opcodes.Effort(aKeys, bKeys, charMatcher) else Opcodes.NoEffort;
      ops, err, gaps := Opcodes.GetOpcodes(a, b, effort, blocks.value);
      CacheOpcodes(ops);
    }

    /** Stores `ops` as the cached opcodes. */
    method CacheOpcodes(ops: seq<Opcode>)
      requires Valid() && Opcodes.AllEqualText(a, b, ops)
      modifies this
      ensures Valid() && opcodes == Some(ops)
      ensures aKeys == old(aKeys) && bKeys == old(bKeys) && matchingBlocks == old(matchingBlocks)
    {
      opcodes := Some(ops);
    }
  }
}

