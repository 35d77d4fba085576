/** `get_opcodes` of both matchers: turns matching blocks into edit
    opcodes that tile both files, splits lines whose original text differs
    out of a matching block, and checks the tiling at the end. The
    Klondike matcher additionally re-splits large replaced regions with a
    character matcher (`extra_effort`). */
module Opcodes {
  import opened Common
  import opened Text

  /** Each tag describes the shape of its ranges: `equal` maps a non-empty
      range to one of the same length, `replace` has both ranges non-empty,
      `delete` only the `a` range, `insert` only the `b` range. */
  predicate WellTagged(op: Opcode)
  {
    match op.tag
    case Equal => op.i1 < op.i2 && op.i2 - op.i1 == op.j2 - op.j1
    case Replace => op.i1 < op.i2 && op.j1 < op.j2
    case Delete => op.i1 < op.i2 && op.j1 == op.j2
    case Insert => op.i1 == op.i2 && op.j1 < op.j2
  }

  predicate AllWellTagged(ops: seq<Opcode>)
  {
    forall k :: 0 <= k < |ops| ==> WellTagged(ops[k])
  }

  /** An `equal` opcode joins identical text: `a[i1:i2] == b[j1:j2]`. */
  predicate EqualText<T(==)>(a: seq<T>, b: seq<T>, op: Opcode)
  {
    op.tag == Equal ==>
      0 <= op.i1 <= op.i2 <= |a| && 0 <= op.j1 <= op.j2 <= |b| && a[op.i1..op.i2] == b[op.j1..op.j2]
  }

  predicate AllEqualText<T(==)>(a: seq<T>, b: seq<T>, ops: seq<Opcode>)
  {
    forall k :: 0 <= k < |ops| ==> EqualText(a, b, ops[k])
  }

  /** The opcodes follow each other without gap or overlap, from `(i, j)`
      to `(i', j')`: each starts where the previous one ends. */
  predicate Chained(ops: seq<Opcode>, i: int, j: int, i': int, j': int)
    decreases |ops|
  {
    if |ops| == 0 then i == i' && j == j'
    else
      var last := ops[|ops| - 1];
      last.i2 == i' && last.j2 == j' && Chained(ops[..|ops| - 1], i, j, last.i1, last.j1)
  }

  lemma {:induction false} ChainedAppend(x: seq<Opcode>, y: seq<Opcode>, i: int, j: int, p: int, q: int, i': int, j': int)
    requires Chained(x, i, j, p, q) && Chained(y, p, q, i', j')
    ensures Chained(x + y, i, j, i', j')
    decreases |y|
  {
    if |y| == 0 {
      assert x + y == x;
    } else {
      var last := y[|y| - 1];
      ChainedAppend(x, y[..|y| - 1], i, j, p, q, last.i1, last.j1);
      assert (x + y)[..|x + y| - 1] == x + y[..|y| - 1];
    }
  }

  lemma {:induction false} ChainedAppendOne(x: seq<Opcode>, op: Opcode, i: int, j: int)
    requires Chained(x, i, j, op.i1, op.j1)
    ensures Chained(x + [op], i, j, op.i2, op.j2)
  {
    assert (x + [op])[..|x|] == x;
  }

  /** `add_tag` (nested in the Klondike `get_opcodes`): `insert` when the
      `a` range is empty, else `delete` when the `b` range is empty, else
      `replace`. On forward ranges that are not both empty the tag fits the
      ranges. */
  function AddTag(i1: int, i2: int, j1: int, j2: int): (op: Opcode)
    ensures op.i1 == i1 && op.i2 == i2 && op.j1 == j1 && op.j2 == j2 && op.tag != Equal
    ensures i1 <= i2 && j1 <= j2 && (i1 < i2 || j1 < j2) ==> WellTagged(op)
  {
    var tag := if i1 == i2 then Insert else if j1 == j2 then Delete else Replace;
    Opcode(tag, i1, i2, j1, j2)
  }

  /** The opcode for the gap `a[i:ai]` / `b[j:bj]` before a block: none
      when both sides are empty, otherwise `replace`, `delete` or `insert`
      by which sides are non-empty. On a forward gap this is `add_tag` and
      the gap is tiled exactly. */
  function GapOps(i: int, ai: int, j: int, bj: int): (ops: seq<Opcode>)
    ensures |ops| <= 1 && forall k :: 0 <= k < |ops| ==> ops[k].tag != Equal
    ensures i <= ai && j <= bj ==> Chained(ops, i, j, ai, bj) && AllWellTagged(ops)
    ensures i <= ai && j <= bj && (i < ai || j < bj) ==> ops == [AddTag(i, ai, j, bj)]
    ensures i >= ai && j >= bj ==> ops == []
  {
    if i < ai && j < bj then [Opcode(Replace, i, ai, j, bj)]
    else if i < ai then [Opcode(Delete, i, ai, j, bj)]
    else if j < bj then [Opcode(Insert, i, ai, j, bj)]
    else []
  }

  /** A block with lines beyond the end of `a` or `b`: indexing them
      raises `IndexError`. */
  predicate OutOfRange(m: Block, la: nat, lb: nat)
  {
    1 <= m.size && (la < m.a + m.size || lb < m.b + m.size)
  }

  /** A block of lines inside both files. */
  predicate Inside(m: Block, la: nat, lb: nat)
  {
    0 <= m.size && m.a + m.size <= la && m.b + m.size <= lb
  }

  /** A one-line `replace` of two lines whose original text differs. */
  predicate DifferingLine<T(==)>(a: seq<T>, b: seq<T>, op: Opcode)
  {
    op.i2 == op.i1 + 1 && op.j2 == op.j1 + 1 && 0 <= op.i1 < |a| && 0 <= op.j1 < |b| && a[op.i1] != b[op.j1]
  }

  /** Opcodes that are well tagged and whose `equal` ranges hold identical
      lines. */
  predicate Sound<T(==)>(a: seq<T>, b: seq<T>, ops: seq<Opcode>)
  {
    AllWellTagged(ops) && AllEqualText(a, b, ops)
  }

  lemma {:induction false} SoundAppend<T>(a: seq<T>, b: seq<T>, ops: seq<Opcode>, op: Opcode)
    requires Sound(a, b, ops) && WellTagged(op) && EqualText(a, b, op)
    ensures Sound(a, b, ops + [op])
  {
    forall k | 0 <= k < |ops + [op]|
      ensures WellTagged((ops + [op])[k]) && EqualText(a, b, (ops + [op])[k])
    {
      if k < |ops| {
        assert (ops + [op])[k] == ops[k];
      }
    }
  }

  // ---------------------------------------------------------------------
  // The junk-change loop, as a function
  // ---------------------------------------------------------------------

  /** The pending equal run `n1..n` of block `m` as an opcode, if any. */
  function Flush(m: Block, n1: nat, n: nat): (ops: seq<Opcode>)
    ensures |ops| <= 1
  {
    if n1 < n then [Opcode(Equal, m.a + n1, m.a + n, m.b + n1, m.b + n)] else []
  }

  /** What the junk-change loop emits from line `n` of block `m` on, with
      lines `n1..n` equal and pending: a differing line closes the pending
      run and becomes a one-line `replace`; the end of the block closes the
      run. */
  function Runs<T(==)>(a: seq<T>, b: seq<T>, m: Block, n1: nat, n: nat): seq<Opcode>
    requires n1 <= n <= m.size && m.a + m.size <= |a| && m.b + m.size <= |b|
    decreases m.size - n
  {
    if n == m.size then Flush(m, n1, n)
    else if a[m.a + n] != b[m.b + n] then
      Flush(m, n1, n) + [Opcode(Replace, m.a + n, m.a + n + 1, m.b + n, m.b + n + 1)] + Runs(a, b, m, n + 1, n + 1)
    else Runs(a, b, m, n1, n + 1)
  }

  /** The opcodes the junk-change loop emits for a block that raises no
      `IndexError`: nothing for an empty block. */
  function BlockOps<T(==)>(a: seq<T>, b: seq<T>, m: Block): seq<Opcode>
    requires !OutOfRange(m, |a|, |b|)
  {
    if m.size <= 0 then [] else Runs(a, b, m, 0, 0)
  }

  /** Lines `n1..n` of block `m` are equal on both sides. */
  predicate PendingEqual<T(==)>(a: seq<T>, b: seq<T>, m: Block, n1: nat, n: nat)
    requires m.a + n <= |a| && m.b + n <= |b|
  {
    forall i :: m.a + n1 <= i < m.a + n ==> a[i] == b[m.b + (i - m.a)]
  }

  /** An opcode inside a block: a non-empty `equal` of identical lines, or
      a one-line `replace` of two lines that differ. */
  predicate BlockOp<T(==)>(a: seq<T>, b: seq<T>, op: Opcode)
  {
    (op.tag == Equal && WellTagged(op) && EqualText(a, b, op)) || (op.tag == Replace && DifferingLine(a, b, op))
  }

  predicate AllBlockOps<T(==)>(a: seq<T>, b: seq<T>, ops: seq<Opcode>)
  {
    forall k :: 0 <= k < |ops| ==> BlockOp(a, b, ops[k])
  }

  /** No two `equal` opcodes follow each other. */
  predicate NoAdjacentEqual(ops: seq<Opcode>)
  {
    forall k :: 0 < k < |ops| ==> ops[k - 1].tag != Equal || ops[k].tag != Equal
  }

  /** The opcode spans line `t` of block `m` on both sides. */
  predicate Covers(op: Opcode, m: Block, t: int)
  {
    op.i1 <= m.a + t < op.i2 && op.j1 <= m.b + t < op.j2
  }

  /** The opcode spanning line `t` of block `m` is `equal` exactly when
      the two lines are identical, and is otherwise the one-line `replace`
      of exactly that pair. */
  predicate Classifies<T(==)>(a: seq<T>, b: seq<T>, m: Block, t: int, op: Opcode)
    requires 0 <= m.a + t < |a| && 0 <= m.b + t < |b|
  {
    && (op.tag == Equal <==> a[m.a + t] == b[m.b + t])
    && (op.tag != Equal ==> op == Opcode(Replace, m.a + t, m.a + t + 1, m.b + t, m.b + t + 1))
  }

  /** Block opcodes are well tagged and their `equal` ranges hold
      identical lines. */
  lemma {:induction false} BlockOpsSound<T>(a: seq<T>, b: seq<T>, ops: seq<Opcode>)
    requires AllBlockOps(a, b, ops)
    ensures Sound(a, b, ops)
  {
    forall k | 0 <= k < |ops|
      ensures WellTagged(ops[k]) && EqualText(a, b, ops[k])
    {
      assert BlockOp(a, b, ops[k]);
    }
  }

  lemma {:induction false} AllBlockOpsAppend<T>(a: seq<T>, b: seq<T>, x: seq<Opcode>, y: seq<Opcode>)
    requires AllBlockOps(a, b, x) && AllBlockOps(a, b, y)
    ensures AllBlockOps(a, b, x + y)
  {
    forall k | 0 <= k < |x + y|
      ensures BlockOp(a, b, (x + y)[k])
    {
      if k < |x| {
        assert (x + y)[k] == x[k];
      } else {
        assert (x + y)[k] == y[k - |x|];
      }
    }
  }

  /** Every opcode of a block is an `equal` of identical lines or a
      one-line `replace` of differing lines (never `delete` or `insert`),
      they tile the block, and no two `equal` runs are adjacent, so each
      run of identical lines is one maximal `equal`. */
  lemma BlockOpsShape<T>(a: seq<T>, b: seq<T>, m: Block)
    requires !OutOfRange(m, |a|, |b|) && 0 <= m.size
    ensures var ops := BlockOps(a, b, m);
            AllBlockOps(a, b, ops) && Chained(ops, m.a, m.b, m.a + m.size, m.b + m.size) && NoAdjacentEqual(ops)
  {
    if m.size > 0 {
      assert BlockOps(a, b, m) == Runs(a, b, m, 0, 0);
      RunsTile(a, b, m, 0, 0);
      RunsOps(a, b, m, 0, 0);
      RunsSeparated(a, b, m, 0, 0);
    }
  }

  /** Each line of a block is spanned by one of its opcodes, `equal`
      exactly when the lines are identical and otherwise a one-line
      `replace`. */
  lemma BlockOpsCover<T>(a: seq<T>, b: seq<T>, m: Block, t: nat)
    requires !OutOfRange(m, |a|, |b|) && t < m.size
    ensures var ops := BlockOps(a, b, m);
            exists k :: 0 <= k < |ops| && Covers(ops[k], m, t) && Classifies(a, b, m, t, ops[k])
  {
    assert BlockOps(a, b, m) == Runs(a, b, m, 0, 0);
    var k := RunsCover(a, b, m, 0, 0, t);
  }

  /** `Runs` at a differing line `n`: the pending run, the one-line
      `replace`, then the rest of the block. */
  lemma {:induction false} RunsAtCut<T>(a: seq<T>, b: seq<T>, m: Block, n1: nat, n: nat)
    requires n1 <= n < m.size && m.a + m.size <= |a| && m.b + m.size <= |b| && a[m.a + n] != b[m.b + n]
    ensures Runs(a, b, m, n1, n) ==
            Flush(m, n1, n) + [Opcode(Replace, m.a + n, m.a + n + 1, m.b + n, m.b + n + 1)] + Runs(a, b, m, n + 1, n + 1)
  {
  }

  lemma {:induction false} RunsTile<T>(a: seq<T>, b: seq<T>, m: Block, n1: nat, n: nat)
    requires n1 <= n <= m.size && m.a + m.size <= |a| && m.b + m.size <= |b|
    ensures Chained(Runs(a, b, m, n1, n), m.a + n1, m.b + n1, m.a + m.size, m.b + m.size)
    decreases m.size - n
  {
    if n == m.size {
      FlushTile(m, n1, n);
    } else if a[m.a + n] != b[m.b + n] {
      RunsAtCut(a, b, m, n1, n);
      RunsTile(a, b, m, n + 1, n + 1);
      FlushTile(m, n1, n);
      var rep := Opcode(Replace, m.a + n, m.a + n + 1, m.b + n, m.b + n + 1);
      ChainedAppendOne(Flush(m, n1, n), rep, m.a + n1, m.b + n1);
      ChainedAppend(Flush(m, n1, n) + [rep], Runs(a, b, m, n + 1, n + 1),
                    m.a + n1, m.b + n1, m.a + n + 1, m.b + n + 1, m.a + m.size, m.b + m.size);
    } else {
      RunsTile(a, b, m, n1, n + 1);
    }
  }

  lemma {:induction false} FlushTile(m: Block, n1: nat, n: nat)
    requires n1 <= n
    ensures Chained(Flush(m, n1, n), m.a + n1, m.b + n1, m.a + n, m.b + n)
  {
    assert Flush(m, n1, n)[..0] == [];
  }

  lemma {:induction false} RunsOps<T>(a: seq<T>, b: seq<T>, m: Block, n1: nat, n: nat)
    requires n1 <= n <= m.size && m.a + m.size <= |a| && m.b + m.size <= |b|
    requires PendingEqual(a, b, m, n1, n)
    ensures AllBlockOps(a, b, Runs(a, b, m, n1, n))
    decreases m.size - n
  {
    if n == m.size {
      FlushShape(a, b, m, n1, n);
    } else if a[m.a + n] != b[m.b + n] {
      RunsAtCut(a, b, m, n1, n);
      RunsOps(a, b, m, n + 1, n + 1);
      FlushShape(a, b, m, n1, n);
      var rep := Opcode(Replace, m.a + n, m.a + n + 1, m.b + n, m.b + n + 1);
      assert BlockOp(a, b, rep);
      AllBlockOpsAppend(a, b, Flush(m, n1, n), [rep]);
      AllBlockOpsAppend(a, b, Flush(m, n1, n) + [rep], Runs(a, b, m, n + 1, n + 1));
    } else {
      assert PendingEqual(a, b, m, n1, n + 1);
      RunsOps(a, b, m, n1, n + 1);
    }
  }

  lemma {:induction false} RunsSeparated<T>(a: seq<T>, b: seq<T>, m: Block, n1: nat, n: nat)
    requires n1 <= n <= m.size && m.a + m.size <= |a| && m.b + m.size <= |b|
    ensures NoAdjacentEqual(Runs(a, b, m, n1, n))
    decreases m.size - n
  {
    if n == m.size {
    } else if a[m.a + n] != b[m.b + n] {
      RunsAtCut(a, b, m, n1, n);
      RunsSeparated(a, b, m, n + 1, n + 1);
      SeparatedByReplace(Flush(m, n1, n), Opcode(Replace, m.a + n, m.a + n + 1, m.b + n, m.b + n + 1),
                         Runs(a, b, m, n + 1, n + 1));
    } else {
      RunsSeparated(a, b, m, n1, n + 1);
    }
  }

  /** A `replace` in the middle separates any `equal` runs around it. */
  lemma {:induction false} SeparatedByReplace(x: seq<Opcode>, rep: Opcode, y: seq<Opcode>)
    requires |x| <= 1 && rep.tag == Replace && NoAdjacentEqual(y)
    ensures NoAdjacentEqual(x + [rep] + y)
  {
    var ops := x + [rep] + y;
    forall k | 0 < k < |ops|
      ensures ops[k - 1].tag != Equal || ops[k].tag != Equal
    {
      if k == |x| {
        assert ops[k] == rep;
      } else if k == |x| + 1 {
        assert ops[k - 1] == rep;
      } else {
        assert k > |x| + 1;
        assert ops[k] == y[k - |x| - 1] && ops[k - 1] == y[k - 2 - |x|];
      }
    }
  }

  /** The pending run is a sound `equal` tiling lines `n1..n`. */
  lemma {:induction false} FlushShape<T>(a: seq<T>, b: seq<T>, m: Block, n1: nat, n: nat)
    requires n1 <= n && m.a + n <= |a| && m.b + n <= |b|
    requires PendingEqual(a, b, m, n1, n)
    ensures var ops := Flush(m, n1, n);
            && (forall k :: 0 <= k < |ops| ==> ops[k].tag == Equal)
            && AllBlockOps(a, b, ops)
            && Chained(ops, m.a + n1, m.b + n1, m.a + n, m.b + n)
  {
    if n1 < n {
      var op := Opcode(Equal, m.a + n1, m.a + n, m.b + n1, m.b + n);
      assert a[op.i1..op.i2] == b[op.j1..op.j2] by {
        forall t | 0 <= t < n - n1
          ensures a[op.i1..op.i2][t] == b[op.j1..op.j2][t]
        {
          assert a[op.i1..op.i2][t] == a[op.i1 + t];
          assert b[op.j1..op.j2][t] == b[m.b + (op.i1 + t - m.a)];
        }
      }
      assert BlockOp(a, b, op);
      assert Flush(m, n1, n)[..0] == [];
    }
  }

  lemma {:induction false} RunsCover<T>(a: seq<T>, b: seq<T>, m: Block, n1: nat, n: nat, t: nat) returns (k: nat)
    requires n1 <= n <= m.size && m.a + m.size <= |a| && m.b + m.size <= |b|
    requires PendingEqual(a, b, m, n1, n) && n1 <= t < m.size
    ensures var ops := Runs(a, b, m, n1, n);
            k < |ops| && Covers(ops[k], m, t) && Classifies(a, b, m, t, ops[k])
    decreases m.size - n
  {
    var flush := Flush(m, n1, n);
    var ops := Runs(a, b, m, n1, n);
    if n == m.size {
      assert ops == flush;
      k := 0;
    } else if a[m.a + n] != b[m.b + n] {
      var rep := Opcode(Replace, m.a + n, m.a + n + 1, m.b + n, m.b + n + 1);
      var rest := Runs(a, b, m, n + 1, n + 1);
      assert ops == flush + [rep] + rest;
      if t < n {
        assert a[m.a + t] == b[m.b + ((m.a + t) - m.a)];
        assert ops[0] == flush[0];
        k := 0;
      } else if t == n {
        assert ops[|flush|] == rep;
        k := |flush|;
      } else {
        var r := RunsCover(a, b, m, n + 1, n + 1, t);
        assert ops[|flush| + 1 + r] == rest[r];
        k := |flush| + 1 + r;
      }
    } else {
      assert PendingEqual(a, b, m, n1, n + 1);
      k := RunsCover(a, b, m, n1, n + 1, t);
    }
  }

  // ---------------------------------------------------------------------
  // The junk-change loop
  // ---------------------------------------------------------------------

  /** The junk-change loop of `get_opcodes` over one matching block: every
      line whose original text differs becomes a one-line `replace`, the
      runs between them become `equal` opcodes, and together they tile the
      block: on a normal return the opcodes are exactly `BlockOps`. Raises
      `IndexError` exactly when the block runs past the end of `a` or `b`;
      `ops` then holds what was appended before the raise. */
  method SplitBlock<T(==)>(a: seq<T>, b: seq<T>, m: Block) returns (ops: seq<Opcode>, err: Option<Raised>)
    ensures err.Some? <==> OutOfRange(m, |a|, |b|)
    ensures err.Some? ==> err.value == IndexError
    ensures err.None? ==> ops == BlockOps(a, b, m)
    ensures AllBlockOps(a, b, ops)
    ensures err.None? && 0 <= m.size ==> Chained(ops, m.a, m.b, m.a + m.size, m.b + m.size)
  {
    var n1, n;
    ops, n1, n, err := SplitLines(a, b, m);
    if err.Some? {
      return;
    }
    if 0 <= m.size {
      if Inside(m, |a|, |b|) {
        assert Runs(a, b, m, n1, n) == Flush(m, n1, n);
      }
      ops := FlushEqual(a, b, m, ops, n1, n);
    }
  }

  /** The loop itself: walks the lines of the block, raising `IndexError`
      at the first line past the end of `a` or `b`, and otherwise stops
      after the last line with the final run still pending. */
  method SplitLines<T(==)>(a: seq<T>, b: seq<T>, m: Block) returns (ops: seq<Opcode>, n1: nat, n: nat, err: Option<Raised>)
    ensures Splitting(a, b, m, ops, n1, n)
    ensures err.Some? <==> OutOfRange(m, |a|, |b|)
    ensures err.Some? ==> err.value == IndexError
    ensures err.None? ==> n == if m.size < 0 then 0 else m.size
  {
    ops, n1, n := [], 0, 0;
    while n < m.size
      invariant Splitting(a, b, m, ops, n1, n)
    {
      if m.a + n >= |a| || m.b + n >= |b| {
        return ops, n1, n, Some(IndexError);
      }
      if a[m.a + n] != b[m.b + n] {
        ops := CutLine(a, b, m, ops, n1, n);
        n1 := n + 1;
      } else {
        KeepLine(a, b, m, ops, n1, n);
      }
      n := n + 1;
    }
    return ops, n1, n, None;
  }

  /** The state of the junk-change loop after `n` lines of block `m`: the
      lines `n1..n` are equal and pending, what was emitted tiles the lines
      before `n1` with block opcodes, and followed by `Runs` from there it is
      all of `BlockOps`. */
  ghost predicate Splitting<T>(a: seq<T>, b: seq<T>, m: Block, ops: seq<Opcode>, n1: nat, n: nat)
  {
    && n1 <= n && (n <= m.size || n == 0)
    && (n > 0 ==> m.a + n <= |a| && m.b + n <= |b|)
    && (n1 < n ==> PendingEqual(a, b, m, n1, n))
    && Chained(ops, m.a, m.b, m.a + n1, m.b + n1)
    && AllBlockOps(a, b, ops)
    && (n == 0 ==> ops == [])
    && (Inside(m, |a|, |b|) ==> ops + Runs(a, b, m, n1, n) == BlockOps(a, b, m))
  }

  /** Emits the pending equal run `n1..n` of block `m`, if any. */
  method FlushEqual<T(==)>(a: seq<T>, b: seq<T>, m: Block, ops: seq<Opcode>, n1: nat, n: nat)
    returns (ops': seq<Opcode>)
    requires Splitting(a, b, m, ops, n1, n)
    ensures ops' == ops + Flush(m, n1, n)
    ensures Chained(ops', m.a, m.b, m.a + n, m.b + n) && AllBlockOps(a, b, ops')
  {
    if n > 0 {
      FlushShape(a, b, m, n1, n);
      ChainedAppend(ops, Flush(m, n1, n), m.a, m.b, m.a + n1, m.b + n1, m.a + n, m.b + n);
      AllBlockOpsAppend(a, b, ops, Flush(m, n1, n));
    } else {
      assert Flush(m, n1, n) == [] && ops + [] == ops;
    }
    ops' := ops + Flush(m, n1, n);
  }

  /** A differing line: the pending equal run, then a one-line `replace`. */
  method CutLine<T(==)>(a: seq<T>, b: seq<T>, m: Block, ops: seq<Opcode>, n1: nat, n: nat)
    returns (ops': seq<Opcode>)
    requires Splitting(a, b, m, ops, n1, n) && n < m.size
    requires m.a + n < |a| && m.b + n < |b| && a[m.a + n] != b[m.b + n]
    ensures Splitting(a, b, m, ops', n + 1, n + 1)
  {
    var flushed := FlushEqual(a, b, m, ops, n1, n);
    var rep := Opcode(Replace, m.a + n, m.a + n + 1, m.b + n, m.b + n + 1);
    ChainedAppendOne(flushed, rep, m.a, m.b);
    assert BlockOp(a, b, rep);
    AllBlockOpsAppend(a, b, flushed, [rep]);
    ops' := flushed + [rep];
    if Inside(m, |a|, |b|) {
      RunsCut(a, b, m, ops, n1, n);
    }
  }

  /** An equal line extends the pending run. */
  lemma {:induction false} KeepLine<T>(a: seq<T>, b: seq<T>, m: Block, ops: seq<Opcode>, n1: nat, n: nat)
    requires Splitting(a, b, m, ops, n1, n) && n < m.size && m.a + n < |a| && m.b + n < |b|
    requires a[m.a + n] == b[m.b + n]
    ensures Splitting(a, b, m, ops, n1, n + 1)
  {
    assert PendingEqual(a, b, m, n1, n + 1);
    if Inside(m, |a|, |b|) {
      assert Runs(a, b, m, n1, n) == Runs(a, b, m, n1, n + 1);
    }
  }

  /** At a differing line the loop's output so far, the pending run and
      the one-line `replace` are followed by the rest of the block. */
  lemma {:induction false} RunsCut<T>(a: seq<T>, b: seq<T>, m: Block, before: seq<Opcode>, n1: nat, n: nat)
    requires n1 <= n < m.size && m.a + m.size <= |a| && m.b + m.size <= |b| && a[m.a + n] != b[m.b + n]
    ensures before + Runs(a, b, m, n1, n) ==
            before + Flush(m, n1, n) + [Opcode(Replace, m.a + n, m.a + n + 1, m.b + n, m.b + n + 1)] + Runs(a, b, m, n + 1, n + 1)
  {
    var rep := Opcode(Replace, m.a + n, m.a + n + 1, m.b + n, m.b + n + 1);
    var rest := Runs(a, b, m, n + 1, n + 1);
    assert Runs(a, b, m, n1, n) == Flush(m, n1, n) + [rep] + rest;
    Associate(before, Flush(m, n1, n) + [rep], rest);
    Associate(before, Flush(m, n1, n), [rep]);
  }

  /** The line matcher's key lists and the character matcher the Klondike
      `get_opcodes` uses when `extra_effort` is set; `NoEffort` for the
      plain patience matcher and for `extra_effort = 0`. */
  datatype Effort =
    | NoEffort
    | Effort(aKeys: seq<string>, bKeys: seq<string>, matcher: (string, string) -> seq<Block>)

  /** Character blocks inside strings of lengths `la` and `lb`, as any
      `difflib` matcher returns. */
  predicate CharBlocksIn(blocks: seq<Block>, la: nat, lb: nat)
  {
    forall k :: 0 <= k < |blocks| ==>
      0 <= blocks[k].size && blocks[k].a + blocks[k].size <= la && blocks[k].b + blocks[k].size <= lb
  }

  /** Keys line up with the lines and the character matcher stays inside
      its inputs. */
  ghost predicate ValidEffort(effort: Effort, la: nat, lb: nat)
  {
    effort.Effort? ==>
      |effort.aKeys| == la && |effort.bKeys| == lb &&
      forall x: string, y: string :: CharBlocksIn(effort.matcher(x, y), |x|, |y|)
  }

  /** A gap the extra-effort pass would slice outside the key lists (a
      negative start wraps around in Python, an end past the list is
      clipped); the model raises instead. */
  predicate GapHazard(effort: Effort, la: nat, lb: nat, i: int, ai: int, j: int, bj: int)
  {
    effort.Effort? && i < ai && j < bj && (i < ai - 1 || j < bj - 1) &&
    !(0 <= i && ai <= la && 0 <= j && bj <= lb)
  }

  /** The inner `while cur_a <= m[0]` loop of the extra-effort pass: moves
      past whole lines (each counted with its two-character separator)
      until the offset passes `target`; the last line passed is the one
      holding `target`. */
  method Advance(lines: seq<string>, cur: nat, cn: nat, target: int) returns (cur': nat, cn': nat)
    requires cn <= |lines| && cur == SumLengths(lines[..cn], 2) && target < SumLengths(lines, 2)
    ensures cn <= cn' <= |lines| && cur' == SumLengths(lines[..cn'], 2) && target < cur'
    ensures cn < cn' ==> SumLengths(lines[..cn' - 1], 2) <= target
  {
    cur', cn' := cur, cn;
    assert lines[..|lines|] == lines;
    while cur' <= target
      invariant cn <= cn' <= |lines| && cur' == SumLengths(lines[..cn'], 2)
      invariant cn < cn' ==> SumLengths(lines[..cn' - 1], 2) <= target
      decreases |lines| - cn'
    {
      assert lines[..cn' + 1][..cn'] == lines[..cn'];
      cur', cn' := cur' + |lines[cn']| + 2, cn' + 1;
    }
  }

  /** Closes the lines before an anchor through `add_tag`, if any, then
      emits the anchor lines `(x, y)` as a one-line `equal` when the
      original lines are identical and a one-line `replace` otherwise. */
  method AnchorLines(a: seq<string>, b: seq<string>, ops: seq<Opcode>, i: int, j: int,
                     pi: int, pj: int, x: nat, y: nat)
    returns (ops': seq<Opcode>)
    requires Chained(ops, i, j, pi, pj) && Sound(a, b, ops)
    requires pi <= x < |a| && pj <= y < |b|
    ensures Chained(ops', i, j, x + 1, y + 1) && Sound(a, b, ops')
  {
    ops' := ops;
    if pi < x || pj < y {
      var gap := AddTag(pi, x, pj, y);
      ChainedAppendOne(ops', gap, i, j);
      SoundAppend(a, b, ops', gap);
      ops' := ops' + [gap];
    }
    var tag := if a[x] == b[y] then Equal else Replace;
    assert a[x..x + 1] == [a[x]] && b[y..y + 1] == [b[y]];
    var line := Opcode(tag, x, x + 1, y, y + 1);
    ChainedAppendOne(ops', line, i, j);
    SoundAppend(a, b, ops', line);
    ops' := ops' + [line];
  }

  /** The `extra_effort` pass over a replaced gap `a[i:ai]` / `b[j:bj]`
      (both non-empty): the keys of each side are joined with `"a\n"` and
      `"b\n"`, and every character block of at least 5 characters anchors
      the pair of lines holding its start, which becomes a one-line
      `equal` (identical original lines) or `replace`; the ranges between
      anchors go through `add_tag`. The result tiles the gap exactly. */
  method ExtraEffort(a: seq<string>, b: seq<string>, aKeys: seq<string>, bKeys: seq<string>,
                     i: nat, ai: nat, j: nat, bj: nat, chars: seq<Block>)
    returns (ops: seq<Opcode>)
    requires |aKeys| == |a| && |bKeys| == |b|
    requires i < ai <= |a| && j < bj <= |b|
    requires CharBlocksIn(chars, |Join(aKeys[i..ai], "a\n")|, |Join(bKeys[j..bj], "b\n")|)
    ensures Chained(ops, i, j, ai, bj) && Sound(a, b, ops)
  {
    var la, lb := aKeys[i..ai], bKeys[j..bj];
    var curA, curB, curAn, curBn, prevAn, prevBn := 0, 0, 0, 0, 0, 0;
    ops := [];
    for q := 0 to |chars|
      invariant prevAn <= curAn <= |la| && prevBn <= curBn <= |lb|
      invariant curA == SumLengths(la[..curAn], 2) && curB == SumLengths(lb[..curBn], 2)
      invariant Chained(ops, i, j, i + prevAn, j + prevBn) && Sound(a, b, ops)
    {
      var m := chars[q];
      if m.size >= 5 {
        curA, curAn := Advance(la, curA, curAn, m.a);
        curB, curBn := Advance(lb, curB, curBn, m.b);
        if prevAn < curAn && prevBn < curBn {
          ops := AnchorLines(a, b, ops, i, j, i + prevAn, j + prevBn, i + curAn - 1, j + curBn - 1);
          prevAn, prevBn := curAn, curBn;
        }
      }
    }
    if i + prevAn < ai || j + prevBn < bj {
      var tail := AddTag(i + prevAn, ai, j + prevBn, bj);
      ChainedAppendOne(ops, tail, i, j);
      SoundAppend(a, b, ops, tail);
      ops := ops + [tail];
    }
  }

  /** The opcodes for the gap before a block: the extra-effort pass when
      it applies (a `replace` gap with more than one line on some side),
      the single gap opcode otherwise. */
  method EmitGap(a: seq<string>, b: seq<string>, effort: Effort, i: int, ai: int, j: int, bj: int)
    returns (r: Result<seq<Opcode>, Raised>)
    requires ValidEffort(effort, |a|, |b|)
    ensures r.Err? <==> GapHazard(effort, |a|, |b|, i, ai, j, bj)
    ensures r.Err? ==> r.error == IndexHazard
    ensures r.Ok? ==> AllEqualText(a, b, r.value)
    ensures r.Ok? && i <= ai && j <= bj ==> Chained(r.value, i, j, ai, bj) && AllWellTagged(r.value)
    ensures effort.NoEffort? ==> r == Ok(GapOps(i, ai, j, bj))
  {
    if effort.Effort? && i < ai && j < bj && (i < ai - 1 || j < bj - 1) {
      if !(0 <= i && ai <= |a| && 0 <= j && bj <= |b|) {
        return Err(IndexHazard);
      }
      var ja := Join(effort.aKeys[i..ai], "a\n");
      var jb := Join(effort.bKeys[j..bj], "b\n");
      var ops := ExtraEffort(a, b, effort.aKeys, effort.bKeys, i, ai, j, bj, effort.matcher(ja, jb));
      return Ok(ops);
    }
    return Ok(GapOps(i, ai, j, bj));
  }

  /** One iteration of the `get_opcodes` loop: the gap before block `m`,
      then the block itself. */
  method EmitBlock(a: seq<string>, b: seq<string>, effort: Effort, i: int, j: int, m: Block)
    returns (ops: seq<Opcode>, err: Option<Raised>, ghost gap: seq<Opcode>)
    requires ValidEffort(effort, |a|, |b|)
    ensures err == Some(IndexHazard) <==> GapHazard(effort, |a|, |b|, i, m.a, j, m.b)
    ensures err == Some(IndexError) <==> !GapHazard(effort, |a|, |b|, i, m.a, j, m.b) && OutOfRange(m, |a|, |b|)
    ensures err.Some? ==> err.value == IndexHazard || err.value == IndexError
    ensures AllEqualText(a, b, ops)
    ensures err.None? && i <= m.a && j <= m.b ==> AllWellTagged(ops)
    ensures err.None? && i <= m.a && j <= m.b && 0 <= m.size ==> Chained(ops, i, j, m.a + m.size, m.b + m.size)
    ensures err.None? ==> !OutOfRange(m, |a|, |b|) && ops == gap + BlockOps(a, b, m)
    ensures effort.NoEffort? ==> gap == GapOps(i, m.a, j, m.b)
  {
    var before := EmitGap(a, b, effort, i, m.a, j, m.b);
    gap := if before.Ok? then before.value else [];
    if before.Err? {
      return [], Some(before.error), gap;
    }
    var split, splitErr := SplitBlock(a, b, m);
    BlockOpsSound(a, b, split);
    if splitErr.None? && i <= m.a && j <= m.b && 0 <= m.size {
      ChainedAppend(before.value, split, i, j, m.a, m.b, m.a + m.size, m.b + m.size);
    }
    AppendSound(a, b, before.value, split, i <= m.a && j <= m.b);
    ops, err := before.value + split, splitErr;
  }

  /** The final sanity check of `get_opcodes`: walks the opcodes recording
      every one that does not start where the previous one ended, then
      checks the end point. It passes exactly when the opcodes tile both
      files from `(0, 0)` to `(la, lb)`. */
  method CheckCoverage(ops: seq<Opcode>, la: nat, lb: nat) returns (ok: bool)
    ensures ok <==> Chained(ops, 0, 0, la, lb)
  {
    var errors := 0;
    var i3, j3 := 0, 0;
    for k := 0 to |ops|
      invariant k == 0 ==> i3 == 0 && j3 == 0
      invariant k > 0 ==> i3 == ops[k - 1].i2 && j3 == ops[k - 1].j2
      invariant errors == 0 <==> Chained(ops[..k], 0, 0, i3, j3)
    {
      assert ops[..k + 1][..k] == ops[..k];
      if !(ops[k].i1 == i3 && ops[k].j1 == j3) {
        errors := errors + 1;
      }
      i3, j3 := ops[k].i2, ops[k].j2;
    }
    assert ops[..|ops|] == ops;
    ok := errors == 0 && i3 == la && j3 == lb;
  }

  /** `get_opcodes` over the given matching blocks (`_piersdiff_py.py`
      with `NoEffort`, `klondikediff.py` with its keys and character
      matcher). `answer` is the list as built, also when `err` reports a
      raise. A normal return tiles both files with opcodes whose `equal`
      ranges hold identical lines, well tagged when the blocks are
      monotone; well-formed blocks never make it raise. */
  method GetOpcodes(a: seq<string>, b: seq<string>, effort: Effort, blocks: seq<Block>)
    returns (answer: seq<Opcode>, err: Option<Raised>, ghost gaps: seq<seq<Opcode>>)
    requires ValidEffort(effort, |a|, |b|)
    ensures err.None? ==> |gaps| == |blocks| && NoneOutOfRange(blocks, |a|, |b|) && answer == Assemble(a, b, gaps, blocks)
    ensures |gaps| <= |blocks|
    ensures effort.NoEffort? ==>
              forall k :: 0 <= k < |gaps| ==> gaps[k] == PlainGap(blocks, k)
    ensures AllEqualText(a, b, answer)
    ensures err.None? ==> Chained(answer, 0, 0, |a|, |b|)
    ensures err.None? && Consistent(blocks) ==> AllWellTagged(answer)
    ensures err == Some(NotCovered) ==> !Chained(answer, 0, 0, |a|, |b|)
    ensures WellFormedBlocks(blocks, |a|, |b|) ==> err.None?
    ensures err == Some(IndexError) ==> exists k :: 0 <= k < |blocks| && OutOfRange(blocks[k], |a|, |b|)
    ensures effort.NoEffort? && (exists k :: 0 <= k < |blocks| && OutOfRange(blocks[k], |a|, |b|)) ==>
              err == Some(IndexError)
    ensures err == Some(IndexHazard) ==> effort.Effort?
  {
    answer, gaps := [], [];
    var i, j := 0, 0;
    assert blocks[..0] == [];
    for k := 0 to |blocks|
      invariant i == EndA(blocks, k) && j == EndB(blocks, k)
      invariant Built(a, b, effort, blocks, k, answer, gaps)
    {
      var stepErr;
      answer, gaps, stepErr := BlockStep(a, b, effort, blocks, k, answer, gaps);
      if stepErr.Some? {
        return answer, stepErr, gaps;
      }
      i, j := blocks[k].a + blocks[k].size, blocks[k].b + blocks[k].size;
    }
    BuiltAll(a, b, effort, blocks, answer, gaps);
    var ok := CheckCoverage(answer, |a|, |b|);
    if !ok {
      return answer, Some(NotCovered), gaps;
    }
    return answer, None, gaps;
  }

  /** What the loop of `get_opcodes` has built after the first `k`
      blocks: no block so far ran out of range, the list is the assembly
      of their gaps and block opcodes, and it is sound and, for
      well-formed blocks, tiles both files up to the end of block `k - 1`. */
  ghost predicate Built(a: seq<string>, b: seq<string>, effort: Effort, blocks: seq<Block>, k: nat,
                        answer: seq<Opcode>, gaps: seq<seq<Opcode>>)
  {
    && k <= |blocks| && |gaps| == k
    && NoneOutOfRange(blocks[..k], |a|, |b|)
    && answer == Assemble(a, b, gaps, blocks[..k])
    && (effort.NoEffort? ==>
          forall t :: 0 <= t < k ==> gaps[t] == PlainGap(blocks, t))
    && AllEqualText(a, b, answer)
    && (Consistent(blocks) ==> AllWellTagged(answer))
    && (WellFormedBlocks(blocks, |a|, |b|) ==> Chained(answer, 0, 0, EndA(blocks, k), EndB(blocks, k)))
  }

  /** After the last block: no block ran out of range, the list is the
      assembly of all gaps and blocks, and well-formed blocks are tiled
      up to the dummy at `(la, lb)`. */
  lemma {:induction false} BuiltAll(a: seq<string>, b: seq<string>, effort: Effort, blocks: seq<Block>,
                                    answer: seq<Opcode>, gaps: seq<seq<Opcode>>)
    requires Built(a, b, effort, blocks, |blocks|, answer, gaps)
    ensures NoneOutOfRange(blocks, |a|, |b|) && |gaps| == |blocks| && answer == Assemble(a, b, gaps, blocks)
    ensures !exists k :: 0 <= k < |blocks| && OutOfRange(blocks[k], |a|, |b|)
    ensures WellFormedBlocks(blocks, |a|, |b|) ==> Chained(answer, 0, 0, |a|, |b|)
  {
    assert blocks[..|blocks|] == blocks;
  }

  /** One iteration of the `get_opcodes` loop over block `k`, appending
      its gap and block opcodes; on a raise, what was appended so far and
      why it raised. */
  method BlockStep(a: seq<string>, b: seq<string>, effort: Effort, blocks: seq<Block>, k: nat,
                   answer: seq<Opcode>, ghost gaps: seq<seq<Opcode>>)
    returns (answer': seq<Opcode>, ghost gaps': seq<seq<Opcode>>, err: Option<Raised>)
    requires ValidEffort(effort, |a|, |b|) && k < |blocks|
    requires Built(a, b, effort, blocks, k, answer, gaps)
    ensures err.None? ==> Built(a, b, effort, blocks, k + 1, answer', gaps')
    ensures err.Some? ==> gaps' == gaps
    ensures AllEqualText(a, b, answer')
    ensures WellFormedBlocks(blocks, |a|, |b|) ==> err.None?
    ensures err == Some(IndexError) ==> OutOfRange(blocks[k], |a|, |b|)
    ensures effort.NoEffort? && OutOfRange(blocks[k], |a|, |b|) ==> err == Some(IndexError)
    ensures err.Some? ==> err == Some(IndexError) || (err == Some(IndexHazard) && effort.Effort?)
  {
    var m := blocks[k];
    var i, j := EndA(blocks, k), EndB(blocks, k);
    if WellFormedBlocks(blocks, |a|, |b|) {
      WellFormedBlocksInRange(blocks, |a|, |b|, k);
      if k > 0 {
        WellFormedBlocksInRange(blocks, |a|, |b|, k - 1);
      }
    }
    var step, stepErr, gap := EmitBlock(a, b, effort, i, j, m);
    AppendSound(a, b, answer, step, Consistent(blocks) && stepErr.None?);
    answer', gaps', err := answer + step, gaps, stepErr;
    if stepErr.None? {
      BuiltStep(a, b, effort, blocks, k, answer, gaps, step, gap);
      gaps' := gaps + [gap];
    }
  }

  /** The loop invariant after one more block that raised nothing: its
      gap and block opcodes are appended and `gaps` records the gap. */
  lemma {:induction false} BuiltStep(a: seq<string>, b: seq<string>, effort: Effort, blocks: seq<Block>, k: nat,
                                     answer: seq<Opcode>, gaps: seq<seq<Opcode>>, step: seq<Opcode>, gap: seq<Opcode>)
    requires k < |blocks| && Built(a, b, effort, blocks, k, answer, gaps)
    requires !OutOfRange(blocks[k], |a|, |b|) && step == gap + BlockOps(a, b, blocks[k])
    requires effort.NoEffort? ==> gap == PlainGap(blocks, k)
    requires AllEqualText(a, b, answer + step) && (Consistent(blocks) ==> AllWellTagged(answer + step))
    requires WellFormedBlocks(blocks, |a|, |b|) ==>
               Chained(step, EndA(blocks, k), EndB(blocks, k), EndA(blocks, k + 1), EndB(blocks, k + 1))
    ensures Built(a, b, effort, blocks, k + 1, answer + step, gaps + [gap])
  {
    var m := blocks[k];
    if WellFormedBlocks(blocks, |a|, |b|) {
      ChainedAppend(answer, step, 0, 0, EndA(blocks, k), EndB(blocks, k), EndA(blocks, k + 1), EndB(blocks, k + 1));
    }
    NoneOutOfRangeExtend(blocks, k, |a|, |b|);
    AssembleStep(a, b, gaps, gap, blocks, k);
    Associate(answer, gap, BlockOps(a, b, m));
    if effort.NoEffort? {
      PlainGapsStep(blocks, k, gaps, gap);
    }
  }

  /** Without extra effort every recorded gap is the plain gap opcode. */
  lemma {:induction false} PlainGapsStep(blocks: seq<Block>, k: nat, gaps: seq<seq<Opcode>>, gap: seq<Opcode>)
    requires k < |blocks| && |gaps| == k
    requires forall t :: 0 <= t < k ==> gaps[t] == PlainGap(blocks, t)
    requires gap == PlainGap(blocks, k)
    ensures forall t :: 0 <= t < k + 1 ==>
              (gaps + [gap])[t] == PlainGap(blocks, t)
  {
    assert forall t :: 0 <= t < k ==> (gaps + [gap])[t] == gaps[t];
  }

  lemma {:induction false} NoneOutOfRangeExtend(blocks: seq<Block>, k: nat, la: nat, lb: nat)
    requires k < |blocks| && NoneOutOfRange(blocks[..k], la, lb) && !OutOfRange(blocks[k], la, lb)
    ensures NoneOutOfRange(blocks[..k + 1], la, lb)
  {
    assert forall t :: 0 <= t < k ==> blocks[..k + 1][t] == blocks[..k][t];
  }

  /** No block runs past the end of `a` or `b`. */
  predicate NoneOutOfRange(blocks: seq<Block>, la: nat, lb: nat)
  {
    forall k :: 0 <= k < |blocks| ==> !OutOfRange(blocks[k], la, lb)
  }

  /** The plain gap opcode before block `k`, from the end of the block
      before it. */
  function PlainGap(blocks: seq<Block>, k: nat): seq<Opcode>
    requires k < |blocks|
  {
    GapOps(EndA(blocks, k), blocks[k].a, EndB(blocks, k), blocks[k].b)
  }

  /** Where the block before block `k` ends in `a` (`0` for the first). */
  function EndA(blocks: seq<Block>, k: nat): int
    requires k <= |blocks|
  {
    if k == 0 then 0 else blocks[k - 1].a + blocks[k - 1].size
  }

  /** Where the block before block `k` ends in `b` (`0` for the first). */
  function EndB(blocks: seq<Block>, k: nat): int
    requires k <= |blocks|
  {
    if k == 0 then 0 else blocks[k - 1].b + blocks[k - 1].size
  }

  /** The list `get_opcodes` builds: block by block, the opcodes of the
      gap before it (`gaps[k]`) and then the block's own junk-change
      opcodes. */
  function Assemble<T(==)>(a: seq<T>, b: seq<T>, gaps: seq<seq<Opcode>>, blocks: seq<Block>): seq<Opcode>
    requires |gaps| == |blocks| && NoneOutOfRange(blocks, |a|, |b|)
    decreases |blocks|
  {
    if |blocks| == 0 then []
    else Assemble(a, b, gaps[..|gaps| - 1], blocks[..|blocks| - 1]) + gaps[|gaps| - 1] + BlockOps(a, b, blocks[|blocks| - 1])
  }

  lemma {:induction false} AssembleStep<T>(a: seq<T>, b: seq<T>, gaps: seq<seq<Opcode>>, gap: seq<Opcode>, blocks: seq<Block>, k: nat)
    requires k < |blocks| && |gaps| == k && NoneOutOfRange(blocks[..k + 1], |a|, |b|)
    ensures NoneOutOfRange(blocks[..k], |a|, |b|)
    ensures Assemble(a, b, gaps + [gap], blocks[..k + 1]) ==
            Assemble(a, b, gaps, blocks[..k]) + gap + BlockOps(a, b, blocks[k])
  {
    assert blocks[..k + 1][..k] == blocks[..k];
    assert (gaps + [gap])[..k] == gaps;
  }

  /** Every line of every block is spanned by an opcode of the assembled
      list, `equal` exactly when the two lines are identical and otherwise
      the one-line `replace` of that pair: the junk-change pass never lets
      a differing line hide inside an `equal` run. */
  lemma {:induction false} AssembleCover<T>(a: seq<T>, b: seq<T>, gaps: seq<seq<Opcode>>, blocks: seq<Block>, k: nat, t: nat)
    returns (q: nat)
    requires |gaps| == |blocks| && NoneOutOfRange(blocks, |a|, |b|)
    requires k < |blocks| && t < blocks[k].size
    ensures var ops := Assemble(a, b, gaps, blocks);
            q < |ops| && Covers(ops[q], blocks[k], t) && Classifies(a, b, blocks[k], t, ops[q])
    decreases |blocks|
  {
    var n := |blocks| - 1;
    var front := Assemble(a, b, gaps[..n], blocks[..n]);
    var ops := Assemble(a, b, gaps, blocks);
    assert ops == front + gaps[n] + BlockOps(a, b, blocks[n]);
    if k < n {
      assert blocks[..n][k] == blocks[k];
      var r := AssembleCover(a, b, gaps[..n], blocks[..n], k, t);
      assert ops[r] == front[r];
      q := r;
    } else {
      var own := BlockOps(a, b, blocks[n]);
      assert own == Runs(a, b, blocks[n], 0, 0);
      var r := RunsCover(a, b, blocks[n], 0, 0, t);
      assert ops[|front| + |gaps[n]| + r] == own[r];
      q := |front| + |gaps[n]| + r;
    }
  }

  lemma {:induction false} AppendSound<T>(a: seq<T>, b: seq<T>, x: seq<Opcode>, y: seq<Opcode>, tagged: bool)
    requires AllEqualText(a, b, x) && AllEqualText(a, b, y)
    requires tagged ==> AllWellTagged(x) && AllWellTagged(y)
    ensures AllEqualText(a, b, x + y) && (tagged ==> AllWellTagged(x + y))
  {
    forall k | 0 <= k < |x + y|
      ensures EqualText(a, b, (x + y)[k]) && (tagged ==> WellTagged((x + y)[k]))
    {
      if k < |x| {
        assert (x + y)[k] == x[k];
      } else {
        assert (x + y)[k] == y[k - |x|];
      }
    }
  }
}
