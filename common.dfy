/** Shared vocabulary of the matchers: matched line pairs, matching blocks,
    opcodes, and the orderings the code checks or relies on. */
module Common {

  datatype Option<T> = None | Some(value: T)

  datatype Result<T, E> = Ok(value: T) | Err(error: E)

  /** A matched line pair `(line_in_a, line_in_b)`. */
  type Pair = (nat, nat)

  /** A matching block `(i, j, n)`: `a[i:i+n]` corresponds to `b[j:j+n]`.
      Starts are never negative; the size is a plain integer because the
      Klondike shift pass can in principle push it below zero. */
  datatype Block = Block(a: nat, b: nat, size: int)

  /** Why an operation raises: an `IndexError` from indexing past the end
      of a list, an index the model refuses because Python would wrap a
      negative index around or clip a slice (`IndexHazard`), or the
      "Error in algorithm" coverage check of `get_opcodes`. */
  datatype Raised = IndexError | IndexHazard | NotCovered

  datatype Tag = Equal | Replace | Delete | Insert

  /** An opcode `(tag, i1, i2, j1, j2)`: `a[i1:i2]` becomes `b[j1:j2]`. */
  datatype Opcode = Opcode(tag: Tag, i1: int, i2: int, j1: int, j2: int)

  /** Pairs strictly increase on both sides (the MatchSet invariant). */
  predicate StrictlyIncreasing(ps: seq<Pair>)
  {
    forall u, v :: 0 <= u < v < |ps| ==> ps[u].0 < ps[v].0 && ps[u].1 < ps[v].1
  }

  /** Every pair lies in `[alo, ahi) x [blo, bhi)`. */
  predicate PairsIn(ps: seq<Pair>, alo: int, ahi: int, blo: int, bhi: int)
  {
    forall u :: 0 <= u < |ps| ==> alo <= ps[u].0 < ahi && blo <= ps[u].1 < bhi
  }

  /** Every pair joins equal elements. */
  predicate PairsMatch<T(==)>(x: seq<T>, y: seq<T>, ps: seq<Pair>)
  {
    forall u :: 0 <= u < |ps| ==> ps[u].0 < |x| && ps[u].1 < |y| && x[ps[u].0] == y[ps[u].1]
  }

  /** No block starts before the end of the previous one, on either side:
      the condition `_check_consistency` enforces. */
  predicate Consistent(blocks: seq<Block>)
  {
    forall k :: 0 < k < |blocks| ==>
      blocks[k-1].a + blocks[k-1].size <= blocks[k].a &&
      blocks[k-1].b + blocks[k-1].size <= blocks[k].b
  }

  /** The block `(i, j, n)` joins equal runs: `x[i:i+n] == y[j:j+n]`. */
  predicate BlockMatches<T(==)>(x: seq<T>, y: seq<T>, m: Block)
  {
    m.size >= 0 && m.a + m.size <= |x| && m.b + m.size <= |y| &&
    x[m.a..m.a + m.size] == y[m.b..m.b + m.size]
  }

  /** Well-formed matching blocks for sequences of lengths `la` and `lb`:
      monotone, inside both sequences, ending in the dummy `(la, lb, 0)`. */
  predicate WellFormedBlocks(blocks: seq<Block>, la: nat, lb: nat)
  {
    |blocks| > 0 && Consistent(blocks) &&
    blocks[|blocks|-1] == Block(la, lb, 0) &&
    forall k :: 0 <= k < |blocks| ==> blocks[k].size >= 0
  }

  lemma {:induction false} WellFormedBlocksInRange(blocks: seq<Block>, la: nat, lb: nat, k: nat)
    requires WellFormedBlocks(blocks, la, lb) && k < |blocks|
    ensures blocks[k].a + blocks[k].size <= la && blocks[k].b + blocks[k].size <= lb
    decreases |blocks| - k
  {
    if k < |blocks| - 1 {
      WellFormedBlocksInRange(blocks, la, lb, k + 1);
    }
  }

  /** The side on which `_check_consistency` finds a block starting before
      the end of the previous one. */
  datatype Side = SideA | SideB

  /** `_check_consistency` (the same function in `_piersdiff_py.py` and
      `klondikediff.py`): None when it returns normally, the side of the
      `ValueError` otherwise. It raises exactly when the blocks are not
      consistent, and names the side of the first violation, preferring
      `a` when both sides fail at the same block. */
  method CheckConsistency(blocks: seq<Block>) returns (err: Option<Side>)
    ensures err.None? <==> Consistent(blocks)
    ensures err == Some(SideA) ==> exists k :: 0 < k < |blocks| && Consistent(blocks[..k]) &&
                                              blocks[k].a < blocks[k-1].a + blocks[k-1].size
    ensures err == Some(SideB) ==> exists k :: 0 < k < |blocks| && Consistent(blocks[..k]) &&
                                              blocks[k-1].a + blocks[k-1].size <= blocks[k].a &&
                                              blocks[k].b < blocks[k-1].b + blocks[k-1].size
  {
    var nextA, nextB := -1, -1;
    for k := 0 to |blocks|
      invariant Consistent(blocks[..k])
      invariant k == 0 ==> nextA == -1 && nextB == -1
      invariant k > 0 ==> nextA == blocks[k-1].a + blocks[k-1].size && nextB == blocks[k-1].b + blocks[k-1].size
    {
      if blocks[k].a < nextA {
        ViolationInconsistent(blocks, k);
        return Some(SideA);
      }
      if blocks[k].b < nextB {
        ViolationInconsistent(blocks, k);
        return Some(SideB);
      }
      ConsistentExtend(blocks, k);
      nextA, nextB := blocks[k].a + blocks[k].size, blocks[k].b + blocks[k].size;
    }
    assert blocks[..|blocks|] == blocks;
    return None;
  }

  /** A consistent prefix stays consistent with one more block that starts
      after the end of the previous one on both sides. */
  lemma {:induction false} ConsistentExtend(blocks: seq<Block>, k: nat)
    requires k < |blocks| && Consistent(blocks[..k])
    requires k > 0 ==> blocks[k-1].a + blocks[k-1].size <= blocks[k].a && blocks[k-1].b + blocks[k-1].size <= blocks[k].b
    ensures Consistent(blocks[..k + 1])
  {
    assert forall t :: 0 <= t < k + 1 ==> blocks[..k+1][t] == blocks[t];
    assert forall t :: 0 <= t < k ==> blocks[..k][t] == blocks[t];
  }

  /** A block starting before the end of the previous one, on either
      side, makes the blocks inconsistent. */
  lemma {:induction false} ViolationInconsistent(blocks: seq<Block>, k: nat)
    requires 0 < k < |blocks|
    requires blocks[k].a < blocks[k-1].a + blocks[k-1].size || blocks[k].b < blocks[k-1].b + blocks[k-1].size
    ensures !Consistent(blocks)
  {
  }

  /** Sequence concatenation regrouped; given as an explicit step because
      the solver is slow to find it inside larger proofs. */
  lemma {:induction false} Associate<T>(x: seq<T>, y: seq<T>, z: seq<T>)
    ensures x + y + z == x + (y + z)
  {
  }

  lemma {:induction false} EmptyAppend<T>(x: seq<T>)
    ensures [] + x == x
  {
  }

  /** Two adjacent slices join into one. */
  lemma {:induction false} SliceJoin<T>(s: seq<T>, i: nat, j: nat, k: nat)
    requires i <= j <= k <= |s|
    ensures s[i..j] + s[j..k] == s[i..k]
  {
    assert forall t :: 0 <= t < k - i ==> (s[i..j] + s[j..k])[t] == s[i + t];
  }

  /** A slice is the slice one shorter and its last element. */
  lemma {:induction false} SliceLast<T>(s: seq<T>, i: nat, k: nat)
    requires i < k <= |s|
    ensures s[i..k] == s[i..k - 1] + [s[k - 1]]
  {
    assert s[k - 1..k] == [s[k - 1]];
    SliceJoin(s, i, k - 1, k);
  }

  /** The two inputs of the docstring examples of both line matchers,
      `"abxcd"` against `"abcd"`, one letter per line. */
  const ExampleA: seq<string> := ["a", "b", "x", "c", "d"]
  const ExampleB: seq<string> := ["a", "b", "c", "d"]
}
