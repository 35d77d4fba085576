/** A worked example of the recursion of `_piersdiff_py.py`: a file whose
    middle line is repeated, matched against itself, where the pairs of the
    repeated lines come from the recursion into the gap between the
    anchors. */
module PiersExample {
  import opened Common
  import opened Text
  import UniqueLcs
  import opened Piers

  /** A file whose middle line is repeated, matched against itself: `x`
      and `z` occur once, `y` twice. */
  const Repeated: seq<string> := ["x", "y", "y", "z"]

  /** The only unique matches of the file against itself join `x` to `x`
      and `z` to `z`. */
  lemma {:induction false} RepeatedUnique(i: nat, j: nat)
    requires UniqueLcs.UniqueMatch(Repeated, Repeated, i, j)
    ensures (i, j) == (0, 0) || (i, j) == (3, 3)
  {
    var r := Repeated;
    UniqueLcs.TwoOccurrences(r, 1, 2);
    assert r[i] != r[1];
    assert r[i][0] == r[j][0];
  }

  /** `x` then `z` is a unique-line chain of the file against itself. */
  lemma {:induction false} RepeatedChain()
    ensures UniqueLcs.IsUniqueChain(Repeated, Repeated, [(0, 0), (3, 3)])
  {
    var r := Repeated;
    forall k | 0 <= k < |r| && k != 0 ensures r[k] != r[0] {
      assert r[k][0] != r[0][0];
    }
    forall k | 0 <= k < |r| && k != 3 ensures r[k] != r[3] {
      assert r[k][0] != r[3][0];
    }
    OnceIn(r, 0);
    OnceIn(r, 3);
  }

  /** The longest unique-line chain of the file against itself is `x`
      then `z`. */
  lemma {:induction false} RepeatedLongest(c: seq<Pair>)
    requires LongestUniqueChain(Repeated, Repeated, c)
    ensures c == [(0, 0), (3, 3)]
  {
    RepeatedChain();
    LongestBound(Repeated, Repeated, c, [(0, 0), (3, 3)]);
    forall u | 0 <= u < |c| ensures c[u] == (0, 0) || c[u] == (3, 3) {
      RepeatedUnique(c[u].0, c[u].1);
    }
    assert c[0].0 < c[1].0;
    assert c[|c| - 1] == (0, 0) || c[|c| - 1] == (3, 3);
    assert |c| == 2;
  }

  /** Between `x` and `z` both files hold `y` twice: no unique line. */
  lemma {:induction false} RepeatedMiddle()
    ensures NoUnique(Repeated, Repeated, 1, 1, 3, 3)
  {
    var m := Repeated[1..3];
    UniqueLcs.TwoOccurrences(m, 0, 1);
    forall i: nat, j: nat ensures !UniqueLcs.UniqueMatch(m, m, i, j) {
      if i < |m| {
        assert m[i] == m[0];
      }
    }
  }

  /** The gap between the anchors `x` and `z`: no unique line, equal first
      lines, so the whole run of `y`s is peeled off. */
  lemma {:induction false} RepeatedGap(g: seq<Pair>)
    requires Recursed(Repeated, Repeated, 1, 1, 3, 3, 9, g)
    ensures g == [(1, 1), (2, 2)]
  {
    var r := Repeated;
    assert Descends(r, r, 1, 1, 3, 3, 9, g);
    RepeatedMiddle();
    assert PeeledPrefix(r, r, 1, 1, 3, 3, 9, g);
    assert HeadRun(r, r, 3, 3, 3, 3) == 0;
    assert HeadRun(r, r, 2, 2, 3, 3) == 1;
    assert HeadRun(r, r, 1, 1, 3, 3) == 2;
    assert Recursed(r, r, 3, 3, 3, 3, 8, g[2..]);
    assert Diagonal(1, 1, 2) == [(1, 1), (2, 2)];
    assert g == g[..2] + g[2..];
  }

  /** Before the first anchor `x` there is nothing. */
  lemma {:induction false} RepeatedFirst(q: seq<Pair>)
    requires Threaded(Repeated, Repeated, 0, 0, 10, [(0, 0)], q)
    ensures q == [(0, 0)]
  {
    var r := Repeated;
    var one: seq<Pair> := [(0, 0)];
    assert one[..0] == [];
    var k := ThreadedLast(r, r, 0, 0, 10, one, q, [], 0, 0, 0, 0, 9);
    assert Threaded(r, r, 0, 0, 10, [], q[..k]);
    assert Recursed(r, r, 0, 0, 0, 0, 9, q[k..|q| - 1]);
    assert |q| == 1;
  }

  /** The anchors `x` and `z` with the gap between them. The anchors are
      passed by name rather than spelled out in the hypothesis. */
  lemma {:induction false} RepeatedThreaded(q: seq<Pair>, anchors: seq<Pair>)
    requires anchors == [(0, 0), (3, 3)]
    requires Threaded(Repeated, Repeated, 0, 0, 10, anchors, q)
    ensures q == [(0, 0), (1, 1), (2, 2), (3, 3)]
  {
    assert anchors[..1] == [(0, 0)];
    var k := ThreadedLast(Repeated, Repeated, 0, 0, 10, anchors, q, [(0, 0)], 1, 1, 3, 3, 9);
    RepeatedSplit(q, k);
  }

  /** The list before `z`, the gap and `z` itself, put back together. */
  lemma {:induction false} RepeatedSplit(q: seq<Pair>, k: nat)
    requires k < |q| && q[|q| - 1] == (3, 3)
    requires Threaded(Repeated, Repeated, 0, 0, 10, [(0, 0)], q[..k])
    requires Recursed(Repeated, Repeated, 1, 1, 3, 3, 9, q[k..|q| - 1])
    ensures q == [(0, 0), (1, 1), (2, 2), (3, 3)]
  {
    RepeatedFirst(q[..k]);
    RepeatedGap(q[k..|q| - 1]);
    Reassemble(q, k, [(0, 0)], [(1, 1), (2, 2)], (3, 3));
    RepeatedPieces();
  }

  /** The pieces of the example, joined. */
  lemma RepeatedPieces()
    ensures [(0, 0)] + [(1, 1), (2, 2)] + [(3, 3)] == [(0, 0), (1, 1), (2, 2), (3, 3)]
  {
  }

  /** What `recurse_matches_py` yields for the file against itself with
      depth 10: the anchors `x` and `z`, and between them the run of `y`s
      that the gap recursion peels off. */
  lemma {:induction false} RepeatedRecursed(ps: seq<Pair>)
    requires Recursed(Repeated, Repeated, 0, 0, 4, 4, 10, ps)
    ensures ps == [(0, 0), (1, 1), (2, 2), (3, 3)]
  {
    var r := Repeated;
    assert r[0..4] == r;
    RepeatedChain();
    assert UniqueLcs.UniqueMatch(r[0..4], r[0..4], 0, 0);
    assert Descends(r, r, 0, 0, 4, 4, 10, ps);
    var c :| LongestUniqueChain(r[0..4], r[0..4], c) && AnchorsThenRest(r, r, 0, 0, 4, 4, 10, Shift(c, 0, 0), ps);
    RepeatedLongest(c);
    assert Shift(c, 0, 0) == c;
    assert LastAnchor(c, 0, 0) == (3, 3);
    var k :| 0 <= k <= |ps| && Threaded(r, r, 0, 0, 10, c, ps[..k]) && Recursed(r, r, 4, 4, 4, 4, 9, ps[k..]);
    assert Recursed(r, r, 4, 4, 4, 4, 9, ps[k..]);
    NothingAfter(ps, k);
    RepeatedThreaded(ps[..k], c);
  }

  /** Each line of the file strips to itself. */
  lemma {:induction false} RepeatedStripped()
    ensures StripAll(Repeated) == Repeated
  {
    StripPlain(Repeated[0]);
    StripPlain(Repeated[1]);
    StripPlain(Repeated[3]);
  }

  /** The stripped-line matcher finds all four lines of the file matched
      to themselves. */
  lemma {:induction false} RepeatedMatches(ms: seq<Pair>)
    requires StrippedMatches(Repeated, Repeated, ms)
    ensures ms == [(0, 0), (1, 1), (2, 2), (3, 3)]
  {
    RepeatedStripped();
    RepeatedRecursed(ms);
  }

  /** The four pairs join equal lines, so the filter keeps them all. */
  lemma {:induction false} RepeatedKeep()
    ensures KeepExact(Repeated, Repeated, [(0, 0), (1, 1), (2, 2), (3, 3)]) == [(0, 0), (1, 1), (2, 2), (3, 3)]
  {
    KeepAll(Repeated, Repeated, [(0, 0), (1, 1), (2, 2), (3, 3)]);
  }

  /** One block of all four lines is collapsed and expands to the four
      pairs. */
  lemma {:induction false} RepeatedWhole()
    ensures Expand([Block(0, 0, 4)]) == [(0, 0), (1, 1), (2, 2), (3, 3)]
    ensures Collapsed([Block(0, 0, 4)])
    ensures [Block(0, 0, 4)] + [Block(4, 4, 0)] == [Block(0, 0, 4), Block(4, 4, 0)]
  {
    var whole: seq<Block> := [Block(0, 0, 4)];
    assert whole[..0] == [];
    assert Diagonal(0, 0, 2) == [(0, 0), (1, 1)];
    assert Diagonal(0, 0, 4) == [(0, 0), (1, 1), (2, 2), (3, 3)];
  }

  /** `get_matching_blocks` of the file against itself: one block of all
      four lines, then the dummy. The anchors alone would leave the `y`s
      out; the recursion between them brings them in. */
  lemma {:induction false} RepeatedBlocks(blocks: seq<Block>)
    requires PatienceBlocks(Repeated, Repeated, blocks)
    ensures blocks == [Block(0, 0, 4), Block(4, 4, 0)]
  {
    var init := blocks[..|blocks| - 1];
    var ms: seq<Pair> :| StrippedMatches(Repeated, Repeated, ms) && Expand(init) == KeepExact(Repeated, Repeated, ms);
    RepeatedMatches(ms);
    RepeatedKeep();
    RepeatedWhole();
    CollapsedUnique(init, [Block(0, 0, 4)]);
    assert |Repeated| == 4;
    Reassemble2(blocks, [Block(0, 0, 4)], Block(4, 4, 0));
  }
}
