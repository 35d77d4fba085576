/** Patience-sorting longest common subset of the lines that occur exactly
    once in each file (`unique_lcs_py`). The function is three passes:
    an index of the lines of `a`, a table `btoa` from positions in `b` to
    positions in `a` for the lines unique on both sides, and a patience
    sort over `btoa` with backpointers, read back from the last stack. */
module UniqueLcs {
  import opened Common

  /** `x` occurs exactly once in `s`. */
  ghost predicate UniqueIn<T>(s: seq<T>, x: T)
  {
    multiset(s)[x] == 1
  }

  /** `(i, j)` joins a line that occurs exactly once in `a` and once in `b`. */
  ghost predicate UniqueMatch<T>(a: seq<T>, b: seq<T>, i: nat, j: nat)
  {
    i < |a| && j < |b| && a[i] == b[j] && UniqueIn(a, a[i]) && UniqueIn(b, b[j])
  }

  /** A strictly increasing chain of unique-in-both pairs. */
  ghost predicate IsUniqueChain<T>(a: seq<T>, b: seq<T>, c: seq<Pair>)
  {
    StrictlyIncreasing(c) && forall u :: 0 <= u < |c| ==> UniqueMatch(a, b, c[u].0, c[u].1)
  }

  /** A strictly increasing chain read from the `btoa` table. */
  ghost predicate IsBtoaChain(bt: seq<Option<nat>>, c: seq<Pair>)
  {
    StrictlyIncreasing(c) && forall u :: 0 <= u < |c| ==> c[u].1 < |bt| && bt[c[u].1] == Some(c[u].0)
  }

  /** No position of `a` is named twice in `btoa`. */
  ghost predicate DistinctTargets(bt: seq<Option<nat>>)
  {
    forall p, q :: 0 <= p < q < |bt| && bt[p].Some? && bt[q].Some? ==> bt[p].value != bt[q].value
  }

  /** What the first pass builds: each line of `a` maps to its position when
      it occurs once and to None when it is repeated. */
  ghost predicate IndexSpec<T(!new)>(a: seq<T>, index: map<T, Option<nat>>)
  {
    (forall x :: x in index <==> x in multiset(a)) &&
    (forall x :: x in index ==> (index[x].Some? <==> UniqueIn(a, x))) &&
    (forall x :: x in index && index[x].Some? ==> index[x].value < |a| && a[index[x].value] == x)
  }

  /** What the second pass builds: `btoa[j]` is the position in `a` of line
      `b[j]` exactly when that line is unique on both sides. */
  ghost predicate BtoaSpec<T>(a: seq<T>, b: seq<T>, bt: seq<Option<nat>>)
  {
    |bt| == |b| &&
    forall q :: 0 <= q < |b| ==>
      (bt[q].Some? <==> UniqueIn(a, b[q]) && UniqueIn(b, b[q])) &&
      (bt[q].Some? ==> bt[q].value < |a| && a[bt[q].value] == b[q])
  }

  /** An element seen at two different positions occurs at least twice. */
  lemma TwoOccurrences<T>(s: seq<T>, lo: nat, hi: nat)
    requires lo < hi < |s| && s[lo] == s[hi]
    ensures multiset(s)[s[lo]] >= 2
  {
    assert s == s[..hi] + s[hi..];
    assert s[lo] in s[..hi];
    assert s[hi] in s[hi..];
    assert multiset(s) == multiset(s[..hi]) + multiset(s[hi..]);
  }

  lemma UniqueIndex<T>(s: seq<T>, p: nat, q: nat)
    requires p < |s| && q < |s| && s[p] == s[q] && UniqueIn(s, s[p])
    ensures p == q
  {
    if p < q {
      TwoOccurrences(s, p, q);
    } else if q < p {
      TwoOccurrences(s, q, p);
    }
  }

  /** The first pass: `index[line] = position of line in a`, or None once
      the line has been seen twice. */
  method BuildIndex<T(==,!new)>(a: seq<T>) returns (index: map<T, Option<nat>>)
    ensures IndexSpec(a, index)
  {
    index := map[];
    for i := 0 to |a|
      invariant forall x :: x in index <==> x in multiset(a[..i])
      invariant forall x :: x in index ==> (index[x].Some? <==> multiset(a[..i])[x] == 1)
      invariant forall x :: x in index && index[x].Some? ==> index[x].value < i && a[index[x].value] == x
    {
      var line := a[i];
      assert a[..i + 1] == a[..i] + [line];
      if line in index {
        index := index[line := None];
      } else {
        index := index[line := Some(i)];
      }
    }
    assert a[..|a|] == a;
  }

  /** The state of the second pass after the first `pos` lines of `b`. */
  ghost predicate MatchInv<T(!new)>(a: seq<T>, b: seq<T>, pos: nat, index: map<T, Option<nat>>,
                                    index2: map<T, nat>, bt: seq<Option<nat>>)
  {
    pos <= |b| && |bt| == |b| &&
    (forall x :: x in index && index[x].Some? ==>
       UniqueIn(a, x) && multiset(b[..pos])[x] <= 1 && index[x].value < |a| && a[index[x].value] == x) &&
    (forall x :: UniqueIn(a, x) && multiset(b[..pos])[x] <= 1 ==> x in index && index[x].Some?) &&
    (forall x :: UniqueIn(a, x) && multiset(b[..pos])[x] == 1 ==>
       x in index2 && index2[x] < pos && b[index2[x]] == x) &&
    (forall x :: UniqueIn(a, x) && multiset(b[..pos])[x] == 0 ==> x !in index2) &&
    (forall q :: 0 <= q < |b| ==>
       (bt[q].Some? <==> q < pos && UniqueIn(a, b[q]) && multiset(b[..pos])[b[q]] == 1) &&
       (bt[q].Some? ==> bt[q].value < |a| && a[bt[q].value] == b[q]))
  }

  lemma MatchStepRepeat<T(!new)>(a: seq<T>, b: seq<T>, pos: nat, index: map<T, Option<nat>>,
                                 index2: map<T, nat>, bt: seq<Option<nat>>)
    requires MatchInv(a, b, pos, index, index2, bt) && pos < |b|
    requires b[pos] in index && index[b[pos]].Some? && b[pos] in index2
    ensures MatchInv(a, b, pos + 1, index - {b[pos]}, index2, bt[index2[b[pos]] := None])
  {
    var line := b[pos];
    var q := index2[line];
    assert b[..pos + 1] == b[..pos] + [line];
    var bt' := bt[q := None];
    forall q' | 0 <= q' < |b| && bt'[q'].Some?
      ensures b[q'] != line
    {
      if b[q'] == line {
        assert b[..pos][q'] == b[q'] && b[..pos][q] == b[q];
        UniqueIndex(b[..pos], q', q);
      }
    }
  }

  lemma MatchStepFirst<T(!new)>(a: seq<T>, b: seq<T>, pos: nat, index: map<T, Option<nat>>,
                                index2: map<T, nat>, bt: seq<Option<nat>>)
    requires MatchInv(a, b, pos, index, index2, bt) && pos < |b|
    requires b[pos] in index && index[b[pos]].Some? && b[pos] !in index2
    ensures MatchInv(a, b, pos + 1, index, index2[b[pos] := pos], bt[pos := Some(index[b[pos]].value)])
  {
    assert b[..pos + 1] == b[..pos] + [b[pos]];
  }

  lemma MatchStepSkip<T(!new)>(a: seq<T>, b: seq<T>, pos: nat, index: map<T, Option<nat>>,
                               index2: map<T, nat>, bt: seq<Option<nat>>)
    requires MatchInv(a, b, pos, index, index2, bt) && pos < |b|
    requires !(b[pos] in index && index[b[pos]].Some?)
    ensures MatchInv(a, b, pos + 1, index, index2, bt)
  {
    assert b[..pos + 1] == b[..pos] + [b[pos]];
  }

  /** The second pass: fills `btoa`, clearing an entry again (and dropping the
      line from `index`) when the line turns out to be repeated in `b`. */
  method MatchUniqueLines<T(==,!new)>(a: seq<T>, b: seq<T>, index0: map<T, Option<nat>>, btoa: array<Option<nat>>)
    requires IndexSpec(a, index0)
    requires btoa.Length == |b| && forall q :: 0 <= q < |b| ==> btoa[q] == None
    modifies btoa
    ensures BtoaSpec(a, b, btoa[..])
  {
    var index := index0;
    var index2: map<T, nat> := map[];
    for pos := 0 to |b|
      invariant MatchInv(a, b, pos, index, index2, btoa[..])
    {
      var line := b[pos];
      if line in index && index[line].Some? {
        var next := index[line].value;
        if line in index2 {
          MatchStepRepeat(a, b, pos, index, index2, btoa[..]);
          btoa[index2[line]] := None;
          index := index - {line};
        } else {
          MatchStepFirst(a, b, pos, index, index2, btoa[..]);
          index2 := index2[line := pos];
          btoa[pos] := Some(next);
        }
      } else {
        MatchStepSkip(a, b, pos, index, index2, btoa[..]);
      }
    }
    assert b[..|b|] == b;
  }

  lemma BtoaDistinct<T>(a: seq<T>, b: seq<T>, bt: seq<Option<nat>>)
    requires BtoaSpec(a, b, bt)
    ensures DistinctTargets(bt)
  {
    forall p, q | 0 <= p < q < |bt| && bt[p].Some? && bt[q].Some?
      ensures bt[p].value != bt[q].value
    {
      if bt[p].value == bt[q].value {
        UniqueIndex(b, p, q);
      }
    }
  }

  /** Under the second pass's table, unique-in-both chains are exactly the
      chains read from `btoa`. */
  lemma BtoaChains<T>(a: seq<T>, b: seq<T>, bt: seq<Option<nat>>, c: seq<Pair>)
    requires BtoaSpec(a, b, bt)
    ensures IsUniqueChain(a, b, c) <==> IsBtoaChain(bt, c)
  {
    if IsUniqueChain(a, b, c) {
      forall u | 0 <= u < |c|
        ensures c[u].1 < |bt| && bt[c[u].1] == Some(c[u].0)
      {
        var i, j := c[u].0, c[u].1;
        assert UniqueMatch(a, b, i, j);
        UniqueIndex(a, i, bt[j].value);
      }
    }
  }

  // ---------------------------------------------------------------------
  // The patience sort

  /** Backpointers point strictly backwards, to an entry with a smaller
      position in `a`. */
  ghost predicate BackValid(bt: seq<Option<nat>>, bp: seq<Option<nat>>)
  {
    |bp| == |bt| &&
    forall p :: 0 <= p < |bp| && bp[p].Some? ==>
      bp[p].value < p && bt[p].Some? && bt[bp[p].value].Some? && bt[bp[p].value].value < bt[p].value
  }

  /** The chain reached by following backpointers from position `p`, in
      increasing order. */
  ghost function ChainTo(bt: seq<Option<nat>>, bp: seq<Option<nat>>, p: nat): seq<Pair>
    requires BackValid(bt, bp) && p < |bp| && bt[p].Some?
    decreases p
  {
    (if bp[p].None? then [] else ChainTo(bt, bp, bp[p].value)) + [(bt[p].value, p)]
  }

  lemma {:induction false} ChainToIsChain(bt: seq<Option<nat>>, bp: seq<Option<nat>>, p: nat)
    requires BackValid(bt, bp) && p < |bp| && bt[p].Some?
    ensures var c := ChainTo(bt, bp, p);
      IsBtoaChain(bt, c) && |c| > 0 && c[|c|-1] == (bt[p].value, p)
    decreases p
  {
    if bp[p].Some? {
      var q := bp[p].value;
      ChainToIsChain(bt, bp, q);
      var c := ChainTo(bt, bp, q);
      assert forall u :: 0 <= u < |c| ==> c[u].0 <= c[|c|-1].0 && c[u].1 <= c[|c|-1].1;
    }
  }

  lemma {:induction false} ChainToFrame(bt: seq<Option<nat>>, bp: seq<Option<nat>>, bp2: seq<Option<nat>>, p: nat)
    requires BackValid(bt, bp) && BackValid(bt, bp2) && p < |bp| && bt[p].Some?
    requires forall q :: 0 <= q <= p ==> bp[q] == bp2[q]
    ensures ChainTo(bt, bp, p) == ChainTo(bt, bp2, p)
    decreases p
  {
    if bp[p].Some? {
      ChainToFrame(bt, bp, bp2, bp[p].value);
    }
  }

  predicate Sorted(s: seq<nat>)
  {
    forall u, v :: 0 <= u < v < |s| ==> s[u] < s[v]
  }

  /** `bisect.bisect` (insertion point to the right) on a sorted list. */
  method Bisect(s: seq<nat>, x: nat) returns (k: nat)
    requires Sorted(s)
    ensures k <= |s|
    ensures forall u :: 0 <= u < k ==> s[u] <= x
    ensures forall u :: k <= u < |s| ==> s[u] > x
  {
    var lo, hi := 0, |s|;
    while lo < hi
      invariant 0 <= lo <= hi <= |s|
      invariant forall u :: 0 <= u < lo ==> s[u] <= x
      invariant forall u :: hi <= u < |s| ==> s[u] > x
    {
      var mid := (lo + hi) / 2;
      if x < s[mid] {
        hi := mid;
      } else {
        lo := mid + 1;
      }
    }
    k := lo;
  }

  /** Where the entry `apos` goes among the stacks: the two fast paths of
      the source and the `bisect` fallback all give the number of stack tops
      below `apos`. */
  method StackSlot(stacks: seq<nat>, k0: int, apos: nat) returns (k: nat)
    requires Sorted(stacks) && apos !in stacks
    requires |stacks| > 0 ==> 0 <= k0 < |stacks|
    ensures k <= |stacks|
    ensures forall u :: 0 <= u < k ==> stacks[u] < apos
    ensures forall u :: k <= u < |stacks| ==> stacks[u] > apos
  {
    if |stacks| > 0 && stacks[|stacks|-1] < apos {
      k := |stacks|;
    } else if |stacks| > 0 && stacks[k0] < apos && (k0 == |stacks| - 1 || stacks[k0 + 1] > apos) {
      k := k0 + 1;
    } else {
      k := Bisect(stacks, apos);
      forall u | 0 <= u < k ensures stacks[u] < apos {
        assert stacks[u] in stacks;
      }
    }
  }

  /** The stacks after the first `bpos` entries of `btoa`: stack tops
      increase, and `lasts[u]` ends a backpointer chain of length `u + 1`
      whose last position in `a` is the top of stack `u`. */
  ghost predicate StacksInv(bt: seq<Option<nat>>, bpos: nat, stacks: seq<nat>, lasts: seq<nat>, bp: seq<Option<nat>>)
  {
    bpos <= |bt| && |stacks| == |lasts| && Sorted(stacks) && BackValid(bt, bp) &&
    (forall p :: bpos <= p < |bt| ==> bp[p].None?) &&
    (forall u :: 0 <= u < |lasts| ==>
       lasts[u] < bpos && bt[lasts[u]] == Some(stacks[u]) && |ChainTo(bt, bp, lasts[u])| == u + 1)
  }

  /** Patience sorting's invariant: a chain of length `n` among the first
      `bpos` entries ends no lower than the top of stack `n - 1`. */
  ghost predicate StacksBound(bt: seq<Option<nat>>, bpos: nat, stacks: seq<nat>)
  {
    forall c: seq<Pair> :: IsBtoaChain(bt, c) && 0 < |c| && c[|c|-1].1 < bpos ==>
      |c| <= |stacks| && stacks[|c|-1] <= c[|c|-1].0
  }

  /** Placing `apos` on stack `k` keeps the stacks sorted and the bound. */
  lemma {:induction false} StacksBoundStep(bt: seq<Option<nat>>, bpos: nat, stacks: seq<nat>, apos: nat, k: nat, stacks': seq<nat>)
    requires bpos < |bt| && bt[bpos] == Some(apos) && StacksBound(bt, bpos, stacks) && Sorted(stacks)
    requires k <= |stacks|
    requires forall u :: 0 <= u < k ==> stacks[u] < apos
    requires forall u :: k <= u < |stacks| ==> stacks[u] > apos
    requires stacks' == if k < |stacks| then stacks[k := apos] else stacks + [apos]
    ensures StacksBound(bt, bpos + 1, stacks') && Sorted(stacks')
  {
    forall c: seq<Pair> | IsBtoaChain(bt, c) && 0 < |c| && c[|c|-1].1 < bpos + 1
      ensures |c| <= |stacks'| && stacks'[|c|-1] <= c[|c|-1].0
    {
      var n := |c|;
      if c[n-1].1 < bpos {
        assert n <= |stacks| && stacks[n-1] <= c[n-1].0;
      } else if n > 1 {
        var c' := c[..n-1];
        assert IsBtoaChain(bt, c');
        assert c'[n-2] == c[n-2] && c[n-2].1 < bpos;
        assert n - 1 <= |stacks| && stacks[n-2] <= c[n-2].0;
      }
    }
  }

  lemma StacksBoundSkip(bt: seq<Option<nat>>, bpos: nat, stacks: seq<nat>)
    requires bpos < |bt| && bt[bpos].None? && StacksBound(bt, bpos, stacks)
    ensures StacksBound(bt, bpos + 1, stacks)
  {
  }

  /** Recording the backpointer of `bpos` and placing it on stack `k`
      keeps the chain lengths of every stack top. */
  lemma StacksInvStep(bt: seq<Option<nat>>, bpos: nat, stacks: seq<nat>, lasts: seq<nat>, bp: seq<Option<nat>>,
                      apos: nat, k: nat, stacks': seq<nat>, lasts': seq<nat>, bp': seq<Option<nat>>)
    requires StacksInv(bt, bpos, stacks, lasts, bp) && bpos < |bt| && bt[bpos] == Some(apos)
    requires k <= |stacks|
    requires forall u :: 0 <= u < k ==> stacks[u] < apos
    requires Sorted(stacks')
    requires bp' == if k > 0 then bp[bpos := Some(lasts[k-1])] else bp
    requires stacks' == if k < |stacks| then stacks[k := apos] else stacks + [apos]
    requires lasts' == if k < |stacks| then lasts[k := bpos] else lasts + [bpos]
    ensures StacksInv(bt, bpos + 1, stacks', lasts', bp')
  {
    assert BackValid(bt, bp');
    forall u | 0 <= u < |lasts|
      ensures ChainTo(bt, bp, lasts[u]) == ChainTo(bt, bp', lasts[u])
    {
      ChainToFrame(bt, bp, bp', lasts[u]);
    }
    assert |ChainTo(bt, bp', bpos)| == k + 1 by {
      if k > 0 {
        assert ChainTo(bt, bp', bpos) == ChainTo(bt, bp', lasts[k-1]) + [(apos, bpos)];
      }
    }
  }

  /** One step of the patience sort: entry `bpos` of `btoa`, when present,
      replaces the first stack top above it (or starts a new stack) and
      records the top of the stack to its left as its backpointer. */
  method PlaceEntry(bt: seq<Option<nat>>, bpos: nat, stacks0: seq<nat>, lasts0: seq<nat>,
                    backpointers0: seq<Option<nat>>, k0: int)
    returns (stacks: seq<nat>, lasts: seq<nat>, backpointers: seq<Option<nat>>, k: int)
    requires DistinctTargets(bt) && bpos < |bt|
    requires StacksInv(bt, bpos, stacks0, lasts0, backpointers0) && StacksBound(bt, bpos, stacks0)
    requires |stacks0| > 0 ==> 0 <= k0 < |stacks0|
    ensures StacksInv(bt, bpos + 1, stacks, lasts, backpointers) && StacksBound(bt, bpos + 1, stacks)
    ensures |stacks| > 0 ==> 0 <= k < |stacks|
  {
    stacks, lasts, backpointers, k := stacks0, lasts0, backpointers0, k0;
    if bt[bpos].None? {
      StacksBoundSkip(bt, bpos, stacks);
      return;
    }
    var apos := bt[bpos].value;
    assert apos !in stacks by {
      forall u | 0 <= u < |stacks| ensures stacks[u] != apos {
        assert bt[lasts[u]] == Some(stacks[u]) && lasts[u] < bpos;
      }
    }
    var slot := StackSlot(stacks, k, apos);
    if slot > 0 {
      backpointers := backpointers[bpos := Some(lasts[slot-1])];
    }
    if slot < |stacks| {
      stacks := stacks[slot := apos];
      lasts := lasts[slot := bpos];
    } else {
      stacks := stacks + [apos];
      lasts := lasts + [bpos];
    }
    k := slot;
    StacksBoundStep(bt, bpos, stacks0, apos, slot, stacks);
    StacksInvStep(bt, bpos, stacks0, lasts0, backpointers0, apos, slot, stacks, lasts, backpointers);
  }

  /** The patience sort over `btoa` and the walk back along the
      backpointers: a longest strictly increasing chain of the table. */
  method PatienceChain(bt: seq<Option<nat>>) returns (result: seq<Pair>)
    requires DistinctTargets(bt)
    ensures IsBtoaChain(bt, result)
    ensures forall c: seq<Pair> :: IsBtoaChain(bt, c) ==> |c| <= |result|
  {
    var backpointers: seq<Option<nat>> := seq(|bt|, _ => None);
    var stacks: seq<nat> := [];
    var lasts: seq<nat> := [];
    var k := 0;
    for bpos := 0 to |bt|
      invariant StacksInv(bt, bpos, stacks, lasts, backpointers)
      invariant StacksBound(bt, bpos, stacks)
      invariant |stacks| > 0 ==> 0 <= k < |stacks|
    {
      stacks, lasts, backpointers, k := PlaceEntry(bt, bpos, stacks, lasts, backpointers, k);
    }
    if |lasts| == 0 {
      result := [];
      return;
    }
    var top := lasts[|lasts| - 1];
    result := WalkBack(bt, backpointers, top);
    ChainToIsChain(bt, backpointers, top);
    forall c: seq<Pair> | IsBtoaChain(bt, c) ensures |c| <= |result| {
      if |c| > 0 {
        assert c[|c|-1].1 < |bt|;
      }
    }
  }

  /** Reads the chain ending at `top` back along the backpointers. The
      source appends and then reverses the list; the model prepends. */
  method WalkBack(bt: seq<Option<nat>>, backpointers: seq<Option<nat>>, top: nat) returns (result: seq<Pair>)
    requires BackValid(bt, backpointers) && top < |bt| && bt[top].Some?
    ensures result == ChainTo(bt, backpointers, top)
  {
    ghost var bp := backpointers;
    var cur: Option<nat> := Some(top);
    result := [];
    while cur.Some?
      invariant cur.Some? ==>
        cur.value < |bt| && bt[cur.value].Some? && ChainTo(bt, bp, top) == ChainTo(bt, bp, cur.value) + result
      invariant cur.None? ==> ChainTo(bt, bp, top) == result
      decreases if cur.Some? then cur.value + 1 else 0
    {
      var p := cur.value;
      result := [(bt[p].value, p)] + result;
      cur := backpointers[p];
    }
  }

  /** `unique_lcs_py`: the pairs it returns join lines unique on both sides,
      strictly increase on both sides, and no such chain is longer. */
  method UniqueLcs<T(==,!new)>(a: seq<T>, b: seq<T>) returns (result: seq<Pair>)
    ensures IsUniqueChain(a, b, result)
    ensures forall c: seq<Pair> :: IsUniqueChain(a, b, c) ==> |c| <= |result|
    ensures result == [] <==> forall i: nat, j: nat :: !UniqueMatch(a, b, i, j)
  {
    var index := BuildIndex(a);
    var btoa := new Option<nat>[|b|](_ => None);
    MatchUniqueLines(a, b, index, btoa);
    var bt := btoa[..];
    BtoaDistinct(a, b, bt);
    result := PatienceChain(bt);
    BtoaChains(a, b, bt, result);
    forall c: seq<Pair> | IsUniqueChain(a, b, c) ensures |c| <= |result| {
      BtoaChains(a, b, bt, c);
    }
    forall i: nat, j: nat | UniqueMatch(a, b, i, j) ensures result != [] {
      assert IsUniqueChain(a, b, [(i, j)]);
    }
    if result != [] {
      assert UniqueMatch(a, b, result[0].0, result[0].1);
    }
  }
}
