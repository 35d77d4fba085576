/** The recursive patience matcher of `_piersdiff_py.py`: anchor on the
    unique lines, recurse into the gaps between anchors, peel off a common
    prefix or suffix when there is no anchor, then collapse the matched
    pairs into `(i, j, n)` blocks and check that they are monotone. */
module Piers {
  import opened Common
  import opened Text
  import UniqueLcs

  /** Pairs appended by one call: inside its box, joining equal lines and
      strictly increasing on both sides. */
  predicate FreshPairs<T(==)>(a: seq<T>, b: seq<T>, ps: seq<Pair>, alo: int, ahi: int, blo: int, bhi: int)
  {
    PairsIn(ps, alo, ahi, blo, bhi) && PairsMatch(a, b, ps) && StrictlyIncreasing(ps)
  }

  /** Two boxes, the second above and to the right of the first: their
      pairs concatenate into one increasing run in the enclosing box. */
  lemma {:induction false} AppendFresh<T>(a: seq<T>, b: seq<T>, x: seq<Pair>, y: seq<Pair>,
                       alo: int, amid: int, ahi: int, blo: int, bmid: int, bhi: int)
    requires alo <= amid <= ahi && blo <= bmid <= bhi
    requires FreshPairs(a, b, x, alo, amid, blo, bmid) && FreshPairs(a, b, y, amid, ahi, bmid, bhi)
    ensures FreshPairs(a, b, x + y, alo, ahi, blo, bhi)
  {
    forall u, v | 0 <= u < v < |x + y|
      ensures (x + y)[u].0 < (x + y)[v].0 && (x + y)[u].1 < (x + y)[v].1
    {
      if v < |x| {
      } else if u >= |x| {
        assert (x + y)[u] == y[u - |x|] && (x + y)[v] == y[v - |x|];
      } else {
        assert (x + y)[u] == x[u] && (x + y)[v] == y[v - |x|];
      }
    }
  }

  /** One more matched pair just above and to the right of a run. */
  lemma {:induction false} AppendOne<T>(a: seq<T>, b: seq<T>, x: seq<Pair>, alo: int, blo: int, lo: nat, bl: nat)
    requires alo <= lo < |a| && blo <= bl < |b| && a[lo] == b[bl]
    requires FreshPairs(a, b, x, alo, lo, blo, bl)
    ensures FreshPairs(a, b, x + [(lo, bl)], alo, lo + 1, blo, bl + 1)
  {
    assert FreshPairs(a, b, [(lo, bl)], lo, lo + 1, bl, bl + 1);
    AppendFresh(a, b, x, [(lo, bl)], alo, lo, lo + 1, blo, bl, bl + 1);
  }

  /** `c` is a longest strictly increasing chain of lines that occur
      exactly once in `x` and once in `y`: what `unique_lcs_py` returns. */
  ghost predicate LongestUniqueChain<T>(x: seq<T>, y: seq<T>, c: seq<Pair>)
  {
    UniqueLcs.IsUniqueChain(x, y, c) && forall c': seq<Pair> :: UniqueLcs.IsUniqueChain(x, y, c') ==> |c'| <= |c|
  }

  /** No line occurs exactly once in both `a[alo:ahi]` and `b[blo:bhi]`. */
  ghost predicate NoUnique<T>(a: seq<T>, b: seq<T>, alo: nat, blo: nat, ahi: nat, bhi: nat)
    requires alo <= ahi <= |a| && blo <= bhi <= |b|
  {
    forall i: nat, j: nat :: !UniqueLcs.UniqueMatch(a[alo..ahi], b[blo..bhi], i, j)
  }

  /** `ps` holds a longest unique-line chain of the box `a[alo:ahi]` x
      `b[blo:bhi]`, moved back to positions in `a` and `b`: the anchors
      found for the box are all among the matched pairs. */
  ghost predicate HoldsAnchors<T>(a: seq<T>, b: seq<T>, alo: nat, blo: nat, ahi: nat, bhi: nat, ps: seq<Pair>)
    requires alo <= ahi <= |a| && blo <= bhi <= |b|
  {
    exists c: seq<Pair> :: LongestUniqueChain(a[alo..ahi], b[blo..bhi], c) &&
                forall u :: 0 <= u < |c| ==> (c[u].0 + alo, c[u].1 + blo) in ps
  }

  /** A list holding every pair of one that holds the anchors holds them
      too. */
  lemma {:induction false} HoldsAnchorsMore<T>(a: seq<T>, b: seq<T>, alo: nat, blo: nat, ahi: nat, bhi: nat,
                                               ps: seq<Pair>, qs: seq<Pair>)
    requires alo <= ahi <= |a| && blo <= bhi <= |b|
    requires HoldsAnchors(a, b, alo, blo, ahi, bhi, ps) && forall p :: p in ps ==> p in qs
    ensures HoldsAnchors(a, b, alo, blo, ahi, bhi, qs)
  {
    var c: seq<Pair> :| LongestUniqueChain(a[alo..ahi], b[blo..bhi], c) &&
             forall u :: 0 <= u < |c| ==> (c[u].0 + alo, c[u].1 + blo) in ps;
    assert forall u :: 0 <= u < |c| ==> (c[u].0 + alo, c[u].1 + blo) in qs;
  }

  /** The first pair of a non-empty unique chain is a unique match. */
  lemma ChainHead<T>(x: seq<T>, y: seq<T>, c: seq<Pair>)
    requires UniqueLcs.IsUniqueChain(x, y, c) && |c| > 0
    ensures UniqueLcs.UniqueMatch(x, y, c[0].0, c[0].1)
  {
  }

  /** Without a unique line the longest chain is empty, so any list holds
      the anchors. */
  lemma {:induction false} NoUniqueHoldsAnchors<T>(a: seq<T>, b: seq<T>, alo: nat, blo: nat, ahi: nat, bhi: nat,
                                                  ps: seq<Pair>)
    requires alo <= ahi <= |a| && blo <= bhi <= |b| && NoUnique(a, b, alo, blo, ahi, bhi)
    ensures HoldsAnchors(a, b, alo, blo, ahi, bhi, ps)
  {
    var x, y := a[alo..ahi], b[blo..bhi];
    forall c': seq<Pair> | UniqueLcs.IsUniqueChain(x, y, c') ensures |c'| <= 0 {
      if |c'| > 0 {
        ChainHead(x, y, c');
      }
    }
    assert LongestUniqueChain(x, y, []);
  }

  /** What a box with recursion depth left yields besides fresh pairs: a
      longest unique-line chain as anchors, and, when there is no unique
      line, the equal first lines (else the equal last lines) matched. */
  ghost predicate AnchoredBox<T>(a: seq<T>, b: seq<T>, alo: nat, blo: nat, ahi: nat, bhi: nat, added: seq<Pair>)
    requires alo < ahi <= |a| && blo < bhi <= |b|
  {
    && HoldsAnchors(a, b, alo, blo, ahi, bhi, added)
    && (NoUnique(a, b, alo, blo, ahi, bhi) && a[alo] == b[blo] ==> |added| > 0 && added[0] == (alo, blo))
    && (NoUnique(a, b, alo, blo, ahi, bhi) && a[alo] != b[blo] && a[ahi - 1] == b[bhi - 1] ==>
          |added| > 0 && added[|added| - 1] == (ahi - 1, bhi - 1))
  }

  /** The pairs `recurse_matches_py` appends for the box `a[alo:ahi]` x
      `b[blo:bhi]` with depth `d` left, branch by branch: nothing when the
      depth is spent or the box is empty; with a unique line, a longest
      unique-line chain as anchors, the recursion into the gap before each
      anchor and then into the box after the last; without one, the whole
      run of equal first lines and the recursion into the rest, else the
      recursion into the box before the whole run of equal last lines and
      that run, else nothing. */
  ghost predicate Recursed<T>(a: seq<T>, b: seq<T>, alo: nat, blo: nat, ahi: nat, bhi: nat, d: int, ps: seq<Pair>)
    requires alo <= ahi <= |a| && blo <= bhi <= |b|
    decreases if d < 0 then 0 else d + 1, 4, 0
  {
    if d < 0 || alo == ahi || blo == bhi then ps == [] else Descends(a, b, alo, blo, ahi, bhi, d, ps)
  }

  /** `Branches` under one more name: a `Recursed` fact that is only passed
      along then unfolds no further than this. */
  ghost predicate Descends<T>(a: seq<T>, b: seq<T>, alo: nat, blo: nat, ahi: nat, bhi: nat, d: nat, ps: seq<Pair>)
    requires alo < ahi <= |a| && blo < bhi <= |b|
    decreases d + 1, 3, 0
  {
    Branches(a, b, alo, blo, ahi, bhi, d, ps)
  }

  /** The branches of `recurse_matches_py` for a non-empty box with depth
      left. */
  ghost predicate Branches<T>(a: seq<T>, b: seq<T>, alo: nat, blo: nat, ahi: nat, bhi: nat, d: nat, ps: seq<Pair>)
    requires alo < ahi <= |a| && blo < bhi <= |b|
    decreases d + 1, 2, 0
  {
    if !NoUnique(a, b, alo, blo, ahi, bhi) then
      exists c: seq<Pair> :: LongestUniqueChain(a[alo..ahi], b[blo..bhi], c) &&
                            AnchorsThenRest(a, b, alo, blo, ahi, bhi, d, Shift(c, alo, blo), ps)
    else if a[alo] == b[blo] then PeeledPrefix(a, b, alo, blo, ahi, bhi, d, ps)
    else if a[ahi - 1] == b[bhi - 1] then PeeledSuffix(a, b, alo, blo, ahi, bhi, d, ps)
    else ps == []
  }

  /** The last anchor of a list, or the corner `(alo - 1, blo - 1)` of the
      box when there is none: `last_a_pos` and `last_b_pos`. */
  function LastAnchor(anchors: seq<Pair>, alo: int, blo: int): (int, int)
  {
    if |anchors| == 0 then (alo - 1, blo - 1) else anchors[|anchors| - 1]
  }

  /** The anchor branch: `ps` is the anchors threaded with the recursion
      into their gaps, then the recursion into the box after the last
      anchor. */
  ghost predicate AnchorsThenRest<T>(a: seq<T>, b: seq<T>, alo: nat, blo: nat, ahi: nat, bhi: nat, d: nat,
                                     anchors: seq<Pair>, ps: seq<Pair>)
    requires alo <= ahi <= |a| && blo <= bhi <= |b|
    decreases d + 1, 1, |anchors| + 1
  {
    var last := LastAnchor(anchors, alo, blo);
    && alo <= last.0 + 1 <= ahi && blo <= last.1 + 1 <= bhi
    && exists k :: 0 <= k <= |ps| && Threaded(a, b, alo, blo, d, anchors, ps[..k]) &&
                  Recursed(a, b, last.0 + 1, last.1 + 1, ahi, bhi, d - 1, ps[k..])
  }

  /** `ps` is, for each anchor in turn, the recursion at depth `d - 1` into
      the gap between the previous anchor (or the corner of the box) and
      this one, followed by the anchor pair. */
  ghost predicate Threaded<T>(a: seq<T>, b: seq<T>, alo: nat, blo: nat, d: nat, anchors: seq<Pair>, ps: seq<Pair>)
    decreases d + 1, 0, |anchors|
  {
    if |anchors| == 0 then ps == []
    else
      var init, x := anchors[..|anchors| - 1], anchors[|anchors| - 1];
      var last := LastAnchor(init, alo, blo);
      && alo <= last.0 + 1 <= x.0 <= |a| && blo <= last.1 + 1 <= x.1 <= |b|
      && |ps| > 0 && ps[|ps| - 1] == x
      && exists k :: 0 <= k < |ps| && Threaded(a, b, alo, blo, d, init, ps[..k]) &&
                    Recursed(a, b, last.0 + 1, last.1 + 1, x.0, x.1, d - 1, ps[k..|ps| - 1])
  }

  /** The prefix branch: the whole run of equal lines at the start of the
      box, then the recursion into the rest of it. */
  ghost predicate PeeledPrefix<T>(a: seq<T>, b: seq<T>, alo: nat, blo: nat, ahi: nat, bhi: nat, d: nat, ps: seq<Pair>)
    requires alo <= ahi <= |a| && blo <= bhi <= |b|
    decreases d + 1, 1, 0
  {
    var n := HeadRun(a, b, alo, blo, ahi, bhi);
    && |ps| >= n && ps[..n] == Diagonal(alo, blo, n)
    && Recursed(a, b, alo + n, blo + n, ahi, bhi, d - 1, ps[n..])
  }

  /** The suffix branch: the recursion into the box before the whole run
      of equal lines at its end, then that run. */
  ghost predicate PeeledSuffix<T>(a: seq<T>, b: seq<T>, alo: nat, blo: nat, ahi: nat, bhi: nat, d: nat, ps: seq<Pair>)
    requires alo <= ahi <= |a| && blo <= bhi <= |b|
    decreases d + 1, 1, 0
  {
    var m := TailLength(a, b, alo, blo, ahi, bhi);
    && |ps| >= m && ps[|ps| - m..] == Diagonal(ahi - m, bhi - m, m)
    && Recursed(a, b, alo, blo, ahi - m, bhi - m, d - 1, ps[..|ps| - m])
  }

  /** How many equal lines follow `(lo, bl)` inside the box. */
  ghost function HeadRun<T>(a: seq<T>, b: seq<T>, lo: nat, bl: nat, ahi: nat, bhi: nat): (n: nat)
    requires lo <= ahi <= |a| && bl <= bhi <= |b|
    ensures lo + n <= ahi && bl + n <= bhi
    decreases ahi - lo
  {
    if lo < ahi && bl < bhi && a[lo] == b[bl] then 1 + HeadRun(a, b, lo + 1, bl + 1, ahi, bhi) else 0
  }

  /** How many equal lines end at `(ahi, bhi)` inside the box. */
  ghost function TailLength<T>(a: seq<T>, b: seq<T>, alo: nat, blo: nat, ahi: nat, bhi: nat): (m: nat)
    requires alo <= ahi <= |a| && blo <= bhi <= |b|
    ensures m <= ahi - alo && m <= bhi - blo
    decreases ahi
  {
    if alo < ahi && blo < bhi && a[ahi - 1] == b[bhi - 1] then 1 + TailLength(a, b, alo, blo, ahi - 1, bhi - 1) else 0
  }

  /** The run `HeadRun` measures is the longest: its lines are equal and
      the line after it differs or lies outside the box. */
  lemma {:induction false} HeadRunMaximal<T>(a: seq<T>, b: seq<T>, lo: nat, bl: nat, ahi: nat, bhi: nat)
    requires lo <= ahi <= |a| && bl <= bhi <= |b|
    ensures var n := HeadRun(a, b, lo, bl, ahi, bhi);
            && a[lo..lo + n] == b[bl..bl + n]
            && (lo + n == ahi || bl + n == bhi || a[lo + n] != b[bl + n])
    decreases ahi - lo
  {
    if lo < ahi && bl < bhi && a[lo] == b[bl] {
      HeadRunMaximal(a, b, lo + 1, bl + 1, ahi, bhi);
      var n := HeadRun(a, b, lo, bl, ahi, bhi);
      assert a[lo..lo + n] == [a[lo]] + a[lo + 1..lo + n];
      assert b[bl..bl + n] == [b[bl]] + b[bl + 1..bl + n];
    }
  }

  /** The run `TailLength` measures is the longest: its lines are equal
      and the line before it differs or lies outside the box. */
  lemma {:induction false} TailLengthMaximal<T>(a: seq<T>, b: seq<T>, alo: nat, blo: nat, ahi: nat, bhi: nat)
    requires alo <= ahi <= |a| && blo <= bhi <= |b|
    ensures var m := TailLength(a, b, alo, blo, ahi, bhi);
            && a[ahi - m..ahi] == b[bhi - m..bhi]
            && (ahi - m == alo || bhi - m == blo || a[ahi - m - 1] != b[bhi - m - 1])
    decreases ahi
  {
    if alo < ahi && blo < bhi && a[ahi - 1] == b[bhi - 1] {
      TailLengthMaximal(a, b, alo, blo, ahi - 1, bhi - 1);
      var m := TailLength(a, b, alo, blo, ahi, bhi);
      assert a[ahi - m..ahi] == a[ahi - m..ahi - 1] + [a[ahi - 1]];
      assert b[bhi - m..bhi] == b[bhi - m..bhi - 1] + [b[bhi - 1]];
    }
  }

  /** An empty box, or one without depth left, yields nothing. */
  lemma {:induction false} RecursedEmpty<T>(a: seq<T>, b: seq<T>, alo: nat, blo: nat, ahi: nat, bhi: nat, d: int)
    requires alo <= ahi <= |a| && blo <= bhi <= |b| && (d < 0 || alo == ahi || blo == bhi)
    ensures Recursed(a, b, alo, blo, ahi, bhi, d, [])
  {
  }

  /** The anchor branch put together: the pairs up to the last anchor,
      then the recursion after it. */
  lemma {:induction false} RecursedAnchors<T>(a: seq<T>, b: seq<T>, alo: nat, blo: nat, ahi: nat, bhi: nat, d: nat,
                                              c: seq<Pair>, anchors: seq<Pair>, added: seq<Pair>, lastA: int, lastB: int)
    requires alo < ahi <= |a| && blo < bhi <= |b| && !NoUnique(a, b, alo, blo, ahi, bhi)
    requires LongestUniqueChain(a[alo..ahi], b[blo..bhi], c) && anchors == Shift(c, alo, blo)
    requires alo - 1 <= lastA < ahi && blo - 1 <= lastB < bhi
    requires Threaded(a, b, alo, blo, d, anchors, added)
    requires LastAnchor(anchors, alo, blo) == (lastA, lastB)
    ensures forall rest :: Recursed(a, b, lastA + 1, lastB + 1, ahi, bhi, d - 1, rest) ==>
              Recursed(a, b, alo, blo, ahi, bhi, d, added + rest)
  {
    forall rest | Recursed(a, b, lastA + 1, lastB + 1, ahi, bhi, d - 1, rest)
      ensures Recursed(a, b, alo, blo, ahi, bhi, d, added + rest)
    {
      var ps := added + rest;
      assert ps[..|added|] == added && ps[|added|..] == rest;
      assert AnchorsThenRest(a, b, alo, blo, ahi, bhi, d, Shift(c, alo, blo), ps);
      assert Branches(a, b, alo, blo, ahi, bhi, d, ps);
    }
  }

  /** The branches without a unique line put together. */
  lemma {:induction false} RecursedPeeled<T>(a: seq<T>, b: seq<T>, alo: nat, blo: nat, ahi: nat, bhi: nat, d: nat,
                                             ps: seq<Pair>)
    requires alo < ahi <= |a| && blo < bhi <= |b| && NoUnique(a, b, alo, blo, ahi, bhi)
    requires a[alo] == b[blo] ==> PeeledPrefix(a, b, alo, blo, ahi, bhi, d, ps)
    requires a[alo] != b[blo] && a[ahi - 1] == b[bhi - 1] ==> PeeledSuffix(a, b, alo, blo, ahi, bhi, d, ps)
    requires a[alo] != b[blo] && a[ahi - 1] != b[bhi - 1] ==> ps == []
    ensures Recursed(a, b, alo, blo, ahi, bhi, d, ps)
  {
    assert Branches(a, b, alo, blo, ahi, bhi, d, ps);
  }

  /** One more anchor: the pairs so far, the recursion into the gap before
      the anchor, then the anchor, keep the threading. */
  lemma {:induction false} ThreadedStep<T>(a: seq<T>, b: seq<T>, alo: nat, blo: nat, d: nat, anchors: seq<Pair>, idx: nat,
                                           added: seq<Pair>, added': seq<Pair>)
    requires idx < |anchors| && Threaded(a, b, alo, blo, d, anchors[..idx], added)
    requires var last := LastAnchor(anchors[..idx], alo, blo);
             alo <= last.0 + 1 <= anchors[idx].0 <= |a| && blo <= last.1 + 1 <= anchors[idx].1 <= |b| &&
             |added'| > |added| && added'[..|added|] == added && added'[|added'| - 1] == anchors[idx] &&
             Recursed(a, b, last.0 + 1, last.1 + 1, anchors[idx].0, anchors[idx].1, d - 1, added'[|added|..|added'| - 1])
    ensures Threaded(a, b, alo, blo, d, anchors[..idx + 1], added')
    ensures LastAnchor(anchors[..idx + 1], alo, blo) == anchors[idx]
  {
    var s := anchors[..idx + 1];
    assert s[..|s| - 1] == anchors[..idx] && s[|s| - 1] == anchors[idx];
    assert added'[..|added|] == added;
  }

  /** `recurse_matches_py`: appends to `answer` the matched pairs of
      `a[alo:ahi]` and `b[blo:bhi]`. The source appends to the list in
      place while it recurses; here each call returns the pairs it found
      (`MatchBox`), in the same order, and they are appended once. */
  method RecurseMatches<T(==,!new)>(a: seq<T>, b: seq<T>, alo: nat, blo: nat, ahi: nat, bhi: nat,
                                    answer: seq<Pair>, maxrecursion: int)
    returns (answer': seq<Pair>)
    requires alo <= ahi <= |a| && blo <= bhi <= |b|
    ensures |answer| <= |answer'| && answer'[..|answer|] == answer
    ensures maxrecursion < 0 || alo == ahi || blo == bhi ==> answer' == answer
    ensures FreshPairs(a, b, answer'[|answer|..], alo, ahi, blo, bhi)
    ensures maxrecursion >= 0 && alo < ahi && blo < bhi ==> AnchoredBox(a, b, alo, blo, ahi, bhi, answer'[|answer|..])
    ensures Recursed(a, b, alo, blo, ahi, bhi, maxrecursion, answer'[|answer|..])
  {
    var added := MatchBox(a, b, alo, blo, ahi, bhi, maxrecursion);
    answer' := answer + added;
    assert answer'[|answer|..] == added;
  }

  /** The pairs `recurse_matches_py` appends for one box: nothing when the
      depth is exhausted or the box is empty; otherwise the anchors with the
      recursion around them, or, without anchors, a peeled common prefix or
      suffix. */
  method MatchBox<T(==,!new)>(a: seq<T>, b: seq<T>, alo: nat, blo: nat, ahi: nat, bhi: nat, maxrecursion: int)
    returns (added: seq<Pair>)
    requires alo <= ahi <= |a| && blo <= bhi <= |b|
    ensures maxrecursion < 0 || alo == ahi || blo == bhi ==> added == []
    ensures FreshPairs(a, b, added, alo, ahi, blo, bhi)
    ensures maxrecursion >= 0 && alo < ahi && blo < bhi ==> AnchoredBox(a, b, alo, blo, ahi, bhi, added)
    ensures Recursed(a, b, alo, blo, ahi, bhi, maxrecursion, added)
    decreases if maxrecursion < 0 then 0 else maxrecursion + 1, 3
  {
    added := [];
    if maxrecursion < 0 || alo == ahi || blo == bhi {
      RecursedEmpty(a, b, alo, blo, ahi, bhi, maxrecursion);
      return;
    }
    var lastA, lastB;
    added, lastA, lastB := AnchorPass(a, b, alo, blo, ahi, bhi, maxrecursion);
    if |added| > 0 {
      // matches between the last anchor and the end of the box
      var rest := MatchBox(a, b, lastA + 1, lastB + 1, ahi, bhi, maxrecursion - 1);
      AppendFresh(a, b, added, rest, alo, lastA + 1, ahi, blo, lastB + 1, bhi);
      HoldsAnchorsMore(a, b, alo, blo, ahi, bhi, added, added + rest);
      added := added + rest;
    } else {
      if a[alo] == b[blo] {
        added := PeelPrefix(a, b, alo, blo, ahi, bhi, maxrecursion);
      } else if a[ahi - 1] == b[bhi - 1] {
        added := PeelSuffix(a, b, alo, blo, ahi, bhi, maxrecursion);
      }
      NoUniqueHoldsAnchors(a, b, alo, blo, ahi, bhi, added);
      RecursedPeeled(a, b, alo, blo, ahi, bhi, maxrecursion, added);
    }
  }

  /** The unique-LCS pairs of the box `a[alo:ahi]` x `b[blo:bhi]`,
      shifted back to positions in `a` and `b`. */
  method Anchors<T(==,!new)>(a: seq<T>, b: seq<T>, alo: nat, blo: nat, ahi: nat, bhi: nat)
    returns (anchors: seq<Pair>)
    requires alo <= ahi <= |a| && blo <= bhi <= |b|
    ensures FreshPairs(a, b, anchors, alo, ahi, blo, bhi)
    ensures forall u :: 0 <= u < |anchors| ==>
      UniqueLcs.UniqueMatch(a[alo..ahi], b[blo..bhi], anchors[u].0 - alo, anchors[u].1 - blo)
    ensures HoldsAnchors(a, b, alo, blo, ahi, bhi, anchors)
    ensures anchors == [] <==> NoUnique(a, b, alo, blo, ahi, bhi)
    ensures exists c: seq<Pair> :: LongestUniqueChain(a[alo..ahi], b[blo..bhi], c) && anchors == Shift(c, alo, blo)
  {
    var lcs := UniqueLcs.UniqueLcs(a[alo..ahi], b[blo..bhi]);
    anchors := Shift(lcs, alo, blo);
    ShiftChain(a, b, alo, blo, ahi, bhi, lcs);
  }

  /** A chain of the box moved back to positions in `a` and `b`. */
  function Shift(c: seq<Pair>, alo: nat, blo: nat): (r: seq<Pair>)
    ensures |r| == |c| && forall u :: 0 <= u < |c| ==> r[u] == (c[u].0 + alo, c[u].1 + blo)
  {
    seq(|c|, u requires 0 <= u < |c| => (c[u].0 + alo, c[u].1 + blo))
  }

  /** The longest unique chain of a box, moved back, is a fresh run of
      unique matches that holds the anchors, empty exactly when the box has
      no unique line. */
  lemma {:induction false} ShiftChain<T>(a: seq<T>, b: seq<T>, alo: nat, blo: nat, ahi: nat, bhi: nat, lcs: seq<Pair>)
    requires alo <= ahi <= |a| && blo <= bhi <= |b|
    requires LongestUniqueChain(a[alo..ahi], b[blo..bhi], lcs)
    requires lcs == [] <==> forall i: nat, j: nat :: !UniqueLcs.UniqueMatch(a[alo..ahi], b[blo..bhi], i, j)
    ensures FreshPairs(a, b, Shift(lcs, alo, blo), alo, ahi, blo, bhi)
    ensures forall u :: 0 <= u < |lcs| ==>
      UniqueLcs.UniqueMatch(a[alo..ahi], b[blo..bhi], Shift(lcs, alo, blo)[u].0 - alo, Shift(lcs, alo, blo)[u].1 - blo)
    ensures HoldsAnchors(a, b, alo, blo, ahi, bhi, Shift(lcs, alo, blo))
    ensures Shift(lcs, alo, blo) == [] <==> NoUnique(a, b, alo, blo, ahi, bhi)
  {
    var anchors := Shift(lcs, alo, blo);
    assert forall u :: 0 <= u < |lcs| ==> (lcs[u].0 + alo, lcs[u].1 + blo) in anchors by {
      forall u | 0 <= u < |lcs| ensures (lcs[u].0 + alo, lcs[u].1 + blo) in anchors {
        assert anchors[u] == (lcs[u].0 + alo, lcs[u].1 + blo);
      }
    }
    forall u | 0 <= u < |anchors|
      ensures anchors[u].0 < |a| && anchors[u].1 < |b| && a[anchors[u].0] == b[anchors[u].1]
    {
      assert UniqueLcs.UniqueMatch(a[alo..ahi], b[blo..bhi], lcs[u].0, lcs[u].1);
      assert a[alo..ahi][lcs[u].0] == b[blo..bhi][lcs[u].1];
    }
  }

  /** The anchor loop of `recurse_matches_py`: the unique-LCS pairs of the
      box, each preceded by the recursion into the gap before it. Returns
      the last anchor, or `(alo - 1, blo - 1)` when there is none. Followed
      by the recursion into the box after the last anchor, this is what
      the box yields. */
  method AnchorPass<T(==,!new)>(a: seq<T>, b: seq<T>, alo: nat, blo: nat, ahi: nat, bhi: nat, maxrecursion: nat)
    returns (added: seq<Pair>, lastA: int, lastB: int)
    requires alo < ahi <= |a| && blo < bhi <= |b|
    ensures alo - 1 <= lastA < ahi && blo - 1 <= lastB < bhi
    ensures FreshPairs(a, b, added, alo, lastA + 1, blo, lastB + 1)
    ensures added == [] ==> lastA == alo - 1 && lastB == blo - 1
    ensures added == [] <==> NoUnique(a, b, alo, blo, ahi, bhi)
    ensures HoldsAnchors(a, b, alo, blo, ahi, bhi, added)
    ensures exists c: seq<Pair> :: LongestUniqueChain(a[alo..ahi], b[blo..bhi], c) &&
              Threaded(a, b, alo, blo, maxrecursion, Shift(c, alo, blo), added) &&
              LastAnchor(Shift(c, alo, blo), alo, blo) == (lastA, lastB)
    ensures added != [] ==> forall rest :: Recursed(a, b, lastA + 1, lastB + 1, ahi, bhi, maxrecursion - 1, rest) ==>
              Recursed(a, b, alo, blo, ahi, bhi, maxrecursion, added + rest)
    decreases maxrecursion + 1, 2
  {
    var anchors := Anchors(a, b, alo, blo, ahi, bhi);
    added, lastA, lastB := ThreadAnchors(a, b, alo, blo, ahi, bhi, maxrecursion, anchors);
    HoldsAnchorsMore(a, b, alo, blo, ahi, bhi, anchors, added);
    ghost var c: seq<Pair> :| LongestUniqueChain(a[alo..ahi], b[blo..bhi], c) && anchors == Shift(c, alo, blo);
    if added != [] {
      RecursedAnchors(a, b, alo, blo, ahi, bhi, maxrecursion, c, anchors, added, lastA, lastB);
    }
  }

  /** The loop over the anchors: for each, the recursion into the gap
      since the previous one, then the anchor pair. */
  method ThreadAnchors<T(==,!new)>(a: seq<T>, b: seq<T>, alo: nat, blo: nat, ahi: nat, bhi: nat, maxrecursion: nat,
                                   anchors: seq<Pair>)
    returns (added: seq<Pair>, lastA: int, lastB: int)
    requires alo < ahi <= |a| && blo < bhi <= |b|
    requires FreshPairs(a, b, anchors, alo, ahi, blo, bhi)
    ensures alo - 1 <= lastA < ahi && blo - 1 <= lastB < bhi
    ensures FreshPairs(a, b, added, alo, lastA + 1, blo, lastB + 1)
    ensures added == [] <==> anchors == []
    ensures AllIn(anchors, added)
    ensures Threaded(a, b, alo, blo, maxrecursion, anchors, added)
    ensures LastAnchor(anchors, alo, blo) == (lastA, lastB)
    decreases maxrecursion + 1, 1
  {
    added := [];
    lastA, lastB := alo - 1, blo - 1;
    for idx := 0 to |anchors|
      invariant Visited(a, b, alo, blo, ahi, bhi, anchors, idx, added, lastA, lastB)
      invariant Threaded(a, b, alo, blo, maxrecursion, anchors[..idx], added)
      invariant LastAnchor(anchors[..idx], alo, blo) == (lastA, lastB)
    {
      var (apos, bpos) := anchors[idx];
      ghost var before := added;
      VisitedNext(a, b, alo, blo, ahi, bhi, anchors, idx, added, lastA, lastB);
      added := VisitAnchor(a, b, alo, blo, maxrecursion, added, lastA, lastB, apos, bpos);
      VisitedStep(a, b, alo, blo, ahi, bhi, maxrecursion, anchors, idx, before, lastA, lastB, added);
      lastA, lastB := apos, bpos;
    }
    assert anchors[..|anchors|] == anchors;
  }

  /** Every pair of `ps` is in `qs`. */
  ghost predicate AllIn(ps: seq<Pair>, qs: seq<Pair>)
  {
    forall p :: p in ps ==> p in qs
  }

  /** The state of the anchor loop after `idx` anchors: the matched pairs
      end at the last anchor and contain all anchors so far. */
  ghost predicate Visited<T>(a: seq<T>, b: seq<T>, alo: nat, blo: nat, ahi: nat, bhi: nat,
                             anchors: seq<Pair>, idx: int, added: seq<Pair>, lastA: int, lastB: int)
  {
    && 0 <= idx <= |anchors|
    && alo - 1 <= lastA < ahi && blo - 1 <= lastB < bhi
    && FreshPairs(a, b, added, alo, lastA + 1, blo, lastB + 1)
    && (idx == 0 ==> lastA == alo - 1 && lastB == blo - 1 && added == [])
    && (idx > 0 ==> (lastA, lastB) == anchors[idx - 1] && added != [])
    && AllIn(anchors[..idx], added)
  }

  /** The next anchor lies above and to the right of the last one. */
  lemma {:induction false} VisitedNext<T>(a: seq<T>, b: seq<T>, alo: nat, blo: nat, ahi: nat, bhi: nat,
                                          anchors: seq<Pair>, idx: nat, added: seq<Pair>, lastA: int, lastB: int)
    requires FreshPairs(a, b, anchors, alo, ahi, blo, bhi)
    requires idx < |anchors| && Visited(a, b, alo, blo, ahi, bhi, anchors, idx, added, lastA, lastB)
    ensures lastA < anchors[idx].0 < ahi && lastB < anchors[idx].1 < bhi
    ensures anchors[idx].0 < |a| && anchors[idx].1 < |b| && a[anchors[idx].0] == b[anchors[idx].1]
  {
    if idx > 0 {
      assert anchors[idx - 1].0 < anchors[idx].0 && anchors[idx - 1].1 < anchors[idx].1;
    }
  }

  /** Visiting anchor `idx` keeps the loop state. */
  lemma {:induction false} VisitedStep<T>(a: seq<T>, b: seq<T>, alo: nat, blo: nat, ahi: nat, bhi: nat, d: nat,
                                          anchors: seq<Pair>, idx: nat, added: seq<Pair>, lastA: int, lastB: int,
                                          added': seq<Pair>)
    requires idx < |anchors| && Visited(a, b, alo, blo, ahi, bhi, anchors, idx, added, lastA, lastB)
    requires Threaded(a, b, alo, blo, d, anchors[..idx], added) && LastAnchor(anchors[..idx], alo, blo) == (lastA, lastB)
    requires lastA < anchors[idx].0 < ahi && lastB < anchors[idx].1 < bhi
    requires FreshPairs(a, b, added', alo, anchors[idx].0 + 1, blo, anchors[idx].1 + 1)
    requires AllIn(added, added') && |added'| > 0 && added'[|added'| - 1] == anchors[idx]
    requires |added'| > |added| && added'[..|added|] == added
    requires Recursed(a, b, lastA + 1, lastB + 1, anchors[idx].0, anchors[idx].1, d - 1, added'[|added|..|added'| - 1])
    ensures Visited(a, b, alo, blo, ahi, bhi, anchors, idx + 1, added', anchors[idx].0, anchors[idx].1)
    ensures Threaded(a, b, alo, blo, d, anchors[..idx + 1], added')
    ensures LastAnchor(anchors[..idx + 1], alo, blo) == anchors[idx]
  {
    assert anchors[..idx + 1] == anchors[..idx] + [anchors[idx]];
    assert anchors[idx] in added';
    ThreadedStep(a, b, alo, blo, d, anchors, idx, added, added');
  }

  /** One turn of the anchor loop: recurse into the gap between the last
      anchor and `(apos, bpos)` when it is not empty, then match the
      anchor itself. */
  method VisitAnchor<T(==,!new)>(a: seq<T>, b: seq<T>, alo: nat, blo: nat, maxrecursion: nat,
                                 added: seq<Pair>, lastA: int, lastB: int, apos: nat, bpos: nat)
    returns (added': seq<Pair>)
    requires alo - 1 <= lastA < apos < |a| && blo - 1 <= lastB < bpos < |b| && a[apos] == b[bpos]
    requires FreshPairs(a, b, added, alo, lastA + 1, blo, lastB + 1)
    ensures FreshPairs(a, b, added', alo, apos + 1, blo, bpos + 1)
    ensures AllIn(added, added')
    ensures |added'| > 0 && added'[|added'| - 1] == (apos, bpos)
    ensures |added'| > |added| && added'[..|added|] == added
    ensures Recursed(a, b, lastA + 1, lastB + 1, apos, bpos, maxrecursion - 1, added'[|added|..|added'| - 1])
    decreases maxrecursion + 1, 0
  {
    var gap := [];
    if lastA + 1 != apos || lastB + 1 != bpos {
      // recurse between consecutive anchors
      gap := MatchBox(a, b, lastA + 1, lastB + 1, apos, bpos, maxrecursion - 1);
    } else {
      RecursedEmpty(a, b, lastA + 1, lastB + 1, apos, bpos, maxrecursion - 1);
    }
    added' := added + gap + [(apos, bpos)];
    VisitJoin(a, b, alo, blo, maxrecursion - 1, added, gap, lastA, lastB, apos, bpos, added');
  }

  /** The pairs so far, the recursion into the gap, then the anchor. */
  lemma {:induction false} VisitJoin<T>(a: seq<T>, b: seq<T>, alo: nat, blo: nat, d: int, added: seq<Pair>,
                                        gap: seq<Pair>, lastA: int, lastB: int, apos: nat, bpos: nat, r: seq<Pair>)
    requires alo - 1 <= lastA < apos < |a| && blo - 1 <= lastB < bpos < |b| && a[apos] == b[bpos]
    requires FreshPairs(a, b, added, alo, lastA + 1, blo, lastB + 1)
    requires FreshPairs(a, b, gap, lastA + 1, apos, lastB + 1, bpos)
    requires Recursed(a, b, lastA + 1, lastB + 1, apos, bpos, d, gap)
    requires r == added + gap + [(apos, bpos)]
    ensures FreshPairs(a, b, r, alo, apos + 1, blo, bpos + 1)
    ensures AllIn(added, r)
    ensures |r| > 0 && r[|r| - 1] == (apos, bpos)
    ensures |r| > |added| && r[..|added|] == added
    ensures Recursed(a, b, lastA + 1, lastB + 1, apos, bpos, d, r[|added|..|r| - 1])
  {
    AppendFresh(a, b, added, gap, alo, lastA + 1, apos, blo, lastB + 1, bpos);
    AppendOne(a, b, added + gap, alo, blo, apos, bpos);
    assert r[..|added|] == added && r[|added|..|r| - 1] == gap;
  }

  /** No anchor and equal first lines: match the equal lines at the very
      beginning of the box, then recurse into the rest. */
  method PeelPrefix<T(==,!new)>(a: seq<T>, b: seq<T>, alo: nat, blo: nat, ahi: nat, bhi: nat, maxrecursion: nat)
    returns (added: seq<Pair>)
    requires alo < ahi <= |a| && blo < bhi <= |b| && a[alo] == b[blo]
    ensures |added| > 0 && added[0] == (alo, blo)
    ensures FreshPairs(a, b, added, alo, ahi, blo, bhi)
    ensures PeeledPrefix(a, b, alo, blo, ahi, bhi, maxrecursion, added)
    decreases maxrecursion + 1, 0
  {
    var run, lo, bl := LeadRun(a, b, alo, blo, ahi, bhi);
    var rest := MatchBox(a, b, lo, bl, ahi, bhi, maxrecursion - 1);
    PrefixJoin(a, b, alo, blo, ahi, bhi, maxrecursion, lo, bl, run, rest);
    added := run + rest;
  }

  /** The loop matching the equal lines at the very beginning of the box:
      `run` pairs them up to `(lo, bl)`, where they stop being equal or the
      box ends. */
  method LeadRun<T(==)>(a: seq<T>, b: seq<T>, alo: nat, blo: nat, ahi: nat, bhi: nat)
    returns (run: seq<Pair>, lo: nat, bl: nat)
    requires alo <= ahi <= |a| && blo <= bhi <= |b|
    ensures alo <= lo <= ahi && blo <= bl <= bhi && lo - alo == bl - blo
    ensures FreshPairs(a, b, run, alo, lo, blo, bl) && run == Diagonal(alo, blo, lo - alo)
    ensures !(lo < ahi && bl < bhi && a[lo] == b[bl])
    ensures lo - alo == HeadRun(a, b, alo, blo, ahi, bhi)
  {
    run := [];
    lo, bl := alo, blo;
    while lo < ahi && bl < bhi && a[lo] == b[bl]
      invariant alo <= lo <= ahi && blo <= bl <= bhi && lo - alo == bl - blo
      invariant FreshPairs(a, b, run, alo, lo, blo, bl)
      invariant run == Diagonal(alo, blo, lo - alo)
    {
      AppendOne(a, b, run, alo, blo, lo, bl);
      DiagonalFrom(run, alo, blo, lo, bl);
      run := run + [(lo, bl)];
      lo, bl := lo + 1, bl + 1;
    }
    HeadRunFrom(a, b, alo, blo, ahi, bhi, lo - alo, 0);
  }

  /** A run of equal lines from `(alo, blo)` to `(lo, bl)` that cannot be
      extended, followed by the recursion into the rest of the box, is the
      prefix branch. */
  lemma {:induction false} PrefixJoin<T>(a: seq<T>, b: seq<T>, alo: nat, blo: nat, ahi: nat, bhi: nat, d: nat,
                                         lo: nat, bl: nat, run: seq<Pair>, rest: seq<Pair>)
    requires alo < ahi <= |a| && blo < bhi <= |b| && a[alo] == b[blo]
    requires alo <= lo <= ahi && blo <= bl <= bhi && lo - alo == bl - blo
    requires FreshPairs(a, b, run, alo, lo, blo, bl) && run == Diagonal(alo, blo, lo - alo)
    requires !(lo < ahi && bl < bhi && a[lo] == b[bl])
    requires lo - alo == HeadRun(a, b, alo, blo, ahi, bhi)
    requires FreshPairs(a, b, rest, lo, ahi, bl, bhi)
    requires Recursed(a, b, lo, bl, ahi, bhi, d - 1, rest)
    ensures |run + rest| > 0 && (run + rest)[0] == (alo, blo)
    ensures FreshPairs(a, b, run + rest, alo, ahi, blo, bhi)
    ensures PeeledPrefix(a, b, alo, blo, ahi, bhi, d, run + rest)
  {
    var n := lo - alo;
    assert n > 0;
    DiagonalAt(alo, blo, n, 0);
    AppendFresh(a, b, run, rest, alo, lo, ahi, blo, bl, bhi);
    assert (run + rest)[..|run|] == run && (run + rest)[|run|..] == rest;
  }

  /** `HeadRun` from line `t` of a run of `n` equal lines that cannot be
      extended is what is left of the run. */
  lemma {:induction false} HeadRunFrom<T>(a: seq<T>, b: seq<T>, alo: nat, blo: nat, ahi: nat, bhi: nat, n: nat, t: nat)
    requires alo + n <= ahi <= |a| && blo + n <= bhi <= |b| && t <= n
    requires PairsMatch(a, b, Diagonal(alo, blo, n))
    requires !(alo + n < ahi && blo + n < bhi && a[alo + n] == b[blo + n])
    ensures HeadRun(a, b, alo + t, blo + t, ahi, bhi) == n - t
    decreases n - t
  {
    if t < n {
      DiagonalAt(alo, blo, n, t);
      HeadRunFrom(a, b, alo, blo, ahi, bhi, n, t + 1);
    }
  }

  /** The recursion into the box before the suffix run followed by that
      run is the suffix branch. */
  lemma {:induction false} SuffixJoin<T>(a: seq<T>, b: seq<T>, alo: nat, blo: nat, ahi: nat, bhi: nat, d: nat,
                                         nahi: nat, nbhi: nat, n: nat, front: seq<Pair>, ps: seq<Pair>)
    requires alo <= nahi < ahi <= |a| && blo <= nbhi < bhi <= |b| && ahi - nahi == bhi - nbhi && n == ahi - nahi
    requires ahi - nahi == TailLength(a, b, alo, blo, ahi, bhi)
    requires Recursed(a, b, alo, blo, nahi, nbhi, d - 1, front)
    requires ps == front + Diagonal(nahi, nbhi, n)
    ensures PeeledSuffix(a, b, alo, blo, ahi, bhi, d, ps)
  {
    DiagonalSize(nahi, nbhi, n);
    assert ps[|ps| - n..] == Diagonal(nahi, nbhi, n) && ps[..|ps| - n] == front;
    assert ahi - n == nahi && bhi - n == nbhi;
  }

  /** The pairs the suffix run appends stay inside the box and end at its
      last lines. */
  lemma {:induction false} SuffixRun<T>(a: seq<T>, b: seq<T>, alo: nat, blo: nat, ahi: nat, bhi: nat,
                                        nahi: nat, nbhi: nat, n: nat, front: seq<Pair>, ps: seq<Pair>)
    requires nahi < ahi && ahi - nahi == bhi - nbhi && n == ahi - nahi
    requires FreshPairs(a, b, ps, alo, nahi + n, blo, nbhi + n)
    requires ps == front + Diagonal(nahi, nbhi, n)
    ensures |ps| > 0 && ps[|ps| - 1] == (ahi - 1, bhi - 1)
    ensures FreshPairs(a, b, ps, alo, ahi, blo, bhi)
  {
    DiagonalAt(nahi, nbhi, n, n - 1);
    assert nahi + n == ahi && nbhi + n == bhi;
  }

  /** No anchor, different first lines and equal last lines: match the
      equal lines at the very end of the box, after recursing into the
      part before them. */
  method PeelSuffix<T(==,!new)>(a: seq<T>, b: seq<T>, alo: nat, blo: nat, ahi: nat, bhi: nat, maxrecursion: nat)
    returns (added: seq<Pair>)
    requires alo < ahi <= |a| && blo < bhi <= |b| && a[ahi - 1] == b[bhi - 1]
    ensures |added| > 0 && added[|added| - 1] == (ahi - 1, bhi - 1)
    ensures FreshPairs(a, b, added, alo, ahi, blo, bhi)
    ensures PeeledSuffix(a, b, alo, blo, ahi, bhi, maxrecursion, added)
    decreases maxrecursion + 1, 0
  {
    var nahi, nbhi := TailRun(a, b, alo, blo, ahi, bhi);
    var front := MatchBox(a, b, alo, blo, nahi, nbhi, maxrecursion - 1);
    var n := ahi - nahi;
    added := AppendRun(a, b, front, alo, blo, nahi, nbhi, n);
    SuffixRun(a, b, alo, blo, ahi, bhi, nahi, nbhi, n, front, added);
    SuffixJoin(a, b, alo, blo, ahi, bhi, maxrecursion, nahi, nbhi, n, front, added);
  }

  /** The loop walking back from the last lines of the box while they are
      equal: `(nahi, nbhi)` starts the longest run of equal lines ending at
      `(ahi, bhi)` that stays inside the box. */
  method TailRun<T(==)>(a: seq<T>, b: seq<T>, alo: nat, blo: nat, ahi: nat, bhi: nat) returns (nahi: nat, nbhi: nat)
    requires alo < ahi <= |a| && blo < bhi <= |b| && a[ahi - 1] == b[bhi - 1]
    ensures alo <= nahi < ahi && blo <= nbhi < bhi && ahi - nahi == bhi - nbhi
    ensures forall t :: nahi <= t < ahi ==> a[t] == b[t - nahi + nbhi]
    ensures nahi == alo || nbhi == blo || a[nahi - 1] != b[nbhi - 1]
    ensures ahi - nahi == TailLength(a, b, alo, blo, ahi, bhi)
  {
    nahi, nbhi := ahi - 1, bhi - 1;
    while nahi > alo && nbhi > blo && a[nahi - 1] == b[nbhi - 1]
      invariant alo <= nahi < ahi && blo <= nbhi < bhi && ahi - nahi == bhi - nbhi
      invariant forall t :: nahi <= t < ahi ==> a[t] == b[t - nahi + nbhi]
      invariant TailLength(a, b, alo, blo, ahi, bhi) == ahi - nahi + TailLength(a, b, alo, blo, nahi, nbhi)
    {
      nahi, nbhi := nahi - 1, nbhi - 1;
    }
  }

  /** The closing loop appending the run of equal lines
      `(lo + i, bl + i)` for `i < n` after the pairs already found below
      it. */
  method AppendRun<T(==)>(a: seq<T>, b: seq<T>, added: seq<Pair>, alo: nat, blo: nat, lo: nat, bl: nat, n: nat)
    returns (r: seq<Pair>)
    requires alo <= lo && blo <= bl && lo + n <= |a| && bl + n <= |b|
    requires forall t :: lo <= t < lo + n ==> a[t] == b[t - lo + bl]
    requires FreshPairs(a, b, added, alo, lo, blo, bl)
    ensures |r| == |added| + n && r[..|added|] == added
    ensures n > 0 ==> r[|r| - 1] == (lo + n - 1, bl + n - 1)
    ensures FreshPairs(a, b, r, alo, lo + n, blo, bl + n)
    ensures r == added + Diagonal(lo, bl, n)
  {
    r := added;
    for i := 0 to n
      invariant FreshPairs(a, b, r, alo, lo + i, blo, bl + i)
      invariant r == added + Diagonal(lo, bl, i)
    {
      RunStep(a, b, added, r, alo, blo, lo, bl, i);
      r := r + [(lo + i, bl + i)];
    }
    DiagonalAfter(added, r, lo, bl, n);
  }

  /** One turn of the closing loop keeps both of its invariants. */
  lemma RunStep<T>(a: seq<T>, b: seq<T>, added: seq<Pair>, r: seq<Pair>, alo: nat, blo: nat, lo: nat, bl: nat, i: nat)
    requires alo <= lo && blo <= bl && lo + i < |a| && bl + i < |b| && a[lo + i] == b[bl + i]
    requires FreshPairs(a, b, r, alo, lo + i, blo, bl + i) && r == added + Diagonal(lo, bl, i)
    ensures FreshPairs(a, b, r + [(lo + i, bl + i)], alo, lo + i + 1, blo, bl + i + 1)
    ensures r + [(lo + i, bl + i)] == added + Diagonal(lo, bl, i + 1)
  {
    AppendOne(a, b, r, alo, blo, lo + i, bl + i);
    DiagonalNext(added, r, lo, bl, i);
  }

  /** A list that ends in a diagonal keeps its front and ends at the
      diagonal's last pair. */
  lemma DiagonalAfter(added: seq<Pair>, r: seq<Pair>, lo: nat, bl: nat, n: nat)
    requires r == added + Diagonal(lo, bl, n)
    ensures |r| == |added| + n && r[..|added|] == added
    ensures n > 0 ==> r[|r| - 1] == (lo + n - 1, bl + n - 1)
  {
    DiagonalSize(lo, bl, n);
    if n > 0 {
      DiagonalAt(lo, bl, n, n - 1);
    }
    assert r[..|added|] == added;
  }

  /** The pairs `(i + k, j + k)` for `k < n`. */
  function Diagonal(i: nat, j: nat, n: int): seq<Pair>
  {
    if n <= 0 then [] else Diagonal(i, j, n - 1) + [(i + n - 1, j + n - 1)]
  }

  /** The diagonal grows by its next pair. */
  lemma DiagonalNext(before: seq<Pair>, r: seq<Pair>, i: nat, j: nat, n: nat)
    requires r == before + Diagonal(i, j, n)
    ensures r + [(i + n, j + n)] == before + Diagonal(i, j, n + 1)
  {
    assert before + Diagonal(i, j, n) + [(i + n, j + n)] == before + (Diagonal(i, j, n) + [(i + n, j + n)]);
  }

  /** The same, counted from the start of the diagonal. */
  lemma DiagonalFrom(run: seq<Pair>, alo: nat, blo: nat, lo: nat, bl: nat)
    requires alo <= lo && lo - alo == bl - blo && run == Diagonal(alo, blo, lo - alo)
    ensures run + [(lo, bl)] == Diagonal(alo, blo, lo + 1 - alo)
  {
  }

  lemma {:induction false} DiagonalSize(i: nat, j: nat, n: nat)
    ensures |Diagonal(i, j, n)| == n
  {
    if n > 0 {
      DiagonalSize(i, j, n - 1);
    }
  }

  lemma {:induction false} DiagonalAt(i: nat, j: nat, n: int, t: nat)
    requires t < n
    ensures |Diagonal(i, j, n)| == n && Diagonal(i, j, n)[t] == (i + t, j + t)
  {
    if t < n - 1 {
      DiagonalAt(i, j, n - 1, t);
    } else if n > 1 {
      DiagonalAt(i, j, n - 1, 0);
    }
  }

  /** The pairs of block `m`. */
  function Run(m: Block): seq<Pair>
  {
    Diagonal(m.a, m.b, m.size)
  }

  /** Expands each block into its pairs, in order. */
  function Expand(blocks: seq<Block>): seq<Pair>
  {
    if |blocks| == 0 then [] else Expand(blocks[..|blocks| - 1]) + Run(blocks[|blocks| - 1])
  }

  lemma {:induction false} ExpandAppend(blocks: seq<Block>, m: Block)
    ensures Expand(blocks + [m]) == Expand(blocks) + Run(m)
  {
    assert (blocks + [m])[..|blocks|] == blocks;
  }

  /** The position in `Expand(blocks)` of line `t` of block `k`. */
  lemma {:induction false} ExpandIndex(blocks: seq<Block>, k: nat, t: nat) returns (u: nat)
    requires k < |blocks| && t < blocks[k].size
    ensures u < |Expand(blocks)| && Expand(blocks)[u] == (blocks[k].a + t, blocks[k].b + t)
    decreases |blocks|
  {
    var last := |blocks| - 1;
    var init := blocks[..last];
    assert Expand(blocks) == Expand(init) + Run(blocks[last]);
    if k == last {
      DiagonalAt(blocks[k].a, blocks[k].b, blocks[k].size, t);
      u := |Expand(init)| + t;
    } else {
      assert init[k] == blocks[k];
      u := ExpandIndex(init, k, t);
    }
  }

  /** `y` continues `x` on both sides, so the two could be one block. */
  predicate Mergeable(x: Block, y: Block)
  {
    y.a == x.a + x.size && y.b == x.b + x.size
  }

  /** Blocks as `_collapse_sequences` leaves them: none is empty and no
      two neighbours could be merged into one. */
  ghost predicate Collapsed(blocks: seq<Block>)
  {
    && (forall k :: 0 <= k < |blocks| ==> blocks[k].size >= 1)
    && (forall k :: 0 < k < |blocks| ==> !Mergeable(blocks[k - 1], blocks[k]))
  }

  /** What the loop of `_collapse_sequences` has built from the pairs
      `prefix` seen so far, counting the pending block `(start_a, start_b,
      length)` as the last one. */
  ghost predicate Pending(prefix: seq<Pair>, blocks: seq<Block>)
  {
    && |blocks| > 0 && |prefix| > 0
    && Expand(blocks) == prefix
    && Collapsed(blocks)
    && (StrictlyIncreasing(prefix) ==> Consistent(blocks))
    && var last := blocks[|blocks| - 1];
       prefix[|prefix| - 1] == (last.a + last.size - 1, last.b + last.size - 1)
  }

  lemma {:induction false} PendingFirst(p: Pair)
    ensures Pending([p], [Block(p.0, p.1, 1)])
  {
    assert Diagonal(p.0, p.1, 1) == Diagonal(p.0, p.1, 0) + [p];
    assert Expand([Block(p.0, p.1, 1)]) == Expand([]) + Run(Block(p.0, p.1, 1));
  }

  /** A pair that continues the pending block on both sides lengthens it. */
  lemma {:induction false} PendingExtend(prefix: seq<Pair>, init: seq<Block>, last: Block, p: Pair)
    requires Pending(prefix, init + [last])
    requires p == (last.a + last.size, last.b + last.size)
    ensures Pending(prefix + [p], init + [Block(last.a, last.b, last.size + 1)])
  {
    var longer := Block(last.a, last.b, last.size + 1);
    ExpandAppend(init, last);
    ExpandAppend(init, longer);
    assert Run(longer) == Run(last) + [p];
    var blocks := init + [longer];
    forall k | 0 < k < |blocks|
      ensures !Mergeable(blocks[k - 1], blocks[k])
    {
      assert (init + [last])[k - 1] == blocks[k - 1] || k == |blocks| - 1;
      if k == |blocks| - 1 {
        assert (init + [last])[k - 1] == blocks[k - 1];
        assert !Mergeable((init + [last])[k - 1], (init + [last])[k]);
      } else {
        assert (init + [last])[k - 1] == blocks[k - 1] && (init + [last])[k] == blocks[k];
      }
    }
    if StrictlyIncreasing(prefix + [p]) {
      IncreasingDropLast(prefix, p);
      forall k | 0 < k < |blocks|
        ensures blocks[k - 1].a + blocks[k - 1].size <= blocks[k].a
        ensures blocks[k - 1].b + blocks[k - 1].size <= blocks[k].b
      {
        assert (init + [last])[k - 1] == blocks[k - 1];
        assert (init + [last])[k].a == blocks[k].a && (init + [last])[k].b == blocks[k].b;
      }
    }
  }

  /** Dropping the last pair keeps a run strictly increasing. */
  lemma {:induction false} IncreasingDropLast(prefix: seq<Pair>, p: Pair)
    requires StrictlyIncreasing(prefix + [p])
    ensures StrictlyIncreasing(prefix)
  {
    forall u, v | 0 <= u < v < |prefix|
      ensures prefix[u].0 < prefix[v].0 && prefix[u].1 < prefix[v].1
    {
      assert (prefix + [p])[u] == prefix[u] && (prefix + [p])[v] == prefix[v];
    }
  }

  /** Any other pair closes the pending block and opens a new one. */
  lemma {:induction false} PendingStart(prefix: seq<Pair>, blocks: seq<Block>, p: Pair)
    requires Pending(prefix, blocks)
    requires var last := blocks[|blocks| - 1];
             p != (last.a + last.size, last.b + last.size)
    ensures Pending(prefix + [p], blocks + [Block(p.0, p.1, 1)])
  {
    var started := Block(p.0, p.1, 1);
    ExpandAppend(blocks, started);
    assert Run(started) == Diagonal(p.0, p.1, 0) + [p];
    var blocks' := blocks + [started];
    forall k | 0 < k < |blocks'|
      ensures !Mergeable(blocks'[k - 1], blocks'[k])
    {
      if k < |blocks| {
        assert blocks'[k - 1] == blocks[k - 1] && blocks'[k] == blocks[k];
      }
    }
    if StrictlyIncreasing(prefix + [p]) {
      var n := |prefix|;
      assert (prefix + [p])[n - 1] == prefix[n - 1] && (prefix + [p])[n] == p;
      IncreasingDropLast(prefix, p);
      forall k | 0 < k < |blocks'|
        ensures blocks'[k - 1].a + blocks'[k - 1].size <= blocks'[k].a
        ensures blocks'[k - 1].b + blocks'[k - 1].size <= blocks'[k].b
      {
        if k < |blocks| {
          assert blocks'[k - 1] == blocks[k - 1] && blocks'[k] == blocks[k];
        }
      }
    }
  }

  /** One pass of the loop of `_collapse_sequences` over `ms[i]`, with
      `start` and `length` describing the pending block: the pair either
      lengthens the pending block or closes it and opens a new one. */
  lemma {:induction false} PendingNext(ms: seq<Pair>, i: nat, answer: seq<Block>, start: Option<Pair>, length: nat)
    requires i < |ms|
    requires start.None? ==> i == 0 && answer == [] && length == 0
    requires start.Some? ==> Pending(ms[..i], answer + [Block(start.value.0, start.value.1, length)])
    ensures start.Some? && ms[i] == (start.value.0 + length, start.value.1 + length) ==>
              Pending(ms[..i + 1], answer + [Block(start.value.0, start.value.1, length + 1)])
    ensures start.Some? && ms[i] != (start.value.0 + length, start.value.1 + length) ==>
              Pending(ms[..i + 1], answer + [Block(start.value.0, start.value.1, length)] + [Block(ms[i].0, ms[i].1, 1)])
    ensures start.None? ==> Pending(ms[..i + 1], [Block(ms[i].0, ms[i].1, 1)])
  {
    assert ms[..i + 1] == ms[..i] + [ms[i]];
    if start.None? {
      assert ms[..i + 1] == [ms[i]];
      PendingFirst(ms[i]);
    } else if ms[i] == (start.value.0 + length, start.value.1 + length) {
      PendingExtend(ms[..i], answer, Block(start.value.0, start.value.1, length), ms[i]);
    } else {
      PendingStart(ms[..i], answer + [Block(start.value.0, start.value.1, length)], ms[i]);
    }
  }

  /** `_collapse_sequences`: groups runs of pairs that advance together on
      both sides into `(i, j, n)` blocks. Expanding the blocks gives back
      the pairs, every block is non-empty, no two neighbours could be
      merged, and increasing pairs give consistent blocks. */
  method CollapseSequences(matches: seq<Pair>) returns (answer: seq<Block>)
    ensures Expand(answer) == matches
    ensures Collapsed(answer)
    ensures StrictlyIncreasing(matches) ==> Consistent(answer)
  {
    answer := [];
    var start: Option<Pair> := None;
    var length := 0;
    for i := 0 to |matches|
      invariant start.None? <==> i == 0
      invariant start.None? ==> answer == [] && length == 0
      invariant start.Some? ==>
                  Pending(matches[..i], answer + [Block(start.value.0, start.value.1, length)])
    {
      PendingNext(matches, i, answer, start, length);
      var (ia, ib) := matches[i];
      if start.Some? && ia == start.value.0 + length && ib == start.value.1 + length {
        length := length + 1;
      } else {
        if start.Some? {
          answer := answer + [Block(start.value.0, start.value.1, length)];
        }
        start := Some((ia, ib));
        length := 1;
      }
    }
    assert matches[..|matches|] == matches;
    if length != 0 {
      answer := answer + [Block(start.value.0, start.value.1, length)];
    }
  }

  /** The list comprehension of `get_matching_blocks` that keeps only the
      pairs whose original lines are equal. */
  function KeepExact(a: seq<string>, b: seq<string>, ms: seq<Pair>): (r: seq<Pair>)
    requires PairsIn(ms, 0, |a|, 0, |b|)
    ensures PairsIn(r, 0, |a|, 0, |b|) && PairsMatch(a, b, r)
  {
    if |ms| == 0 then []
    else
      var p := ms[|ms| - 1];
      var r' := KeepExact(a, b, ms[..|ms| - 1]);
      if a[p.0] == b[p.1] then r' + [p] else r'
  }

  /** The filter keeps exactly the pairs whose lines are equal. */
  lemma {:induction false} KeepExactMembers(a: seq<string>, b: seq<string>, ms: seq<Pair>)
    requires PairsIn(ms, 0, |a|, 0, |b|)
    ensures forall p :: p in KeepExact(a, b, ms) <==> p in ms && a[p.0] == b[p.1]
  {
    if |ms| > 0 {
      var init := ms[..|ms| - 1];
      KeepExactMembers(a, b, init);
      assert ms == init + [ms[|ms| - 1]];
    }
  }

  /** Filtering keeps an increasing list increasing. */
  lemma {:induction false} KeepExactIncreasing(a: seq<string>, b: seq<string>, ms: seq<Pair>)
    requires PairsIn(ms, 0, |a|, 0, |b|) && StrictlyIncreasing(ms)
    ensures StrictlyIncreasing(KeepExact(a, b, ms))
  {
    if |ms| > 0 {
      var init := ms[..|ms| - 1];
      var p := ms[|ms| - 1];
      var r' := KeepExact(a, b, init);
      KeepExactIncreasing(a, b, init);
      KeepExactMembers(a, b, init);
      forall u | 0 <= u < |r'| ensures r'[u].0 < p.0 && r'[u].1 < p.1 {
        assert r'[u] in init;
        var v :| 0 <= v < |init| && init[v] == r'[u];
        assert ms[v] == r'[u];
      }
    }
  }

  /** Each line of a block built from matching pairs matches. */
  lemma {:induction false} BlockLineMatches(a: seq<string>, b: seq<string>, ps: seq<Pair>, blocks: seq<Block>, k: nat, t: nat)
    requires PairsIn(ps, 0, |a|, 0, |b|) && PairsMatch(a, b, ps)
    requires Expand(blocks) == ps && k < |blocks| && t < blocks[k].size
    ensures blocks[k].a + t < |a| && blocks[k].b + t < |b| && a[blocks[k].a + t] == b[blocks[k].b + t]
  {
    var u := ExpandIndex(blocks, k, t);
    assert ps[u] == (blocks[k].a + t, blocks[k].b + t);
  }

  /** The first `n` lines of a block built from matching pairs match. */
  lemma {:induction false} BlockPrefixMatches(a: seq<string>, b: seq<string>, ps: seq<Pair>, blocks: seq<Block>,
                                              k: nat, n: nat)
    requires PairsIn(ps, 0, |a|, 0, |b|) && PairsMatch(a, b, ps)
    requires Expand(blocks) == ps && k < |blocks| && 1 <= blocks[k].size && n <= blocks[k].size
    ensures BlockMatches(a, b, Block(blocks[k].a, blocks[k].b, n))
  {
    var m := blocks[k];
    if n > 0 {
      BlockPrefixMatches(a, b, ps, blocks, k, n - 1);
      BlockLineMatches(a, b, ps, blocks, k, n - 1);
      assert a[m.a..m.a + n] == a[m.a..m.a + n - 1] + [a[m.a + n - 1]];
      assert b[m.b..m.b + n] == b[m.b..m.b + n - 1] + [b[m.b + n - 1]];
    } else {
      BlockLineMatches(a, b, ps, blocks, k, 0);
    }
  }

  /** The stripped lines, `[x.strip() for x in a]`. */
  function StripAll(a: seq<string>): (r: seq<string>)
    ensures |r| == |a| && forall i :: 0 <= i < |a| ==> r[i] == Strip(a[i])
  {
    seq(|a|, i requires 0 <= i < |a| => Strip(a[i]))
  }

  /** `ms` is what `recurse_matches_py` finds for the whole stripped files
      with depth left: increasing pairs of equal stripped lines holding a
      longest unique-line chain, and without a unique line the equal first
      (else last) lines matched. */
  ghost predicate StrippedMatches(a: seq<string>, b: seq<string>, ms: seq<Pair>)
  {
    var aWs, bWs := StripAll(a), StripAll(b);
    && FreshPairs(aWs, bWs, ms, 0, |a|, 0, |b|)
    && (0 < |a| && 0 < |b| ==> AnchoredBox(aWs, bWs, 0, 0, |a|, |b|, ms))
    && Recursed(aWs, bWs, 0, 0, |a|, |b|, 10, ms)
  }

  /** The blocks of `get_matching_blocks`: for some `ms` that the matcher
      on the stripped lines may return, the pairs of `ms` whose original
      lines are equal, collapsed into maximal blocks, then the dummy. */
  ghost predicate PatienceBlocks(a: seq<string>, b: seq<string>, blocks: seq<Block>)
  {
    && |blocks| > 0 && blocks[|blocks| - 1] == Block(|a|, |b|, 0)
    && Collapsed(blocks[..|blocks| - 1])
    && exists ms: seq<Pair> :: StrippedMatches(a, b, ms) && Expand(blocks[..|blocks| - 1]) == KeepExact(a, b, ms)
  }

  /** `PatienceSequenceMatcher_py.get_matching_blocks` without the cache:
      anchors on the stripped lines with recursion depth 10, keeps the pairs
      whose original lines are equal, collapses them, appends the dummy and
      checks consistency, which always passes. */
  method MatchingBlocks(a: seq<string>, b: seq<string>) returns (blocks: seq<Block>)
    ensures WellFormedBlocks(blocks, |a|, |b|)
    ensures forall k :: 0 <= k < |blocks| ==> BlockMatches(a, b, blocks[k])
    ensures forall k :: 0 <= k < |blocks| - 1 ==> blocks[k].size >= 1
    ensures PatienceBlocks(a, b, blocks)
  {
    var aWs := StripAll(a);
    var bWs := StripAll(b);
    var matches := RecurseMatches(aWs, bWs, 0, 0, |a|, |b|, [], 10);
    assert matches[0..] == matches;
    assert StrippedMatches(a, b, matches);
    var exact := KeepExact(a, b, matches);
    var collapsed := CollapseSequences(exact);
    PatienceBlocksOf(a, b, matches, collapsed);
    blocks := collapsed + [Block(|a|, |b|, 0)];
    var err := CheckConsistency(blocks);
    assert err.None?;
  }

  /** The pairs the matcher finds on the stripped lines, filtered on the
      original lines and collapsed, followed by the dummy: the blocks are
      well formed, each joins identical lines, and they are the blocks of
      `get_matching_blocks`. */
  lemma {:induction false} PatienceBlocksOf(a: seq<string>, b: seq<string>, ms: seq<Pair>, collapsed: seq<Block>)
    requires StrippedMatches(a, b, ms)
    requires Expand(collapsed) == KeepExact(a, b, ms) && Collapsed(collapsed)
    requires StrictlyIncreasing(KeepExact(a, b, ms)) ==> Consistent(collapsed)
    ensures var blocks := collapsed + [Block(|a|, |b|, 0)];
              && WellFormedBlocks(blocks, |a|, |b|)
              && (forall k :: 0 <= k < |blocks| ==> BlockMatches(a, b, blocks[k]))
              && (forall k :: 0 <= k < |blocks| - 1 ==> blocks[k].size >= 1)
              && PatienceBlocks(a, b, blocks)
  {
    var blocks := collapsed + [Block(|a|, |b|, 0)];
    KeepExactIncreasing(a, b, ms);
    WithDummy(a, b, KeepExact(a, b, ms), collapsed, blocks);
    assert blocks[..|blocks| - 1] == collapsed;
  }

  /** A non-empty block built from matching pairs matches. */
  lemma {:induction false} BlockFromPairsMatches(a: seq<string>, b: seq<string>, ps: seq<Pair>, blocks: seq<Block>, k: nat)
    requires PairsIn(ps, 0, |a|, 0, |b|) && PairsMatch(a, b, ps) && Expand(blocks) == ps
    requires k < |blocks| && blocks[k].size >= 1
    ensures BlockMatches(a, b, blocks[k])
  {
    BlockPrefixMatches(a, b, ps, blocks, k, blocks[k].size);
  }

  /** The first `n` non-empty blocks built from matching pairs match. */
  lemma {:induction false} FirstBlocksMatch(a: seq<string>, b: seq<string>, ps: seq<Pair>, blocks: seq<Block>, n: nat)
    requires PairsIn(ps, 0, |a|, 0, |b|) && PairsMatch(a, b, ps) && Expand(blocks) == ps
    requires n <= |blocks| && forall k :: 0 <= k < |blocks| ==> blocks[k].size >= 1
    ensures forall k :: 0 <= k < n ==> BlockMatches(a, b, blocks[k])
  {
    if n > 0 {
      FirstBlocksMatch(a, b, ps, blocks, n - 1);
      BlockFromPairsMatches(a, b, ps, blocks, n - 1);
    }
  }

  /** Collapsed matching pairs followed by the dummy are well formed, and
      every block matches. */
  lemma {:induction false} WithDummy(a: seq<string>, b: seq<string>, ps: seq<Pair>, collapsed: seq<Block>, blocks: seq<Block>)
    requires PairsIn(ps, 0, |a|, 0, |b|) && PairsMatch(a, b, ps) && Expand(collapsed) == ps
    requires Consistent(collapsed) && forall k :: 0 <= k < |collapsed| ==> collapsed[k].size >= 1
    requires blocks == collapsed + [Block(|a|, |b|, 0)]
    ensures WellFormedBlocks(blocks, |a|, |b|)
    ensures forall k :: 0 <= k < |blocks| ==> BlockMatches(a, b, blocks[k])
  {
    FirstBlocksMatch(a, b, ps, collapsed, |collapsed|);
  }

  /** A list of collapsed blocks expands to at least one pair. */
  lemma {:induction false} ExpandNonEmpty(x: seq<Block>)
    requires Collapsed(x) && |x| > 0
    ensures |Expand(x)| > 0
  {
    var xl := x[|x| - 1];
    assert Expand(x) == Expand(x[..|x| - 1]) + Run(xl);
    DiagonalAt(xl.a, xl.b, xl.size, 0);
  }

  /** In a list of collapsed blocks the last block's pairs end the
      expansion, and the pair just before them, when there is one, does
      not continue their diagonal. */
  lemma {:induction false} BeforeLastRun(x: seq<Block>)
    requires Collapsed(x) && |x| > 0
    ensures var ps, xl := Expand(x), x[|x| - 1];
            && |ps| >= xl.size && ps[|ps| - xl.size] == (xl.a, xl.b)
            && (|ps| > xl.size ==> ps[|ps| - xl.size - 1].0 + 1 != xl.a || ps[|ps| - xl.size - 1].1 + 1 != xl.b)
  {
    var ps, xl, xi := Expand(x), x[|x| - 1], x[..|x| - 1];
    assert ps == Expand(xi) + Run(xl);
    DiagonalAt(xl.a, xl.b, xl.size, 0);
    if |xi| > 0 {
      var xp := xi[|xi| - 1];
      assert Expand(xi) == Expand(xi[..|xi| - 1]) + Run(xp);
      DiagonalAt(xp.a, xp.b, xp.size, xp.size - 1);
      assert ps[|ps| - xl.size - 1] == (xp.a + xp.size - 1, xp.b + xp.size - 1);
      assert x[|x| - 2] == xp && !Mergeable(x[|x| - 2], x[|x| - 1]);
    }
  }

  /** Inside the last block's pairs each pair continues the one before
      it: when that block has more than `s` pairs, the pair `s + 1` from
      the end is the pair `s` from the end moved back by one line. */
  lemma {:induction false} InsideLastRun(y: seq<Block>, s: nat)
    requires Collapsed(y) && |y| > 0 && 0 < s < |Expand(y)|
    ensures var ps := Expand(y);
            s < y[|y| - 1].size ==> ps[|ps| - s - 1].0 + 1 == ps[|ps| - s].0 && ps[|ps| - s - 1].1 + 1 == ps[|ps| - s].1
  {
    var ps, yl := Expand(y), y[|y| - 1];
    var t, n := yl.size, |ps|;
    assert ps == Expand(y[..|y| - 1]) + Run(yl);
    if s < t {
      DiagonalAt(yl.a, yl.b, t, t - s - 1);
      DiagonalAt(yl.a, yl.b, t, t - s);
      assert ps[n - s - 1] == Run(yl)[t - s - 1];
      assert ps[n - s] == Run(yl)[t - s];
    }
  }

  /** The last block of a collapsed list is the longest diagonal run at the
      end of its expansion, so of two collapsed lists with the same pairs
      neither has a longer last block. */
  lemma {:induction false} LastRunNotShorter(x: seq<Block>, y: seq<Block>)
    requires Collapsed(x) && Collapsed(y) && Expand(x) == Expand(y) && |x| > 0 && |y| > 0
    ensures x[|x| - 1].size >= y[|y| - 1].size
  {
    var ps := Expand(x);
    var yl := y[|y| - 1];
    assert ps == Expand(y[..|y| - 1]) + Run(yl);
    DiagonalAt(yl.a, yl.b, yl.size, 0);
    BeforeLastRun(x);
    if |ps| > x[|x| - 1].size {
      InsideLastRun(y, x[|x| - 1].size);
    }
  }

  /** Dropping the last block keeps a list collapsed. */
  lemma {:induction false} CollapsedDropLast(x: seq<Block>)
    requires Collapsed(x) && |x| > 0
    ensures Collapsed(x[..|x| - 1])
  {
    var xi := x[..|x| - 1];
    forall k | 0 < k < |xi| ensures !Mergeable(xi[k - 1], xi[k]) {
      assert xi[k - 1] == x[k - 1] && xi[k] == x[k];
    }
  }

  /** Collapsed blocks are determined by the pairs they expand to: what
      `_collapse_sequences` returns is the only collapsed list for its
      input. */
  lemma {:induction false} CollapsedUnique(x: seq<Block>, y: seq<Block>)
    requires Collapsed(x) && Collapsed(y) && Expand(x) == Expand(y)
    ensures x == y
    decreases |x|
  {
    if |x| == 0 {
      if |y| > 0 {
        ExpandNonEmpty(y);
      }
    } else if |y| == 0 {
      ExpandNonEmpty(x);
    } else {
      LastRunNotShorter(x, y);
      LastRunNotShorter(y, x);
      var xl, yl := x[|x| - 1], y[|y| - 1];
      var xi, yi := x[..|x| - 1], y[..|y| - 1];
      var ps := Expand(x);
      assert ps == Expand(xi) + Run(xl) && ps == Expand(yi) + Run(yl);
      DiagonalAt(xl.a, xl.b, xl.size, 0);
      DiagonalAt(yl.a, yl.b, yl.size, 0);
      assert Expand(xi) == ps[..|ps| - xl.size] == Expand(yi);
      assert Run(xl) == ps[|ps| - xl.size..] == Run(yl);
      assert xl == yl;
      CollapsedDropLast(x);
      CollapsedDropLast(y);
      CollapsedUnique(xi, yi);
      assert x == xi + [xl] && y == yi + [yl];
    }
  }

  /** A one-character line that is not whitespace strips to itself. */
  lemma {:induction false} StripPlain(s: string)
    requires |s| == 1 && !IsSpace(s[0])
    ensures Strip(s) == s
  {
    assert LeadingSpace(s) == 0;
    assert TrailingSpace(s[0..]) == 0;
    assert s[0..1] == s;
  }

  /** The pairs of equal lines of the example, one per letter but `x`. */
  predicate ExamplePair(p: Pair)
  {
    p == (0, 0) || p == (1, 1) || p == (3, 2) || p == (4, 3)
  }

  /** Each line of the example strips to itself. */
  lemma {:induction false} ExampleStripped()
    ensures StripAll(ExampleA) == ExampleA && StripAll(ExampleB) == ExampleB
  {
    forall i | 0 <= i < |ExampleA| ensures Strip(ExampleA[i]) == ExampleA[i] {
      StripPlain(ExampleA[i]);
    }
    forall j | 0 <= j < |ExampleB| ensures Strip(ExampleB[j]) == ExampleB[j] {
      StripPlain(ExampleB[j]);
    }
  }

  /** Every pair of equal lines of the example is one of the four. */
  lemma {:induction false} ExamplePairsOnly()
    ensures forall i, j :: 0 <= i < 5 && 0 <= j < 4 && ExampleA[i] == ExampleB[j] ==> ExamplePair((i, j))
  {
    forall i, j | 0 <= i < 5 && 0 <= j < 4 && ExampleA[i] == ExampleB[j] ensures ExamplePair((i, j)) {
      assert ExampleA[i][0] == ExampleB[j][0];
    }
  }

  /** A line that differs from every other line occurs once. */
  lemma {:induction false} OnceIn(s: seq<string>, i: nat)
    requires i < |s| && forall k :: 0 <= k < |s| && k != i ==> s[k] != s[i]
    ensures UniqueLcs.UniqueIn(s, s[i])
  {
    assert s == s[..i] + [s[i]] + s[i + 1..];
    assert s[i] !in s[..i];
    assert s[i] !in s[i + 1..];
  }

  /** The lines of each example file are pairwise different. */
  lemma {:induction false} ExampleDistinct()
    ensures forall i, k :: 0 <= i < 5 && 0 <= k < 5 && i != k ==> ExampleA[i] != ExampleA[k]
    ensures forall j, k :: 0 <= j < 4 && 0 <= k < 4 && j != k ==> ExampleB[j] != ExampleB[k]
  {
    forall i, k | 0 <= i < 5 && 0 <= k < 5 && i != k ensures ExampleA[i] != ExampleA[k] {
      assert ExampleA[i][0] != ExampleA[k][0];
    }
    forall j, k | 0 <= j < 4 && 0 <= k < 4 && j != k ensures ExampleB[j] != ExampleB[k] {
      assert ExampleB[j][0] != ExampleB[k][0];
    }
  }

  /** In a list of pairwise different lines every line occurs once. */
  lemma {:induction false} AllOnce(s: seq<string>)
    requires forall i, k :: 0 <= i < |s| && 0 <= k < |s| && i != k ==> s[i] != s[k]
    ensures forall i :: 0 <= i < |s| ==> UniqueLcs.UniqueIn(s, s[i])
  {
    forall i | 0 <= i < |s| ensures UniqueLcs.UniqueIn(s, s[i]) {
      OnceIn(s, i);
    }
  }

  /** The four pairs in order are a unique-line chain of the example. */
  lemma {:induction false} ExampleChain()
    ensures UniqueLcs.IsUniqueChain(ExampleA, ExampleB, [(0, 0), (1, 1), (3, 2), (4, 3)])
  {
    var c: seq<Pair> := [(0, 0), (1, 1), (3, 2), (4, 3)];
    ExampleDistinct();
    AllOnce(ExampleA);
    AllOnce(ExampleB);
    forall u | 0 <= u < |c| ensures UniqueLcs.UniqueMatch(ExampleA, ExampleB, c[u].0, c[u].1) {
      assert ExamplePair(c[u]);
    }
    ExampleIncreasing();
  }

  /** The four example pairs are in increasing order. */
  lemma {:induction false} ExampleIncreasing()
    ensures StrictlyIncreasing([(0, 0), (1, 1), (3, 2), (4, 3)])
  {
    var c: seq<Pair> := [(0, 0), (1, 1), (3, 2), (4, 3)];
    forall u, v | 0 <= u < v < |c| ensures c[u].0 < c[v].0 && c[u].1 < c[v].1 {
      assert ExamplePair(c[u]) && ExamplePair(c[v]);
    }
  }

  /** The first four pairs of an increasing list of example pairs are the
      four in order. */
  lemma {:induction false} ExampleChainPrefix(q: seq<Pair>)
    requires StrictlyIncreasing(q) && |q| >= 4 && forall u :: 0 <= u < |q| ==> ExamplePair(q[u])
    ensures q[0] == (0, 0) && q[1] == (1, 1) && q[2] == (3, 2) && q[3] == (4, 3)
  {
    assert q[0].0 < q[1].0 < q[2].0 < q[3].0;
  }

  /** An increasing list of example pairs holding all four is exactly the
      four in order. */
  lemma {:induction false} ExampleChainAll(q: seq<Pair>)
    requires StrictlyIncreasing(q) && forall u :: 0 <= u < |q| ==> ExamplePair(q[u])
    requires (0, 0) in q && (1, 1) in q && (3, 2) in q && (4, 3) in q
    ensures q == [(0, 0), (1, 1), (3, 2), (4, 3)]
  {
    var i0 :| 0 <= i0 < |q| && q[i0] == (0, 0);
    var i1 :| 0 <= i1 < |q| && q[i1] == (1, 1);
    var i2 :| 0 <= i2 < |q| && q[i2] == (3, 2);
    var i3 :| 0 <= i3 < |q| && q[i3] == (4, 3);
    assert i0 < i1 < i2 < i3;
    assert ExamplePair(q[0]) && ExamplePair(q[1]) && ExamplePair(q[2]) && ExamplePair(q[3]);
    assert i0 == 0 && i1 == 1 && i2 == 2 && i3 == 3;
    assert ExamplePair(q[|q| - 1]);
    assert |q| == 4;
  }

  /** No unique-line chain is longer than a longest one. */
  lemma {:induction false} LongestBound<T>(x: seq<T>, y: seq<T>, c: seq<Pair>, c': seq<Pair>)
    requires LongestUniqueChain(x, y, c) && UniqueLcs.IsUniqueChain(x, y, c')
    ensures |c'| <= |c|
  {
  }

  /** Pairs of equal lines of the example are example pairs. */
  lemma {:induction false} ExampleEqualPairs(q: seq<Pair>)
    requires forall u :: 0 <= u < |q| ==> q[u].0 < 5 && q[u].1 < 4 && ExampleA[q[u].0] == ExampleB[q[u].1]
    ensures forall u :: 0 <= u < |q| ==> ExamplePair(q[u])
  {
    ExamplePairsOnly();
  }

  /** A longest unique-line chain of the example starts with the four
      pairs in order. */
  lemma {:induction false} ExampleLongest(c: seq<Pair>)
    requires LongestUniqueChain(ExampleA, ExampleB, c)
    ensures |c| >= 4 && c[0] == (0, 0) && c[1] == (1, 1) && c[2] == (3, 2) && c[3] == (4, 3)
  {
    ExampleChain();
    LongestBound(ExampleA, ExampleB, c, [(0, 0), (1, 1), (3, 2), (4, 3)]);
    assert forall u :: 0 <= u < |c| ==> UniqueLcs.UniqueMatch(ExampleA, ExampleB, c[u].0, c[u].1);
    ExampleEqualPairs(c);
    ExampleChainPrefix(c);
  }

  /** Whatever holds the anchors of the example holds all four pairs. */
  lemma {:induction false} ExampleAnchors(ms: seq<Pair>)
    requires HoldsAnchors(ExampleA, ExampleB, 0, 0, 5, 4, ms)
    ensures (0, 0) in ms && (1, 1) in ms && (3, 2) in ms && (4, 3) in ms
  {
    var a, b := ExampleA, ExampleB;
    assert a[0..5] == a && b[0..4] == b;
    var c: seq<Pair> :| LongestUniqueChain(a, b, c) && forall u :: 0 <= u < |c| ==> (c[u].0 + 0, c[u].1 + 0) in ms;
    ExampleLongest(c);
    assert (c[0].0 + 0, c[0].1 + 0) in ms && (c[1].0 + 0, c[1].1 + 0) in ms;
    assert (c[2].0 + 0, c[2].1 + 0) in ms && (c[3].0 + 0, c[3].1 + 0) in ms;
  }

  /** In the example the stripped-line matcher can only find the four
      pairs of equal lines. */
  lemma {:induction false} ExampleMatches(ms: seq<Pair>)
    requires StrippedMatches(ExampleA, ExampleB, ms)
    ensures ms == [(0, 0), (1, 1), (3, 2), (4, 3)]
  {
    ExampleStripped();
    ExampleBoxMatches(ms);
  }

  /** The same, with the stripping already done. */
  lemma {:induction false} ExampleBoxMatches(ms: seq<Pair>)
    requires FreshPairs(ExampleA, ExampleB, ms, 0, 5, 0, 4) && AnchoredBox(ExampleA, ExampleB, 0, 0, 5, 4, ms)
    ensures ms == [(0, 0), (1, 1), (3, 2), (4, 3)]
  {
    ExampleAnchors(ms);
    ExampleEqualPairs(ms);
    ExampleChainAll(ms);
  }

  /** The four example pairs join identical original lines, so the filter
      keeps them all. */
  lemma {:induction false} ExampleKeep()
    ensures KeepExact(ExampleA, ExampleB, [(0, 0), (1, 1), (3, 2), (4, 3)]) == [(0, 0), (1, 1), (3, 2), (4, 3)]
  {
    var a, b := ExampleA, ExampleB;
    var c0: seq<Pair> := [(0, 0), (1, 1), (3, 2), (4, 3)];
    assert c0[..1][..0] == [] && c0[..2][..1] == c0[..1] && c0[..3][..2] == c0[..2] && c0[..3] == c0[..|c0| - 1];
    assert KeepExact(a, b, c0[..1]) == c0[..1];
    assert KeepExact(a, b, c0[..2]) == c0[..2];
    assert KeepExact(a, b, c0[..3]) == c0[..3];
  }

  /** The expected blocks of the example, without the dummy, are collapsed
      and expand to the four pairs. */
  lemma {:induction false} ExampleBlocks()
    ensures Expand([Block(0, 0, 2), Block(3, 2, 2)]) == [(0, 0), (1, 1), (3, 2), (4, 3)]
    ensures Collapsed([Block(0, 0, 2), Block(3, 2, 2)])
  {
    var target: seq<Block> := [Block(0, 0, 2), Block(3, 2, 2)];
    assert Diagonal(0, 0, 2) == [(0, 0), (1, 1)];
    assert Diagonal(3, 2, 2) == [(3, 2), (4, 3)];
    assert target[..1] == [Block(0, 0, 2)] && target[..1][..0] == [];
  }

  /** The docstring example of `get_matching_blocks` (`"abxcd"` against
      `"abcd"`): the only blocks it may return are `[(0, 0, 2), (3, 2, 2),
      (5, 4, 0)]`. Every letter is unique, so the anchors are forced. */
  lemma {:induction false} MatchingBlocksExample(blocks: seq<Block>)
    requires PatienceBlocks(ExampleA, ExampleB, blocks)
    ensures blocks == [Block(0, 0, 2), Block(3, 2, 2), Block(5, 4, 0)]
  {
    var init := blocks[..|blocks| - 1];
    var ms: seq<Pair> :| StrippedMatches(ExampleA, ExampleB, ms) && Expand(init) == KeepExact(ExampleA, ExampleB, ms);
    ExampleMatches(ms);
    ExampleKeep();
    ExampleBlocks();
    CollapsedUnique(init, [Block(0, 0, 2), Block(3, 2, 2)]);
    assert |ExampleA| == 5 && |ExampleB| == 4;
    ExampleSnoc(blocks);
  }

  /** The blocks of the example, put together with the dummy. */
  lemma {:induction false} ExampleSnoc(blocks: seq<Block>)
    requires |blocks| > 0 && blocks[..|blocks| - 1] == [Block(0, 0, 2), Block(3, 2, 2)]
    requires blocks[|blocks| - 1] == Block(5, 4, 0)
    ensures blocks == [Block(0, 0, 2), Block(3, 2, 2), Block(5, 4, 0)]
  {
    assert blocks == blocks[..|blocks| - 1] + [blocks[|blocks| - 1]];
  }

  /** The last anchor of a threaded list closes it, after the threaded
      list of the earlier anchors and the recursion into the gap between. */
  lemma ThreadedLast<T>(a: seq<T>, b: seq<T>, alo: nat, blo: nat, d: nat, anchors: seq<Pair>, q: seq<Pair>,
                        init: seq<Pair>, lo: int, bl: int, hi: nat, bh: nat, e: int) returns (k: nat)
    requires |anchors| > 0 && anchors[..|anchors| - 1] == init && anchors[|anchors| - 1] == (hi, bh)
    requires LastAnchor(init, alo, blo) == (lo - 1, bl - 1) && e == d - 1
    requires Threaded(a, b, alo, blo, d, anchors, q)
    ensures k < |q| && q[|q| - 1] == (hi, bh)
    ensures Threaded(a, b, alo, blo, d, init, q[..k])
    ensures Recursed(a, b, lo, bl, hi, bh, e, q[k..|q| - 1])
  {
    k :| 0 <= k < |q| && Threaded(a, b, alo, blo, d, init, q[..k]) &&
         Recursed(a, b, lo, bl, hi, bh, e, q[k..|q| - 1]);
  }

  /** A list with nothing after position `k` is its first `k` elements. */
  lemma NothingAfter(q: seq<Pair>, k: nat)
    requires k <= |q| && q[k..] == []
    ensures q[..k] == q
  {
  }

  /** A list cut before its last element and at `k` is its pieces put
      back together. */
  lemma Reassemble(q: seq<Pair>, k: nat, front: seq<Pair>, middle: seq<Pair>, last: Pair)
    requires k < |q| && q[..k] == front && q[k..|q| - 1] == middle && q[|q| - 1] == last
    ensures q == front + middle + [last]
  {
    assert q == q[..k] + q[k..|q| - 1] + [q[|q| - 1]];
  }

  /** The filter keeps every pair whose lines are equal. */
  lemma {:induction false} KeepAll(a: seq<string>, b: seq<string>, ms: seq<Pair>)
    requires PairsIn(ms, 0, |a|, 0, |b|) && PairsMatch(a, b, ms)
    ensures KeepExact(a, b, ms) == ms
    decreases |ms|
  {
    if |ms| > 0 {
      KeepAll(a, b, ms[..|ms| - 1]);
      assert ms == ms[..|ms| - 1] + [ms[|ms| - 1]];
    }
  }

  /** A list cut before its last element, put back together. */
  lemma Reassemble2<X>(q: seq<X>, init: seq<X>, last: X)
    requires |q| > 0 && q[..|q| - 1] == init && q[|q| - 1] == last
    ensures q == init + [last]
  {
    assert q == q[..|q| - 1] + [q[|q| - 1]];
  }

  /** `PatienceSequenceMatcher_py`: the two line lists and the cached
      matching blocks (`self.matching_blocks`). */
  class PatienceMatcher {
    const a: seq<string>
    const b: seq<string>
    var matchingBlocks: Option<seq<Block>>

    /** What a cached result satisfies. */
    ghost predicate Valid()
      reads this
    {
      matchingBlocks.Some? ==>
        && WellFormedBlocks(matchingBlocks.value, |a|, |b|)
        && (forall k :: 0 <= k < |matchingBlocks.value| ==> BlockMatches(a, b, matchingBlocks.value[k]))
        && PatienceBlocks(a, b, matchingBlocks.value)
    }

    constructor (a: seq<string>, b: seq<string>)
      ensures this.a == a && this.b == b && matchingBlocks == None
      ensures Valid()
    {
      this.a := a;
      this.b := b;
      matchingBlocks := None;
    }

    /** `get_matching_blocks`: the first call computes and caches the
        blocks, later calls return the cached list. */
    method GetMatchingBlocks() returns (blocks: seq<Block>)
      requires Valid()
      modifies this
      ensures Valid() && matchingBlocks == Some(blocks)
      ensures old(matchingBlocks).Some? ==> blocks == old(matchingBlocks).value
      ensures WellFormedBlocks(blocks, |a|, |b|)
      ensures forall k :: 0 <= k < |blocks| ==> BlockMatches(a, b, blocks[k])
      ensures PatienceBlocks(a, b, blocks)
    {
      if matchingBlocks.Some? {
        return matchingBlocks.value;
      }
      blocks := MatchingBlocks(a, b);
      matchingBlocks := Some(blocks);
    }
  }
}
