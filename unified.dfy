/** The output side of the patience differ front ends: the binary-file
    heuristic `istext`, the `@@` range format `_format_range_unified`, and
    `unified_diff` run over hunk groups that the (library) sequence matcher
    hands it. The two front ends differ only in the function context of a
    hunk header: one right-strips the context line, the other does not. */
module Unified {
  import opened Common
  import Text

  // ---------------------------------------------------------------------
  // istext
  // ---------------------------------------------------------------------

  type Byte = b: int | 0 <= b < 256

  /** `_text_characters`: the printable range 32..126 and the controls
      `\n`, `\r`, `\t`, `\f`, `\b`. */
  predicate IsTextByte(c: Byte)
  {
    32 <= c < 127 || c == 10 || c == 13 || c == 9 || c == 12 || c == 8
  }

  /** `block.translate(None, _text_characters)`: the block with every text
      byte deleted, the other bytes kept in order. */
  function NonText(block: seq<Byte>): (r: seq<Byte>)
    ensures |r| <= |block|
    ensures forall i :: 0 <= i < |r| ==> !IsTextByte(r[i]) && r[i] in block
  {
    if |block| == 0 then []
    else
      var c := block[|block| - 1];
      NonText(block[..|block| - 1]) + (if IsTextByte(c) then [] else [c])
  }

  /** `istext`: a block holding a NUL byte is binary, an empty block is
      text, and otherwise the block is text when at most 30% of its bytes
      are not text bytes. The float division `len(nontext) / len(block) <=
      0.30` is taken as the exact ratio. */
  function IsText(block: seq<Byte>): (r: bool)
    ensures 0 in block ==> !r
    ensures |block| == 0 ==> r
  {
    if 0 in block then false
    else if |block| == 0 then true
    else 10 * |NonText(block)| <= 3 * |block|
  }

  /** Deleting text bytes distributes over concatenation. */
  lemma {:induction false} NonTextAppend(x: seq<Byte>, y: seq<Byte>)
    ensures NonText(x + y) == NonText(x) + NonText(y)
    decreases |y|
  {
    if |y| == 0 {
      assert x + y == x;
    } else {
      var c := y[|y| - 1];
      assert (x + y)[..|x + y| - 1] == x + y[..|y| - 1];
      NonTextAppend(x, y[..|y| - 1]);
      Associate(NonText(x), NonText(y[..|y| - 1]), if IsTextByte(c) then [] else [c]);
    }
  }

  /** Every non-text byte survives the deletion: the non-text bytes are
      exactly the bytes of the block that are not text bytes. */
  lemma {:induction false} NonTextKeeps(block: seq<Byte>, i: nat)
    requires i < |block| && !IsTextByte(block[i])
    ensures block[i] in NonText(block)
    decreases |block|
  {
    if i < |block| - 1 {
      NonTextKeeps(block[..|block| - 1], i);
      assert block[..|block| - 1][i] == block[i];
    }
  }

  /** A block made of text bytes only has nothing left after the deletion. */
  lemma {:induction false} NonTextOfText(block: seq<Byte>)
    requires forall i :: 0 <= i < |block| ==> IsTextByte(block[i])
    ensures NonText(block) == []
    decreases |block|
  {
    if |block| > 0 {
      NonTextOfText(block[..|block| - 1]);
    }
  }

  /** A block made of non-text bytes only is kept whole. */
  lemma {:induction false} NonTextOfBinary(block: seq<Byte>)
    requires forall i :: 0 <= i < |block| ==> !IsTextByte(block[i])
    ensures NonText(block) == block
    decreases |block|
  {
    if |block| > 0 {
      NonTextOfBinary(block[..|block| - 1]);
    }
  }

  /** A block of printable text and line controls is text. */
  lemma {:induction false} PlainBlockIsText(block: seq<Byte>)
    requires forall i :: 0 <= i < |block| ==> IsTextByte(block[i])
    ensures IsText(block)
  {
    NonTextOfText(block);
  }

  /** A non-empty block of non-text bytes is binary, NUL or not. */
  lemma {:induction false} BinaryBlockIsNotText(block: seq<Byte>)
    requires |block| > 0 && forall i :: 0 <= i < |block| ==> !IsTextByte(block[i])
    ensures !IsText(block)
  {
    NonTextOfBinary(block);
  }

  /** Two text blocks concatenate into a text block: the share of non-text
      bytes of the whole lies between the shares of its parts. */
  lemma {:induction false} TextConcat(x: seq<Byte>, y: seq<Byte>)
    requires IsText(x) && IsText(y)
    ensures IsText(x + y)
  {
    NonTextAppend(x, y);
  }

  // ---------------------------------------------------------------------
  // Decimal numbers
  // ---------------------------------------------------------------------

  predicate IsDigit(c: char)
  {
    '0' <= c <= '9'
  }

  predicate AllDigits(s: string)
  {
    forall i :: 0 <= i < |s| ==> IsDigit(s[i])
  }

  /** `'{}'.format(n)` for `n >= 0`: decimal digits, no leading zero. */
  function NatStr(n: nat): (s: string)
    ensures |s| > 0
    decreases n
  {
    if n < 10 then [(48 + n) as char] else NatStr(n / 10) + [(48 + n % 10) as char]
  }

  /** `'{}'.format(i)` for any integer: a minus sign before negatives. */
  function IntStr(i: int): (s: string)
    ensures |s| > 0
  {
    if i < 0 then "-" + NatStr(-i) else NatStr(i)
  }

  /** A formatted integer holds no comma. */
  lemma {:induction false} IntStrNoComma(i: int)
    ensures forall t :: 0 <= t < |IntStr(i)| ==> IntStr(i)[t] != ','
  {
    var m := if i < 0 then -i else i;
    NatStrValue(m);
    assert forall t :: 0 <= t < |NatStr(m)| ==> IsDigit(NatStr(m)[t]);
  }

  /** The value of a string of decimal digits. */
  function DigitsValue(s: string): nat
    requires AllDigits(s)
  {
    if |s| == 0 then 0 else 10 * DigitsValue(s[..|s| - 1]) + (s[|s| - 1] as int - 48)
  }

  /** Reading a decimal back: a non-empty run of digits, after an optional
      minus sign. */
  function ParseInt(s: string): Option<int>
  {
    if |s| > 0 && s[0] == '-' then
      if |s| > 1 && AllDigits(s[1..]) then Some(-(DigitsValue(s[1..]) as int)) else None
    else if |s| > 0 && AllDigits(s) then Some(DigitsValue(s))
    else None
  }

  lemma {:induction false} NatStrValue(n: nat)
    ensures AllDigits(NatStr(n)) && DigitsValue(NatStr(n)) == n
    decreases n
  {
    if n >= 10 {
      NatStrValue(n / 10);
      var s := NatStr(n);
      assert s == NatStr(n / 10) + [(48 + n % 10) as char];
      assert s[..|s| - 1] == NatStr(n / 10);
    }
  }

  /** Formatting an integer and reading it back gives the integer. */
  lemma {:induction false} IntStrRoundTrip(i: int)
    ensures ParseInt(IntStr(i)) == Some(i)
  {
    if i < 0 {
      NatStrValue(-i);
      assert IntStr(i)[1..] == NatStr(-i);
    } else {
      NatStrValue(i);
    }
  }

  // ---------------------------------------------------------------------
  // _format_range_unified
  // ---------------------------------------------------------------------

  /** `_format_range_unified(start, stop)`: the 1-based first line and the
      length; a one-line range drops the length, and an empty range names
      the line just before it. */
  function FormatRangeUnified(start: int, stop: int): string
  {
    var beginning := start + 1;
    var length := stop - start;
    if length == 1 then IntStr(beginning)
    else if length == 0 then IntStr(beginning - 1) + "," + IntStr(length)
    else IntStr(beginning) + "," + IntStr(length)
  }

  /** A range is written as one number exactly when it holds one line;
      every other range carries a comma. */
  lemma {:induction false} FormatRangeSingleLine(start: int, stop: int)
    ensures var r := FormatRangeUnified(start, stop);
            stop - start == 1 <==> forall t :: 0 <= t < |r| ==> r[t] != ','
  {
    var r := FormatRangeUnified(start, stop);
    if stop - start == 1 {
      IntStrNoComma(start + 1);
    } else if stop == start {
      assert r == IntStr(start) + "," + IntStr(0);
      assert r[|IntStr(start)|] == ',';
    } else {
      assert r == IntStr(start + 1) + "," + IntStr(stop - start);
      assert r[|IntStr(start + 1)|] == ',';
    }
  }

  /** The index of the first comma, `|s|` when there is none. */
  function CommaAt(s: string): (r: nat)
    ensures r <= |s| && (r < |s| ==> s[r] == ',')
    ensures forall t :: 0 <= t < r ==> s[t] != ','
  {
    if |s| == 0 || s[0] == ',' then 0 else 1 + CommaAt(s[1..])
  }

  /** How a reader of unified diffs takes a range back: `b` alone is the
      one line `b`, `b,0` is the empty range after line `b`, and `b,l` is
      `l` lines from line `b`; the result is the half-open 0-based range
      `(start, stop)`. */
  function ParseRange(s: string): Option<(int, int)>
  {
    var k := CommaAt(s);
    if k == |s| then
      match ParseInt(s)
      case Some(b) => Some((b - 1, b))
      case None => None
    else
      match (ParseInt(s[..k]), ParseInt(s[k + 1..]))
      case (Some(b), Some(l)) => if l == 0 then Some((b, b)) else Some((b - 1, b - 1 + l))
      case _ => None
  }

  /** The comma between two formatted numbers is the first one. */
  lemma {:induction false} SplitAtComma(x: string, y: string)
    requires forall t :: 0 <= t < |x| ==> x[t] != ','
    ensures CommaAt(x + "," + y) == |x|
    ensures (x + "," + y)[..|x|] == x && (x + "," + y)[|x| + 1..] == y
  {
    var s := x + "," + y;
    assert s[|x|] == ',';
  }

  /** Every range reads back as itself. */
  lemma {:induction false} FormatRangeRoundTrip(start: int, stop: int)
    ensures ParseRange(FormatRangeUnified(start, stop)) == Some((start, stop))
  {
    if stop - start == 1 {
      SingleRoundTrip(start, stop);
    } else {
      PairRoundTrip(start, stop);
    }
  }

  /** A one-line range `b` reads back as the line `b`. */
  lemma {:induction false} SingleRoundTrip(start: int, stop: int)
    requires stop - start == 1
    ensures ParseRange(FormatRangeUnified(start, stop)) == Some((start, stop))
  {
    var r := IntStr(start + 1);
    assert FormatRangeUnified(start, stop) == r;
    IntStrNoComma(start + 1);
    IntStrRoundTrip(start + 1);
    assert CommaAt(r) == |r|;
  }

  /** Any other range `b,l` reads back as the empty range after line `b`
      when `l` is 0, and as `l` lines from line `b` otherwise. */
  lemma {:induction false} PairRoundTrip(start: int, stop: int)
    requires stop - start != 1
    ensures ParseRange(FormatRangeUnified(start, stop)) == Some((start, stop))
  {
    var x := if stop == start then start else start + 1;
    var y := stop - start;
    var s := IntStr(x) + "," + IntStr(y);
    assert FormatRangeUnified(start, stop) == s;
    IntStrNoComma(x);
    SplitAtComma(IntStr(x), IntStr(y));
    IntStrRoundTrip(x);
    IntStrRoundTrip(y);
    assert CommaAt(s) < |s|;
    assert ParseInt(s[..CommaAt(s)]) == Some(x);
    assert ParseInt(s[CommaAt(s) + 1..]) == Some(y);
  }

  // ---------------------------------------------------------------------
  // Hunk bodies
  // ---------------------------------------------------------------------

  /** `prefix + line` for each line of `lines[lo:hi]`, in order. */
  function Prefixed(c: char, lines: seq<string>, lo: nat, hi: nat): (r: seq<string>)
    requires lo <= hi <= |lines|
    ensures |r| == hi - lo
    decreases hi
  {
    if lo == hi then [] else Prefixed(c, lines, lo, hi - 1) + [[c] + lines[hi - 1]]
  }

  predicate OpInRange(a: seq<string>, b: seq<string>, op: Opcode)
  {
    0 <= op.i1 <= op.i2 <= |a| && 0 <= op.j1 <= op.j2 <= |b|
  }

  predicate OpsInRange(a: seq<string>, b: seq<string>, ops: seq<Opcode>)
  {
    forall k :: 0 <= k < |ops| ==> OpInRange(a, b, ops[k])
  }

  /** The lines of one opcode: `' '` before the shared lines of `equal`,
      `'-'` before the old lines of `replace` and `delete`, then `'+'`
      before the new lines of `replace` and `insert`. */
  function OpLines(a: seq<string>, b: seq<string>, op: Opcode): seq<string>
    requires OpInRange(a, b, op)
  {
    match op.tag
    case Equal => Prefixed(' ', a, op.i1, op.i2)
    case Replace => Prefixed('-', a, op.i1, op.i2) + Prefixed('+', b, op.j1, op.j2)
    case Delete => Prefixed('-', a, op.i1, op.i2)
    case Insert => Prefixed('+', b, op.j1, op.j2)
  }

  /** The lines of the first `k` opcodes of a group, in order; with
      `k == |group|`, the body of its hunk. */
  function GroupLines(a: seq<string>, b: seq<string>, group: seq<Opcode>, k: nat): seq<string>
    requires OpsInRange(a, b, group) && k <= |group|
  {
    if k == 0 then []
    else GroupLines(a, b, group, k - 1) + OpLines(a, b, group[k - 1])
  }

  /** The inner `for` loop over the opcodes of a group. */
  method EmitGroup(a: seq<string>, b: seq<string>, group: seq<Opcode>) returns (lines: seq<string>)
    requires OpsInRange(a, b, group)
    ensures lines == GroupLines(a, b, group, |group|)
  {
    lines := [];
    for k := 0 to |group|
      invariant lines == GroupLines(a, b, group, k)
    {
      var opLines := EmitOp(a, b, group[k]);
      lines := lines + opLines;
    }
  }

  /** The lines of one opcode, branch by branch: an `equal` opcode is done
      after its shared lines; otherwise the old lines come first, then the
      new ones. */
  method EmitOp(a: seq<string>, b: seq<string>, op: Opcode) returns (lines: seq<string>)
    requires OpInRange(a, b, op)
    ensures lines == OpLines(a, b, op)
  {
    if op.tag == Equal {
      return Prefixed(' ', a, op.i1, op.i2);
    }
    lines := [];
    if op.tag == Replace || op.tag == Delete {
      lines := Prefixed('-', a, op.i1, op.i2);
    }
    if op.tag == Replace || op.tag == Insert {
      EmptyAppend(Prefixed('+', b, op.j1, op.j2));
      lines := lines + Prefixed('+', b, op.j1, op.j2);
    }
  }

  // ---------------------------------------------------------------------
  // Reading a hunk body back
  // ---------------------------------------------------------------------

  /** The old file's lines of a hunk body: the `' '` and `'-'` lines
      without their first character. */
  function OldSide(lines: seq<string>): seq<string>
  {
    if |lines| == 0 then []
    else
      var l := lines[|lines| - 1];
      OldSide(lines[..|lines| - 1]) + (if |l| > 0 && (l[0] == ' ' || l[0] == '-') then [l[1..]] else [])
  }

  /** The new file's lines of a hunk body: the `' '` and `'+'` lines
      without their first character. */
  function NewSide(lines: seq<string>): seq<string>
  {
    if |lines| == 0 then []
    else
      var l := lines[|lines| - 1];
      NewSide(lines[..|lines| - 1]) + (if |l| > 0 && (l[0] == ' ' || l[0] == '+') then [l[1..]] else [])
  }

  lemma {:induction false} SidesAppend(x: seq<string>, y: seq<string>)
    ensures OldSide(x + y) == OldSide(x) + OldSide(y)
    ensures NewSide(x + y) == NewSide(x) + NewSide(y)
    decreases |y|
  {
    if |y| == 0 {
      assert x + y == x;
    } else {
      var l := y[|y| - 1];
      assert (x + y)[..|x + y| - 1] == x + y[..|y| - 1];
      SidesAppend(x, y[..|y| - 1]);
      Associate(OldSide(x), OldSide(y[..|y| - 1]), if |l| > 0 && (l[0] == ' ' || l[0] == '-') then [l[1..]] else []);
      Associate(NewSide(x), NewSide(y[..|y| - 1]), if |l| > 0 && (l[0] == ' ' || l[0] == '+') then [l[1..]] else []);
    }
  }

  /** One line reads back as itself without its prefix on the sides its
      prefix names. */
  lemma {:induction false} SidesOne(c: char, line: string)
    ensures OldSide([[c] + line]) == if c == ' ' || c == '-' then [line] else []
    ensures NewSide([[c] + line]) == if c == ' ' || c == '+' then [line] else []
  {
    var l: string := [c] + line;
    var single: seq<string> := [l];
    assert single[..0] == [];
    assert l[0] == c && l[1..] == line;
  }

  /** One more prefixed line extends what a body reads back as on the
      sides its prefix names, and leaves the other side empty. */
  lemma {:induction false} SidesStep(c: char, init: seq<string>, line: string, part: seq<string>)
    requires OldSide(init) == if c == ' ' || c == '-' then part else []
    requires NewSide(init) == if c == ' ' || c == '+' then part else []
    ensures OldSide(init + [[c] + line]) == if c == ' ' || c == '-' then part + [line] else []
    ensures NewSide(init + [[c] + line]) == if c == ' ' || c == '+' then part + [line] else []
  {
    SidesAppend(init, [[c] + line]);
    SidesOne(c, line);
    EmptyAppend<string>([]);
  }

  /** Prefixed lines read back as the lines on the sides their prefix
      names, and as nothing on the other side. */
  lemma {:induction false} PrefixedSides(c: char, lines: seq<string>, lo: nat, hi: nat)
    requires lo <= hi <= |lines|
    ensures OldSide(Prefixed(c, lines, lo, hi)) == if c == ' ' || c == '-' then lines[lo..hi] else []
    ensures NewSide(Prefixed(c, lines, lo, hi)) == if c == ' ' || c == '+' then lines[lo..hi] else []
    decreases hi
  {
    if lo == hi {
      assert Prefixed(c, lines, lo, hi) == [];
    } else {
      PrefixedSides(c, lines, lo, hi - 1);
      SidesStep(c, Prefixed(c, lines, lo, hi - 1), lines[hi - 1], lines[lo..hi - 1]);
      SliceLast(lines, lo, hi);
    }
  }

  /** What `get_grouped_opcodes` guarantees of one opcode: `equal` joins
      equal lines, `delete` has no new lines and `insert` no old ones. */
  predicate ValidOp(a: seq<string>, b: seq<string>, op: Opcode)
  {
    && OpInRange(a, b, op)
    && (op.tag == Equal ==> a[op.i1..op.i2] == b[op.j1..op.j2])
    && (op.tag == Delete ==> op.j1 == op.j2)
    && (op.tag == Insert ==> op.i1 == op.i2)
  }

  /** A group as `get_grouped_opcodes` yields it: non-empty, valid
      opcodes, each starting where the previous one ends. */
  predicate ValidGroup(a: seq<string>, b: seq<string>, group: seq<Opcode>)
  {
    && |group| > 0
    && (forall k :: 0 <= k < |group| ==> ValidOp(a, b, group[k]))
    && (forall k :: 0 < k < |group| ==> group[k - 1].i2 == group[k].i1 && group[k - 1].j2 == group[k].j1)
  }

  /** The lines of one valid opcode read back as its old and new lines. */
  lemma {:induction false} OpSides(a: seq<string>, b: seq<string>, op: Opcode)
    requires ValidOp(a, b, op)
    ensures OldSide(OpLines(a, b, op)) == a[op.i1..op.i2]
    ensures NewSide(OpLines(a, b, op)) == b[op.j1..op.j2]
  {
    PrefixedSides(' ', a, op.i1, op.i2);
    PrefixedSides('-', a, op.i1, op.i2);
    PrefixedSides('+', b, op.j1, op.j2);
    match op.tag
    case Equal =>
    case Replace =>
      SidesAppend(Prefixed('-', a, op.i1, op.i2), Prefixed('+', b, op.j1, op.j2));
      assert a[op.i1..op.i2] + [] == a[op.i1..op.i2];
      EmptyAppend(b[op.j1..op.j2]);
    case Delete =>
      assert b[op.j1..op.j2] == [];
    case Insert =>
      assert a[op.i1..op.i2] == [];
  }

  /** The first `k` opcodes of a valid group read back as the old lines
      `a[first[1]:group[k-1][2]]` and the new lines `b[first[3]:group[k-1][4]]`. */
  lemma {:induction false} GroupPrefixSides(a: seq<string>, b: seq<string>, group: seq<Opcode>, k: nat)
    requires ValidGroup(a, b, group) && 0 < k <= |group|
    ensures group[0].i1 <= group[k - 1].i2 && OldSide(GroupLines(a, b, group, k)) == a[group[0].i1..group[k - 1].i2]
    ensures group[0].j1 <= group[k - 1].j2 && NewSide(GroupLines(a, b, group, k)) == b[group[0].j1..group[k - 1].j2]
    decreases k
  {
    var last := group[k - 1];
    OpSides(a, b, last);
    if k == 1 {
      SidesAppend([], OpLines(a, b, last));
      EmptyAppend(OpLines(a, b, last));
    } else {
      GroupPrefixSides(a, b, group, k - 1);
      SidesAppend(GroupLines(a, b, group, k - 1), OpLines(a, b, last));
      assert group[k - 2].i2 == last.i1 && group[k - 2].j2 == last.j1;
      SliceJoin(a, group[0].i1, last.i1, last.i2);
      SliceJoin(b, group[0].j1, last.j1, last.j2);
    }
  }

  /** A hunk body reads back as the old lines `a[first[1]:last[2]]` and the
      new lines `b[first[3]:last[4]]`: the ranges of its `@@` line. */
  lemma {:induction false} GroupSides(a: seq<string>, b: seq<string>, group: seq<Opcode>)
    requires ValidGroup(a, b, group)
    ensures group[0].i1 <= group[|group| - 1].i2 && OldSide(GroupLines(a, b, group, |group|)) == a[group[0].i1..group[|group| - 1].i2]
    ensures group[0].j1 <= group[|group| - 1].j2 && NewSide(GroupLines(a, b, group, |group|)) == b[group[0].j1..group[|group| - 1].j2]
  {
    GroupPrefixSides(a, b, group, |group|);
  }

  // ---------------------------------------------------------------------
  // Function context
  // ---------------------------------------------------------------------

  predicate Sorted(s: seq<nat>)
  {
    forall i, j :: 0 <= i < j < |s| ==> s[i] < s[j]
  }

  /** `function_lines`: the indices of the old lines the function
      expression matches, in increasing order, each one exactly once. */
  function FunctionLines(a: seq<string>, isFunction: string -> bool): (fl: seq<nat>)
    ensures Sorted(fl)
    ensures forall i :: 0 <= i < |fl| ==> fl[i] < |a| && isFunction(a[fl[i]])
  {
    if |a| == 0 then []
    else
      var init := FunctionLines(a[..|a| - 1], isFunction);
      assert forall i :: 0 <= i < |init| ==> a[..|a| - 1][init[i]] == a[init[i]];
      init + (if isFunction(a[|a| - 1]) then [|a| - 1] else [])
  }

  /** Every line the function expression matches is listed. */
  lemma {:induction false} FunctionLinesComplete(a: seq<string>, isFunction: string -> bool, k: nat)
    requires k < |a| && isFunction(a[k])
    ensures exists i :: 0 <= i < |FunctionLines(a, isFunction)| && FunctionLines(a, isFunction)[i] == k
    decreases |a|
  {
    var fl := FunctionLines(a, isFunction);
    var init := FunctionLines(a[..|a| - 1], isFunction);
    if k < |a| - 1 {
      assert a[..|a| - 1][k] == a[k];
      FunctionLinesComplete(a[..|a| - 1], isFunction, k);
      var i :| 0 <= i < |init| && init[i] == k;
      assert fl[i] == k;
    } else {
      assert fl[|fl| - 1] == k;
    }
  }

  /** How many function lines lie before `limit`. */
  function Below(fl: seq<nat>, limit: int): (r: nat)
    ensures r <= |fl|
  {
    if |fl| == 0 then 0 else Below(fl[..|fl| - 1], limit) + (if fl[|fl| - 1] < limit then 1 else 0)
  }

  /** In a sorted list the entries before `limit` are a prefix. */
  lemma {:induction false} BelowPrefix(fl: seq<nat>, limit: int)
    requires Sorted(fl)
    ensures forall i :: 0 <= i < Below(fl, limit) ==> fl[i] < limit
    ensures forall i :: Below(fl, limit) <= i < |fl| ==> limit <= fl[i]
    decreases |fl|
  {
    if |fl| > 0 {
      var init := fl[..|fl| - 1];
      assert Sorted(init);
      BelowPrefix(init, limit);
      forall i | 0 <= i < Below(init, limit)
        ensures fl[i] < limit
      {
        assert init[i] == fl[i];
      }
      forall i | Below(init, limit) <= i < |init|
        ensures limit <= fl[i]
      {
        assert init[i] == fl[i];
      }
    }
  }

  /** A later limit never has fewer function lines before it. */
  lemma {:induction false} BelowMonotone(fl: seq<nat>, l1: int, l2: int)
    requires l1 <= l2
    ensures Below(fl, l1) <= Below(fl, l2)
    decreases |fl|
  {
    if |fl| > 0 {
      BelowMonotone(fl[..|fl| - 1], l1, l2);
    }
  }

  function Max(x: nat, y: nat): nat
  {
    if x <= y then y else x
  }

  /** The `while` loop moving `current_function` forward past the function
      lines before `limit`. `current_function` never moves back: it ends at the
      number of function lines before `limit`, or where it was if that is
      further. */
  method AdvanceFunction(fl: seq<nat>, current: nat, limit: int) returns (next: nat)
    requires Sorted(fl) && current <= |fl|
    ensures next == Max(current, Below(fl, limit))
  {
    BelowPrefix(fl, limit);
    next := current;
    while next < |fl| && fl[next] < limit
      invariant current <= next <= |fl|
      invariant next <= Max(current, Below(fl, limit))
    {
      next := next + 1;
    }
  }

  /** The `if function_lines:` block: `current_function` moves forward past the
      function lines before `limit` and the context names the line before
      it; with no function lines at all there is no context. */
  method FunctionContext(a: seq<string>, fl: seq<nat>, current: nat, limit: int, flavour: Flavour)
    returns (next: nat, context: string)
    requires FunctionIndexes(a, fl) && current <= |fl|
    ensures next == Max(current, Below(fl, limit)) && next <= |fl|
    ensures context == ContextText(a, fl, next, flavour)
  {
    next, context := current, "";
    if |fl| > 0 {
      next := AdvanceFunction(fl, current, limit);
      context := ContextText(a, fl, next, flavour);
    }
  }

  /** The two front ends: `klonpatiencediff` right-strips the context line,
      `patiencediff` shows it as it is. */
  datatype Flavour = Klon | Patience

  /** The text after `@@` of a hunk header: a space and the function line
      `current` points just past, or nothing. */
  function ContextText(a: seq<string>, fl: seq<nat>, current: nat, flavour: Flavour): string
    requires current <= |fl| && forall i :: 0 <= i < |fl| ==> fl[i] < |a|
  {
    if current == 0 then ""
    else
      var line := a[fl[current - 1]];
      " " + (if flavour == Klon then Text.RStrip(line) else line)
  }

  /** The function line before `limit` that the context names is the last
      line the function expression matches before `limit`; there is none
      exactly when no line before `limit` matches. */
  lemma {:induction false} ContextIsLastFunctionLine(a: seq<string>, isFunction: string -> bool, limit: int)
    ensures var fl := FunctionLines(a, isFunction);
            var p := Below(fl, limit);
            && (p == 0 <==> forall k :: 0 <= k < |a| && k < limit ==> !isFunction(a[k]))
            && (p > 0 ==> && fl[p - 1] < limit && isFunction(a[fl[p - 1]])
                          && forall k :: fl[p - 1] < k < |a| && k < limit ==> !isFunction(a[k]))
  {
    var fl := FunctionLines(a, isFunction);
    var p := Below(fl, limit);
    BelowPrefix(fl, limit);
    forall k | 0 <= k < |a| && k < limit && isFunction(a[k])
      ensures 0 < p && k <= fl[p - 1]
    {
      FunctionLinesComplete(a, isFunction, k);
      var i :| 0 <= i < |fl| && fl[i] == k;
      assert i < p;
      assert i == p - 1 || fl[i] < fl[p - 1];
    }
    if p > 0 {
      assert fl[p - 1] < limit && fl[p - 1] < |a| && isFunction(a[fl[p - 1]]);
    }
  }

  // ---------------------------------------------------------------------
  // unified_diff
  // ---------------------------------------------------------------------

  /** `'\t' + date` when a date is given. */
  function DateSuffix(date: string): string
  {
    if |date| > 0 then "\t" + date else ""
  }

  /** The `---` / `+++` header pair. */
  function HeaderLines(fromfile: string, tofile: string, fromfiledate: string, tofiledate: string,
                       lineterm: string): seq<string>
  {
    ["--- " + fromfile + DateSuffix(fromfiledate) + lineterm, "+++ " + tofile + DateSuffix(tofiledate) + lineterm]
  }

  /** The `@@ -r1 +r2 @@` line of a group: the old range runs from the
      first opcode's `i1` to the last one's `i2`, the new range from the
      first `j1` to the last `j2`. */
  function HunkHeader(group: seq<Opcode>, context: string, lineterm: string): string
    requires |group| > 0
  {
    var first, last := group[0], group[|group| - 1];
    "@@ -" + FormatRangeUnified(first.i1, last.i2) + " +" + FormatRangeUnified(first.j1, last.j2) + " @@" + context + lineterm
  }

  /** The `@@` line of a hunk carries two ranges that read back as the old
      and the new range of its group, followed by the context. */
  lemma {:induction false} HunkHeaderRanges(group: seq<Opcode>, context: string, lineterm: string)
    requires |group| > 0
    ensures exists r1, r2 ::
              && HunkHeader(group, context, lineterm) == "@@ -" + r1 + " +" + r2 + " @@" + context + lineterm
              && ParseRange(r1) == Some((group[0].i1, group[|group| - 1].i2))
              && ParseRange(r2) == Some((group[0].j1, group[|group| - 1].j2))
  {
    var first, last := group[0], group[|group| - 1];
    FormatRangeRoundTrip(first.i1, last.i2);
    FormatRangeRoundTrip(first.j1, last.j2);
    var r1, r2 := FormatRangeUnified(first.i1, last.i2), FormatRangeUnified(first.j1, last.j2);
    assert HunkHeader(group, context, lineterm) == "@@ -" + r1 + " +" + r2 + " @@" + context + lineterm;
  }

  /** A hunk: its `@@` line, then its body. */
  function HunkLines(a: seq<string>, b: seq<string>, group: seq<Opcode>, context: string, lineterm: string): seq<string>
    requires |group| > 0 && OpsInRange(a, b, group)
  {
    [HunkHeader(group, context, lineterm)] + GroupLines(a, b, group, |group|)
  }

  /** The groups the sequence matcher yields, as far as emitting them
      relies on: non-empty, with opcodes inside both files. */
  predicate GroupsInRange(a: seq<string>, b: seq<string>, groups: seq<seq<Opcode>>)
  {
    forall g :: 0 <= g < |groups| ==> |groups[g]| > 0 && OpsInRange(a, b, groups[g])
  }

  /** The function lines as `unified_diff` computes them. */
  predicate FunctionIndexes(a: seq<string>, fl: seq<nat>)
  {
    Sorted(fl) && forall i :: 0 <= i < |fl| ==> fl[i] < |a|
  }

  /** What stays fixed while `unified_diff` writes its hunks: both files,
      the function lines of the old one, the groups, the context size `n`,
      the line terminator and the front end. */
  datatype Env = Env(a: seq<string>, b: seq<string>, fl: seq<nat>, groups: seq<seq<Opcode>>,
                     n: nat, lineterm: string, flavour: Flavour)

  predicate ValidEnv(e: Env)
  {
    GroupsInRange(e.a, e.b, e.groups) && FunctionIndexes(e.a, e.fl)
  }

  /** `current_function` once group `g` moves it on from `current`: to the
      number of function lines before the group's first old line plus the
      context size `n`, never back. */
  function Next(e: Env, g: nat, current: nat): (r: nat)
    requires ValidEnv(e) && g < |e.groups| && current <= |e.fl|
    ensures r <= |e.fl|
  {
    Max(current, Below(e.fl, e.groups[g][0].i1 + e.n))
  }

  /** `current_function` after the `@@` lines of the first `k` groups. */
  function Pointer(e: Env, k: nat): (r: nat)
    requires ValidEnv(e) && k <= |e.groups|
    ensures r <= |e.fl|
    decreases k
  {
    if k == 0 then 0 else Next(e, k - 1, Pointer(e, k - 1))
  }

  /** The hunk of group `g` with the context `current_function` `p` names. */
  function Hunk(e: Env, g: nat, p: nat): seq<string>
    requires ValidEnv(e) && g < |e.groups| && p <= |e.fl|
  {
    HunkLines(e.a, e.b, e.groups[g], ContextText(e.a, e.fl, p, e.flavour), e.lineterm)
  }

  /** The values of `current_function` after each of the first `k` groups, in order. */
  function Pointers(e: Env, k: nat): (ps: seq<nat>)
    requires ValidEnv(e) && k <= |e.groups|
    ensures |ps| == k
    decreases k
  {
    if k == 0 then [] else Pointers(e, k - 1) + [Pointer(e, k)]
  }

  /** Pointer lists name positions in the function lines. */
  predicate PointersIn(e: Env, ps: seq<nat>)
  {
    |ps| <= |e.groups| && forall i :: 0 <= i < |ps| ==> ps[i] <= |e.fl|
  }

  lemma {:induction false} PointersInRange(e: Env, k: nat)
    requires ValidEnv(e) && k <= |e.groups|
    ensures PointersIn(e, Pointers(e, k))
    decreases k
  {
    if k > 0 {
      PointersInRange(e, k - 1);
    }
  }

  /** The hunks of the first `|ps|` groups, hunk `g` with the context the
      pointer `ps[g]` names. */
  function Render(e: Env, ps: seq<nat>): seq<string>
    requires ValidEnv(e) && PointersIn(e, ps)
    decreases |ps|
  {
    if |ps| == 0 then [] else Render(e, ps[..|ps| - 1]) + Hunk(e, |ps| - 1, ps[|ps| - 1])
  }

  /** All the output of `unified_diff`: nothing without groups, otherwise
      the header pair and then the hunk of every group, each with the
      context `current_function` names once that group has moved it on. */
  function UnifiedText(a: seq<string>, b: seq<string>, fromfile: string, tofile: string,
                       fromfiledate: string, tofiledate: string, n: nat, lineterm: string,
                       groups: seq<seq<Opcode>>, isFunction: string -> bool, flavour: Flavour): (r: seq<string>)
    requires GroupsInRange(a, b, groups)
    ensures |groups| == 0 <==> r == []
  {
    var e := Env(a, b, FunctionLines(a, isFunction), groups, n, lineterm, flavour);
    PointersInRange(e, |groups|);
    if |groups| == 0 then []
    else HeaderLines(fromfile, tofile, fromfiledate, tofiledate, lineterm) + Render(e, Pointers(e, |groups|))
  }

  /** Hunk `g` of `unified_diff`: `current_function` moves past the group's
      limit, then the `@@` line with the context it names, then the body. */
  method EmitHunk(e: Env, g: nat, current: nat) returns (next: nat, lines: seq<string>)
    requires ValidEnv(e) && g < |e.groups| && current <= |e.fl|
    ensures next == Next(e, g, current)
    ensures lines == Hunk(e, g, next)
  {
    var group := e.groups[g];
    var context;
    next, context := FunctionContext(e.a, e.fl, current, group[0].i1 + e.n, e.flavour);
    var body := EmitGroup(e.a, e.b, group);
    lines := [HunkHeader(group, context, e.lineterm)] + body;
  }

  /** `unified_diff` over the groups the sequence matcher yields: the
      function lines are found once, then the groups are written out. */
  method UnifiedDiff(a: seq<string>, b: seq<string>, fromfile: string, tofile: string,
                     fromfiledate: string, tofiledate: string, n: nat, lineterm: string,
                     groups: seq<seq<Opcode>>, isFunction: string -> bool, flavour: Flavour)
    returns (out: seq<string>)
    requires GroupsInRange(a, b, groups)
    ensures out == UnifiedText(a, b, fromfile, tofile, fromfiledate, tofiledate, n, lineterm, groups, isFunction, flavour)
  {
    var functionLines := FunctionLines(a, isFunction);
    var header := HeaderLines(fromfile, tofile, fromfiledate, tofiledate, lineterm);
    var e := Env(a, b, functionLines, groups, n, lineterm, flavour);
    out := EmitGroups(e, header);
    PointersInRange(e, |groups|);
  }

  /** The loop of `unified_diff`: the `started` flag puts the header pair
      before the first hunk only, and `current_function` is carried from
      one group to the next. */
  method EmitGroups(e: Env, header: seq<string>) returns (out: seq<string>)
    requires ValidEnv(e)
    ensures PointersIn(e, Pointers(e, |e.groups|))
    ensures out == if |e.groups| == 0 then [] else header + Render(e, Pointers(e, |e.groups|))
  {
    var current: nat := 0;
    var started := false;
    out := [];
    for g := 0 to |e.groups|
      invariant Emitted(e, g, header, current, started, out)
    {
      current, started, out := EmitNext(e, g, header, current, started, out);
    }
    PointersInRange(e, |e.groups|);
  }

  /** The state of the loop of `unified_diff` after the first `g` groups:
      `current_function` is where the first `g` groups moved it, and the output is
      nothing before the first group and the header pair and the first `g`
      hunks after it. */
  ghost predicate Emitted(e: Env, g: nat, header: seq<string>, current: nat, started: bool, out: seq<string>)
    requires ValidEnv(e) && g <= |e.groups|
  {
    PointersInRange(e, g);
    && (started <==> g > 0)
    && current == Pointer(e, g)
    && out == if g == 0 then [] else header + Render(e, Pointers(e, g))
  }

  /** One turn of the loop of `unified_diff`: the header pair if nothing
      was written yet, then hunk `g`. */
  method EmitNext(e: Env, g: nat, header: seq<string>, current: nat, started: bool, out: seq<string>)
    returns (current': nat, started': bool, out': seq<string>)
    requires ValidEnv(e) && g < |e.groups|
    requires Emitted(e, g, header, current, started, out)
    ensures Emitted(e, g + 1, header, current', started', out')
  {
    started', out' := started, out;
    if !started' {
      started' := true;
      EmptyAppend(header);
      out' := out' + header;
    }
    var hunk;
    current', hunk := EmitHunk(e, g, current);
    RenderStep(e, g);
    HunkAppended(header, out', Render(e, Pointers(e, g)), hunk, Render(e, Pointers(e, g + 1)));
    out' := out' + hunk;
  }

  /** Hunk `g` follows the first `g` hunks. */
  lemma {:induction false} RenderStep(e: Env, g: nat)
    requires ValidEnv(e) && g < |e.groups|
    ensures PointersIn(e, Pointers(e, g)) && PointersIn(e, Pointers(e, g + 1))
    ensures Render(e, Pointers(e, g + 1)) == Render(e, Pointers(e, g)) + Hunk(e, g, Pointer(e, g + 1))
  {
    PointersInRange(e, g + 1);
    PointersInRange(e, g);
    var ps := Pointers(e, g + 1);
    assert ps[..g] == Pointers(e, g);
  }

  /** Appending hunk `g` to the output keeps it the header pair followed
      by the hunks so far (the first hunk comes right after the header). */
  lemma {:induction false} HunkAppended(header: seq<string>, out: seq<string>, done: seq<string>,
                                        hunk: seq<string>, done': seq<string>)
    requires out == header + done && done' == done + hunk
    ensures out + hunk == header + done'
  {
    Associate(header, done, hunk);
  }

  // ---------------------------------------------------------------------
  // The context pointer
  // ---------------------------------------------------------------------

  /** The first old lines of the groups never go back, as
      `get_grouped_opcodes` yields them. */
  predicate Ordered(groups: seq<seq<Opcode>>)
  {
    forall g :: 0 < g < |groups| && |groups[g - 1]| > 0 && |groups[g]| > 0 ==> groups[g - 1][0].i1 <= groups[g][0].i1
  }

  /** `current_function` never moves back: `current_function` after the first `k`
      groups is at most `current_function` after the first `m`, for `k <= m`. */
  lemma {:induction false} PointerNeverBack(e: Env, k: nat, m: nat)
    requires ValidEnv(e) && k <= m <= |e.groups|
    ensures Pointer(e, k) <= Pointer(e, m)
    decreases m
  {
    if k < m {
      PointerNeverBack(e, k, m - 1);
    }
  }

  /** With ordered groups `current_function` after a group is the number of
      function lines before that group's own limit: the state carried from
      earlier groups makes no difference. */
  lemma {:induction false} PointerIsLimit(e: Env, k: nat)
    requires ValidEnv(e) && Ordered(e.groups) && 0 < k <= |e.groups|
    ensures Pointer(e, k) == Below(e.fl, e.groups[k - 1][0].i1 + e.n)
    decreases k
  {
    if k > 1 {
      PointerIsLimit(e, k - 1);
      BelowMonotone(e.fl, e.groups[k - 2][0].i1 + e.n, e.groups[k - 1][0].i1 + e.n);
    }
  }

  /** Over ordered groups, the function context of hunk `k` is the last
      old line the function expression matches before the hunk's first old
      line plus `n`, and there is none exactly when no such line matches. */
  lemma {:induction false} HunkContext(e: Env, isFunction: string -> bool, k: nat)
    requires ValidEnv(e) && e.fl == FunctionLines(e.a, isFunction) && Ordered(e.groups) && k < |e.groups|
    ensures var p := Pointer(e, k + 1);
            var limit := e.groups[k][0].i1 + e.n;
            && (p == 0 <==> forall j :: 0 <= j < |e.a| && j < limit ==> !isFunction(e.a[j]))
            && (p > 0 ==> && e.fl[p - 1] < limit && isFunction(e.a[e.fl[p - 1]])
                          && forall j :: e.fl[p - 1] < j < |e.a| && j < limit ==> !isFunction(e.a[j]))
  {
    var limit := e.groups[k][0].i1 + e.n;
    PointerIsLimit(e, k + 1);
    assert Pointer(e, k + 1) == Below(FunctionLines(e.a, isFunction), limit);
    ContextIsLastFunctionLine(e.a, isFunction, limit);
  }
}
