/** The colour writer of `colordiff.py`: it classifies diff lines, splits
    the text it is given into lines, holds back a removed line until it
    knows whether an added line follows, and then highlights the two
    lines character by character. Coloured output is modelled as pieces
    of text tagged with the colour-table key they are painted with. */
module ColorDiff {
  import opened Common

  /** The keys of the colour table that the writer paints with. */
  datatype Style = DiffStuff | NewText | OldText | PlainText | NewSame | OldSame | TrailingSpace

  /** `terminal.colorstring(text, fg, bg)` for `fg`/`bg` keys, or plain
      text when `fg` is None. */
  datatype Piece = Piece(fg: Option<Style>, bg: Option<Style>, text: string)

  /** The text of a run of pieces, colours removed. */
  function Text(ps: seq<Piece>): string
  {
    if |ps| == 0 then "" else Text(ps[..|ps| - 1]) + ps[|ps| - 1].text
  }

  lemma {:induction false} TextAppend(xs: seq<Piece>, ys: seq<Piece>)
    ensures Text(xs + ys) == Text(xs) + Text(ys)
    decreases |ys|
  {
    if |ys| == 0 {
      assert xs + ys == xs;
    } else {
      var front, last := ys[..|ys| - 1], ys[|ys| - 1];
      var all := xs + ys;
      assert all[..|all| - 1] == xs + front;
      assert all[|all| - 1] == last;
      TextAppend(xs, front);
      calc {
        Text(all);
        Text(xs + front) + last.text;
        (Text(xs) + Text(front)) + last.text;
        Text(xs) + (Text(front) + last.text);
      }
    }
  }

  /** `''.join(strings)`. */
  function Concat(ss: seq<string>): string
  {
    if |ss| == 0 then "" else Concat(ss[..|ss| - 1]) + ss[|ss| - 1]
  }

  lemma {:induction false} ConcatAppend(xs: seq<string>, ys: seq<string>)
    ensures Concat(xs + ys) == Concat(xs) + Concat(ys)
    decreases |ys|
  {
    if |ys| == 0 {
      assert xs + ys == xs;
    } else {
      var front, last := ys[..|ys| - 1], ys[|ys| - 1];
      var all := xs + ys;
      assert all[..|all| - 1] == xs + front;
      assert all[|all| - 1] == last;
      ConcatAppend(xs, front);
      calc {
        Concat(all);
        Concat(xs + front) + last;
        (Concat(xs) + Concat(front)) + last;
        Concat(xs) + (Concat(front) + last);
      }
    }
  }

  /** `LineParser.parse_line`: the type of a diff line from its first
      character. */
  function ParseLine(line: string): (t: Style)
    ensures t == DiffStuff <==> |line| > 0 && line[0] == '@'
    ensures t == NewText <==> |line| > 0 && line[0] == '+'
    ensures t == OldText <==> |line| > 0 && line[0] == '-'
    ensures t == PlainText <==> |line| == 0 || (line[0] != '@' && line[0] != '+' && line[0] != '-')
  {
    if |line| > 0 && line[0] == '@' then DiffStuff
    else if |line| > 0 && line[0] == '+' then NewText
    else if |line| > 0 && line[0] == '-' then OldText
    else PlainText
  }

  /** At most one newline, and only as the last character: what the writer
      hands on as a line, and every piece of one. */
  predicate IsLine(s: string)
  {
    forall i :: 0 <= i < |s| - 1 ==> s[i] != '\n'
  }

  lemma {:induction false} SliceIsLine(s: string, i: nat, j: nat)
    requires i <= j <= |s|
    ensures IsLine(s) ==> IsLine(s[i..j])
  {
    if IsLine(s) {
      forall k | 0 <= k < j - i - 1
        ensures s[i..j][k] != '\n'
      {
        assert s[i..j][k] == s[i + k];
      }
    }
  }

  /** The first `c` in `s` at or after `from`. */
  function FindChar(s: string, c: char, from: nat): (r: Option<nat>)
    ensures r.Some? ==> from <= r.value < |s| && s[r.value] == c
    decreases |s| - from
  {
    if from >= |s| then None
    else if s[from] == c then Some(from)
    else FindChar(s, c, from + 1)
  }

  /** `FindChar` skips no `c`: none lies between `from` and the position
      found, or after `from` at all when none is found. */
  lemma {:induction false} FindCharFirst(s: string, c: char, from: nat)
    ensures FindChar(s, c, from).Some? ==> forall i :: from <= i < FindChar(s, c, from).value ==> s[i] != c
    ensures FindChar(s, c, from).None? ==> forall i :: from <= i < |s| ==> s[i] != c
    decreases |s| - from
  {
    if from < |s| && s[from] != c {
      FindCharFirst(s, c, from + 1);
    }
  }

  /** How much of `s` the regular expression tail `.*\n$` consumes: up to
      the first newline, which must be the last character or be followed
      only by a final newline (Python's `$` also matches just before a
      trailing newline). */
  function LineEnd(s: string): (r: Option<nat>)
    ensures r.Some? ==> 0 < r.value <= |s|
  {
    match FindChar(s, '\n', 0)
    case None => None
    case Some(i) =>
      if i == |s| - 1 || (i == |s| - 2 && s[|s| - 1] == '\n') then Some(i + 1) else None
  }

  /** What the pattern tail consumes is a line ending in a newline; on a
      line it is all of it, and it matches whenever the line ends in a
      newline. */
  lemma {:induction false} LineEndFacts(s: string)
    ensures LineEnd(s).Some? ==> s[LineEnd(s).value - 1] == '\n' && IsLine(s[..LineEnd(s).value])
    ensures IsLine(s) && |s| > 0 && s[|s| - 1] == '\n' ==> LineEnd(s) == Some(|s|)
    ensures IsLine(s) && LineEnd(s).Some? ==> LineEnd(s) == Some(|s|)
  {
    FindCharFirst(s, '\n', 0);
  }

  /** Number of trailing spaces and tabs. */
  function TrailingBlanks(s: string): (n: nat)
    ensures n <= |s|
  {
    if |s| == 0 || (s[|s| - 1] != ' ' && s[|s| - 1] != '\t') then 0
    else 1 + TrailingBlanks(s[..|s| - 1])
  }

  /** The trailing run is all blanks and maximal. */
  lemma {:induction false} TrailingBlanksRun(s: string)
    ensures forall i :: |s| - TrailingBlanks(s) <= i < |s| ==> s[i] == ' ' || s[i] == '\t'
    ensures TrailingBlanks(s) < |s| ==> s[|s| - TrailingBlanks(s) - 1] != ' ' && s[|s| - TrailingBlanks(s) - 1] != '\t'
  {
    if |s| > 0 && (s[|s| - 1] == ' ' || s[|s| - 1] == '\t') {
      var front := s[..|s| - 1];
      TrailingBlanksRun(front);
      forall i | |s| - TrailingBlanks(s) <= i < |s| - 1
        ensures s[i] == ' ' || s[i] == '\t'
      {
        assert s[i] == front[i];
      }
      if TrailingBlanks(s) < |s| {
        assert s[|s| - TrailingBlanks(s) - 1] == front[|front| - TrailingBlanks(front) - 1];
      }
    }
  }

  /** The groups of `^(.*?)([\t ]*)(\r?\n)$` on an added line: the body,
      the maximal run of spaces and tabs before the end of the line, and
      the `\r?\n` terminator. */
  function NewTextSplit(line: string): (r: Option<(string, string, string)>)
    ensures r.Some? ==> |r.value.0| + |r.value.1| + |r.value.2| <= |line|
  {
    match LineEnd(line)
    case None => None
    case Some(e) =>
      var cut := if e >= 2 && line[e - 2] == '\r' then e - 2 else e - 1;
      var t := TrailingBlanks(line[..cut]);
      Some((line[..cut - t], line[cut - t..cut], line[cut..e]))
  }

  /** The terminator group is `\n` or `\r\n`. */
  lemma {:induction false} NewTextSplitTerm(line: string)
    ensures NewTextSplit(line).Some? ==> NewTextSplit(line).value.2 in {"\n", "\r\n"}
  {
    match LineEnd(line)
    case None =>
    case Some(e) =>
      var cut := if e >= 2 && line[e - 2] == '\r' then e - 2 else e - 1;
      var term := line[cut..e];
      assert NewTextSplit(line).value.2 == term;
      if cut == e - 2 {
        assert term == [line[e - 2], line[e - 1]] == "\r\n";
      } else {
        assert term == [line[e - 1]] == "\n";
      }
  }

  /** The blanks group is the maximal run of spaces and tabs before the
      terminator: all blanks, and the body does not end in one. */
  lemma {:induction false} NewTextSplitBlanks(line: string)
    ensures NewTextSplit(line).Some? ==> var (body, blanks, _) := NewTextSplit(line).value;
              && (forall i :: 0 <= i < |blanks| ==> blanks[i] == ' ' || blanks[i] == '\t')
              && (|body| > 0 ==> body[|body| - 1] != ' ' && body[|body| - 1] != '\t')
  {
    match LineEnd(line)
    case None =>
    case Some(e) =>
      var cut := if e >= 2 && line[e - 2] == '\r' then e - 2 else e - 1;
      BlanksAt(line, cut);
  }

  /** Cutting the trailing blanks off `line[..cut]` leaves all blanks in
      the run and no blank at the end of what comes before. */
  lemma {:induction false} BlanksAt(line: string, cut: nat)
    requires cut <= |line|
    ensures var t := TrailingBlanks(line[..cut]);
            var body, blanks := line[..cut - t], line[cut - t..cut];
            && (forall i :: 0 <= i < |blanks| ==> blanks[i] == ' ' || blanks[i] == '\t')
            && (|body| > 0 ==> body[|body| - 1] != ' ' && body[|body| - 1] != '\t')
  {
    var front := line[..cut];
    var t := TrailingBlanks(front);
    TrailingBlanksRun(front);
    var body, blanks := line[..cut - t], line[cut - t..cut];
    forall i | 0 <= i < |blanks|
      ensures blanks[i] == ' ' || blanks[i] == '\t'
    {
      assert blanks[i] == front[cut - t + i];
    }
    if |body| > 0 {
      assert body[|body| - 1] == front[cut - t - 1];
    }
  }

  /** On a line the pattern matches whenever the line ends in a newline,
      the groups put back together the line, and the terminator is `\r\n`
      exactly when the line ends so. */
  lemma {:induction false} NewTextSplitJoins(line: string)
    requires IsLine(line)
    ensures EndsLine(line) ==> NewTextSplit(line).Some?
    ensures NewTextSplit(line).Some? ==> var (body, blanks, term) := NewTextSplit(line).value;
              body + blanks + term == line &&
              (term == "\r\n" <==> |line| >= 2 && line[|line| - 2] == '\r')
  {
    LineEndFacts(line);
    match LineEnd(line)
    case None =>
    case Some(e) =>
      assert e == |line| && line[..e] == line;
      var cut := if e >= 2 && line[e - 2] == '\r' then e - 2 else e - 1;
      var t := TrailingBlanks(line[..cut]);
      var body, blanks, term := line[..cut - t], line[cut - t..cut], line[cut..e];
      assert NewTextSplit(line) == Some((body, blanks, term));
      if cut == e - 2 {
        assert term == [line[e - 2], line[e - 1]] == "\r\n";
      } else {
        assert term == [line[e - 1]] == "\n";
      }
      assert body + blanks == line[..cut];
      assert line[..cut] + term == line[..e];
  }

  /** The groups of `^(@@[^@]*@@)(.*\r?\n)$` on a hunk header: the `@@ ...
      @@` range part and the rest of the line. */
  function DiffStuffSplit(line: string): (r: Option<(string, string)>)
    ensures r.Some? ==> |r.value.0| + |r.value.1| <= |line|
  {
    if |line| < 4 || line[0] != '@' || line[1] != '@' then None
    else
      match FindChar(line, '@', 2)
      case None => None
      case Some(j) =>
        if j + 1 < |line| && line[j + 1] == '@' then
          match LineEnd(line[j + 2..])
          case None => None
          case Some(e) => Some((line[..j + 2], line[j + 2..][..e]))
        else None
  }

  /** The range part is `@@`, no `@`, `@@`, and for a line the two groups
      put back together the line. */
  lemma {:induction false} DiffStuffSplitParts(line: string)
    ensures DiffStuffSplit(line).Some? ==> var ranges := DiffStuffSplit(line).value.0;
              |ranges| >= 4 && ranges[..2] == "@@" && ranges[|ranges| - 2..] == "@@" &&
              forall i :: 2 <= i < |ranges| - 2 ==> ranges[i] != '@'
    ensures DiffStuffSplit(line).Some? && IsLine(line) ==> DiffStuffSplit(line).value.0 + DiffStuffSplit(line).value.1 == line
  {
    if |line| >= 4 && line[0] == '@' && line[1] == '@' {
      match FindChar(line, '@', 2)
      case None =>
      case Some(j) =>
        FindCharFirst(line, '@', 2);
        if j + 1 < |line| && line[j + 1] == '@' {
          var rest := line[j + 2..];
          LineEndFacts(rest);
          match LineEnd(rest)
          case None =>
          case Some(e) =>
            var ranges := line[..j + 2];
            assert DiffStuffSplit(line) == Some((ranges, rest[..e]));
            assert forall i :: 2 <= i < |ranges| - 2 ==> ranges[i] == line[i];
            SliceIsLine(line, j + 2, |line|);
            assert ranges + rest == line;
        }
    }
  }

  /** `colorstring(type, line)` with every colour set: added lines get
      their trailing blanks marked, hunk headers get only the range part
      coloured, anything else is coloured whole. */
  function ColorString(style: Style, line: string): seq<Piece>
  {
    match style
    case NewText =>
      (match NewTextSplit(line)
       case Some((body, blanks, term)) =>
         [Piece(Some(NewText), None, body), Piece(Some(NewText), Some(TrailingSpace), blanks), Piece(None, None, term)]
       case None => [Piece(Some(NewText), None, line)])
    case DiffStuff =>
      (match DiffStuffSplit(line)
       case Some((ranges, rest)) => [Piece(Some(DiffStuff), None, ranges), Piece(None, None, rest)]
       case None => [Piece(Some(DiffStuff), None, line)])
    case _ => [Piece(Some(style), None, line)]
  }

  /** Colouring a line loses and invents no text: the pieces spell it. */
  lemma {:induction false} ColorStringText(style: Style, line: string)
    requires IsLine(line)
    ensures Text(ColorString(style, line)) == line
  {
    var r := ColorString(style, line);
    if style == NewText && NewTextSplit(line).Some? {
      NewTextPiecesText(line);
    } else if style == DiffStuff && DiffStuffSplit(line).Some? {
      DiffStuffPiecesText(line);
    } else {
      assert r == [Piece(Some(style), None, line)];
      TextOne(Piece(Some(style), None, line));
    }
  }

  lemma {:induction false} NewTextPiecesText(line: string)
    requires IsLine(line) && NewTextSplit(line).Some?
    ensures Text(ColorString(NewText, line)) == line
  {
    NewTextSplitJoins(line);
    var (body, blanks, term) := NewTextSplit(line).value;
    var p0, p1, p2 := Piece(Some(NewText), None, body), Piece(Some(NewText), Some(TrailingSpace), blanks), Piece(None, None, term);
    assert ColorString(NewText, line) == [p0, p1, p2];
    TextThree(p0, p1, p2);
  }

  lemma {:induction false} TextOne(p: Piece)
    ensures Text([p]) == p.text
  {
    assert [p][..0] == [];
  }

  lemma {:induction false} TextTwo(p0: Piece, p1: Piece)
    ensures Text([p0, p1]) == p0.text + p1.text
  {
    assert [p0, p1][..1] == [p0];
    TextOne(p0);
  }

  lemma {:induction false} TextThree(p0: Piece, p1: Piece, p2: Piece)
    ensures Text([p0, p1, p2]) == p0.text + p1.text + p2.text
  {
    assert [p0, p1, p2][..2] == [p0, p1];
    TextTwo(p0, p1);
  }

  lemma {:induction false} DiffStuffPiecesText(line: string)
    requires IsLine(line) && DiffStuffSplit(line).Some?
    ensures Text(ColorString(DiffStuff, line)) == line
  {
    DiffStuffSplitParts(line);
    var (ranges, rest) := DiffStuffSplit(line).value;
    var p0, p1 := Piece(Some(DiffStuff), None, ranges), Piece(None, None, rest);
    assert ColorString(DiffStuff, line) == [p0, p1];
    TextTwo(p0, p1);
  }

  /** No newline at all: what `split('\n')` yields and `chunks` holds. */
  predicate NoNewline(s: string)
  {
    forall i :: 0 <= i < |s| ==> s[i] != '\n'
  }

  predicate EndsLine(s: string)
  {
    |s| > 0 && s[|s| - 1] == '\n'
  }

  /** Every string newline-free: the parts of a split, the pending chunks. */
  predicate NoNewlines(ss: seq<string>)
  {
    forall k :: 0 <= k < |ss| ==> NoNewline(ss[k])
  }

  /** Every string a line ending in its newline: what `_writeline` gets. */
  predicate AllLines(ls: seq<string>)
  {
    forall k :: 0 <= k < |ls| ==> IsLine(ls[k]) && EndsLine(ls[k])
  }

  lemma {:induction false} ConcatNoNewline(ss: seq<string>)
    ensures NoNewlines(ss) ==> NoNewline(Concat(ss))
    decreases |ss|
  {
    if |ss| > 0 {
      ConcatNoNewline(ss[..|ss| - 1]);
    }
  }

  lemma {:induction false} ConcatCons(x: string, ys: seq<string>)
    ensures Concat([x] + ys) == x + Concat(ys)
  {
    ConcatAppend([x], ys);
    assert Concat([x]) == Concat([]) + x;
  }

  lemma {:induction false} NewlineEnded(x: string, y: string)
    ensures NoNewline(x) && NoNewline(y) ==> IsLine(x + y + "\n") && EndsLine(x + y + "\n")
  {
    if NoNewline(x) && NoNewline(y) {
      var s := x + y + "\n";
      forall i | 0 <= i < |s| - 1
        ensures s[i] != '\n'
      {
        if i < |x| { assert s[i] == x[i]; } else { assert s[i] == y[i - |x|]; }
      }
    }
  }

  /** The last `c` in `s` before position `upto`. */
  function FindLast(s: string, c: char, upto: nat): (r: Option<nat>)
    requires upto <= |s|
    ensures r.Some? ==> r.value < upto && s[r.value] == c
  {
    if upto == 0 then None
    else if s[upto - 1] == c then Some(upto - 1)
    else FindLast(s, c, upto - 1)
  }

  /** `FindLast` skips no `c`: none lies after the position found, or
      before `upto` at all when none is found. */
  lemma {:induction false} FindLastLast(s: string, c: char, upto: nat)
    requires upto <= |s|
    ensures FindLast(s, c, upto).Some? ==> forall i :: FindLast(s, c, upto).value < i < upto ==> s[i] != c
    ensures FindLast(s, c, upto).None? ==> forall i :: 0 <= i < upto ==> s[i] != c
  {
    if upto > 0 && s[upto - 1] != c {
      FindLastLast(s, c, upto - 1);
    }
  }

  /** The lines `p + "\n"` of `ps`, run together. */
  function Terminated(ps: seq<string>): string
  {
    if |ps| == 0 then "" else Terminated(ps[..|ps| - 1]) + ps[|ps| - 1] + "\n"
  }

  /** `text.split('\n')`: the parts between newlines. */
  function Split(s: string): (parts: seq<string>)
    ensures |parts| >= 1
    decreases |s|
  {
    match FindLast(s, '\n', |s|)
    case None => [s]
    case Some(i) => Split(s[..i]) + [s[i + 1..]]
  }

  /** The parts of a split hold no newline, and joined with newlines they
      spell the text again: there is one more part than newlines. */
  lemma SplitJoins(s: string)
    ensures NoNewlines(Split(s))
    ensures Terminated(Split(s)[..|Split(s)| - 1]) + Split(s)[|Split(s)| - 1] == s
  {
    SplitNoNewlines(s);
    SplitRejoins(s);
  }

  lemma {:induction false} SplitNoNewlines(s: string)
    ensures NoNewlines(Split(s))
    decreases |s|
  {
    FindLastLast(s, '\n', |s|);
    match FindLast(s, '\n', |s|)
    case None =>
      assert Split(s) == [s];
    case Some(i) =>
      var front, last := Split(s[..i]), s[i + 1..];
      SplitNoNewlines(s[..i]);
      assert Split(s) == front + [last];
      forall j | 0 <= j < |last|
        ensures last[j] != '\n'
      {
        assert last[j] == s[i + 1 + j];
      }
      NoNewlinesAppend(front, last);
  }

  lemma {:induction false} NoNewlinesAppend(front: seq<string>, last: string)
    requires NoNewlines(front) && NoNewline(last)
    ensures NoNewlines(front + [last])
  {
    var parts := front + [last];
    forall k | 0 <= k < |parts|
      ensures NoNewline(parts[k])
    {
      if k < |front| {
        assert parts[k] == front[k];
      }
    }
  }

  lemma {:induction false} SplitRejoins(s: string)
    ensures Terminated(Split(s)[..|Split(s)| - 1]) + Split(s)[|Split(s)| - 1] == s
    decreases |s|
  {
    match FindLast(s, '\n', |s|)
    case None =>
      assert Split(s) == [s];
      assert Split(s)[..0] == [];
    case Some(i) =>
      var front, last := Split(s[..i]), s[i + 1..];
      SplitRejoins(s[..i]);
      assert Split(s) == front + [last];
      RejoinStep(front, s[..i], last);
      CutAtChar(s, i);
  }

  /** One more part after a newline extends the joined text by it. */
  lemma {:induction false} RejoinStep(front: seq<string>, head: string, last: string)
    requires |front| >= 1 && Terminated(front[..|front| - 1]) + front[|front| - 1] == head
    ensures var parts := front + [last];
            Terminated(parts[..|parts| - 1]) + parts[|parts| - 1] == head + "\n" + last
  {
    var parts := front + [last];
    assert parts[..|parts| - 1] == front;
  }

  /** A string is its text before position `i`, the character there and
      its text after. */
  lemma {:induction false} CutAtChar(s: string, i: nat)
    requires i < |s|
    ensures s[..i] + [s[i]] + s[i + 1..] == s
  {
  }

  /** Each part with its newline put back. */
  function Lines(ps: seq<string>): (ls: seq<string>)
    ensures |ls| == |ps| && forall k :: 0 <= k < |ps| ==> ls[k] == ps[k] + "\n"
  {
    if |ps| == 0 then [] else Lines(ps[..|ps| - 1]) + [ps[|ps| - 1] + "\n"]
  }

  lemma {:induction false} ConcatLines(ps: seq<string>)
    ensures Concat(Lines(ps)) == Terminated(ps)
    decreases |ps|
  {
    if |ps| > 0 {
      ConcatLines(ps[..|ps| - 1]);
      assert Lines(ps)[..|ps| - 1] == Lines(ps[..|ps| - 1]);
    }
  }

  /** The lines `write(text)` hands to `_writeline` in colour mode: one per
      newline in `text`, the first prefixed by the pending chunks. */
  function HandedLines(chunks: seq<string>, text: string): (r: seq<string>)
    ensures |r| == |Split(text)| - 1
  {
    var parts := Split(text);
    var pending := Concat(chunks);
    seq(|parts| - 1, k requires 0 <= k < |parts| - 1 => (if k == 0 then pending else "") + (parts[k] + "\n"))
  }

  /** With no newline pending, every handed line is a line ending in its
      newline. */
  lemma {:induction false} HandedLinesAreLines(chunks: seq<string>, text: string)
    requires NoNewlines(chunks)
    ensures AllLines(HandedLines(chunks, text))
  {
    var parts := Split(text);
    var pending := Concat(chunks);
    var r := HandedLines(chunks, text);
    SplitJoins(text);
    ConcatNoNewline(chunks);
    forall k | 0 <= k < |r|
      ensures IsLine(r[k]) && EndsLine(r[k])
    {
      var x := if k == 0 then pending else "";
      NewlineEnded(x, parts[k]);
      assert r[k] == x + parts[k] + "\n";
    }
  }

  /** The pending chunks after `write(text)` as the code stands: only the
      part after the last newline, whatever was pending before. */
  function PendingAsWritten(chunks: seq<string>, text: string): (r: seq<string>)
    ensures |r| == 1 && NoNewline(r[0])
  {
    var parts := Split(text);
    SplitJoins(text);
    [parts[|parts| - 1]]
  }

  /** Text with no newline, written after a chunk was left pending, drops
      that chunk: neither a handed line nor the new chunks hold "ab". */
  lemma {:induction false} WriteDropsPending()
    ensures Concat(HandedLines(["ab"], "cd")) + Concat(PendingAsWritten(["ab"], "cd")) != Concat(["ab"]) + "cd"
  {
    assert FindLast("cd", '\n', 2) == None;
    assert Split("cd") == ["cd"];
    assert Concat(["cd"]) == Concat([]) + "cd";
    assert |Concat(PendingAsWritten(["ab"], "cd"))| == 2;
    assert Concat(["ab"]) == Concat([]) + "ab";
  }

  /** The pending chunks after `write(text)` when the part after the last
      newline is appended to what was pending (and newlines flush it). */
  function PendingAfterWrite(chunks: seq<string>, text: string): (r: seq<string>)
    ensures NoNewlines(chunks) ==> NoNewlines(r)
  {
    var parts := Split(text);
    SplitJoins(text);
    (if |parts| > 1 then [] else chunks) + [parts[|parts| - 1]]
  }

  /** Nothing is lost: the lines handed on, then the chunks still pending,
      spell the old pending chunks followed by the written text. */
  lemma {:induction false} WriteKeepsText(chunks: seq<string>, text: string)
    ensures Concat(HandedLines(chunks, text)) + Concat(PendingAfterWrite(chunks, text)) == Concat(chunks) + text
  {
    var parts := Split(text);
    SplitJoins(text);
    if |parts| == 1 {
      WriteKeepsTextNoNewline(chunks, text);
      assert Concat(chunks + [text]) == Concat(chunks) + text;
    } else {
      WriteKeepsTextLines(chunks, text);
    }
  }

  lemma {:induction false} WriteKeepsTextLines(chunks: seq<string>, text: string)
    requires |Split(text)| > 1
    ensures Concat(HandedLines(chunks, text)) + Concat(PendingAfterWrite(chunks, text)) == Concat(chunks) + text
  {
    var parts := Split(text);
    SplitJoins(text);
    var n := |parts|;
    var pending, last := Concat(chunks), parts[n - 1];
    var ls := Lines(parts[..n - 1]);
    var hl := HandedLines(chunks, text);
    HandedLinesShape(chunks, text);
    assert ls == [ls[0]] + ls[1..];
    assert PendingAfterWrite(chunks, text) == [last];
    calc {
      Concat(hl) + Concat([last]);
      { ConcatCons(pending + ls[0], ls[1..]); ConcatCons(last, []); }
      (pending + ls[0] + Concat(ls[1..])) + last;
      { Associate(pending, ls[0], Concat(ls[1..])); }
      pending + (ls[0] + Concat(ls[1..])) + last;
      { ConcatCons(ls[0], ls[1..]); ConcatLines(parts[..n - 1]); }
      pending + Terminated(parts[..n - 1]) + last;
      { Associate(pending, Terminated(parts[..n - 1]), last); }
      pending + text;
    }
  }

  /** With a newline in the text, the handed lines are the parts with
      their newlines, the first prefixed by the pending chunks. */
  lemma {:induction false} HandedLinesShape(chunks: seq<string>, text: string)
    requires |Split(text)| > 1
    ensures var ls := Lines(Split(text)[..|Split(text)| - 1]);
            HandedLines(chunks, text) == [Concat(chunks) + ls[0]] + ls[1..]
  {
    var parts := Split(text);
    var ls := Lines(parts[..|parts| - 1]);
    var hl := HandedLines(chunks, text);
    var pending := Concat(chunks);
    forall k | 0 <= k < |hl|
      ensures hl[k] == ([pending + ls[0]] + ls[1..])[k]
    {
      if k > 0 {
        assert hl[k] == "" + ls[k];
      }
    }
  }

  lemma {:induction false} WriteKeepsTextNoNewline(chunks: seq<string>, text: string)
    requires |Split(text)| == 1
    ensures HandedLines(chunks, text) == [] && PendingAfterWrite(chunks, text) == chunks + [text]
  {
    var parts := Split(text);
    SplitJoins(text);
    assert parts[..0] == [];
    assert Terminated([]) + parts[0] == text;
  }

  /** What `difflib.SequenceMatcher(None, x, y).get_matching_blocks()`
      promises about the shape of its result for any two strings: monotone
      blocks inside both strings, ending in the dummy `(len(x), len(y), 0)`. */
  ghost predicate ValidCharMatcher(f: (string, string) -> seq<Block>)
  {
    forall x: string, y: string :: WellFormedBlocks(f(x, y), |x|, |y|)
  }

  /** ... and about its content: every block joins equal characters. */
  ghost predicate MatchingCharMatcher(f: (string, string) -> seq<Block>)
  {
    forall x: string, y: string, k :: 0 <= k < |f(x, y)| ==> BlockMatches(x, y, f(x, y)[k])
  }

  /** `max(m[2] for m in blocks)`. */
  function MaxSize(blocks: seq<Block>): int
    requires |blocks| > 0
  {
    if |blocks| == 1 then blocks[0].size
    else
      var front := MaxSize(blocks[..|blocks| - 1]);
      if blocks[|blocks| - 1].size > front then blocks[|blocks| - 1].size else front
  }

  /** `MaxSize` is the largest block size: no block is larger, and some
      block has it, found at `idx`. */
  lemma {:induction false} MaxSizeIsMax(blocks: seq<Block>) returns (idx: nat)
    requires |blocks| > 0
    ensures forall k :: 0 <= k < |blocks| ==> blocks[k].size <= MaxSize(blocks)
    ensures idx < |blocks| && blocks[idx].size == MaxSize(blocks)
    decreases |blocks|
  {
    if |blocks| == 1 {
      idx := 0;
    } else {
      var n := |blocks|;
      var front := blocks[..n - 1];
      idx := MaxSizeIsMax(front);
      assert forall k :: 0 <= k < n - 1 ==> front[k] == blocks[k];
      if blocks[n - 1].size > MaxSize(front) {
        idx := n - 1;
      }
    }
  }

  /** `[m for m in blocks if m[2] == 0 or m[2] >= 3]`: blocks of one or two
      characters are dropped, empty ones (the dummy) kept. */
  function KeepLong(blocks: seq<Block>): seq<Block>
  {
    if |blocks| == 0 then []
    else
      var m := blocks[|blocks| - 1];
      KeepLong(blocks[..|blocks| - 1]) + (if m.size == 0 || m.size >= 3 then [m] else [])
  }

  /** Exactly the blocks of no or at least three characters are kept. */
  lemma {:induction false} KeepLongMembers(blocks: seq<Block>)
    ensures forall m :: m in KeepLong(blocks) <==> m in blocks && (m.size == 0 || m.size >= 3)
  {
    forall m | m in KeepLong(blocks)
      ensures m in blocks && (m.size == 0 || m.size >= 3)
    {
      var k :| 0 <= k < |KeepLong(blocks)| && KeepLong(blocks)[k] == m;
      var idx := KeepLongSource(blocks, k);
    }
    forall m | m in blocks && (m.size == 0 || m.size >= 3)
      ensures m in KeepLong(blocks)
    {
      var i :| 0 <= i < |blocks| && blocks[i] == m;
      KeepLongKeeps(blocks, i);
    }
  }

  /** A block that passes the filter survives it. */
  lemma {:induction false} KeepLongKeeps(blocks: seq<Block>, i: nat)
    requires i < |blocks| && (blocks[i].size == 0 || blocks[i].size >= 3)
    ensures blocks[i] in KeepLong(blocks)
    decreases |blocks|
  {
    var n := |blocks|;
    var front, m := blocks[..n - 1], blocks[n - 1];
    var kept := KeepLong(front);
    assert KeepLong(blocks) == kept + (if m.size == 0 || m.size >= 3 then [m] else []);
    if i < n - 1 {
      assert front[i] == blocks[i];
      KeepLongKeeps(front, i);
    } else {
      assert KeepLong(blocks)[|kept|] == m;
    }
  }

  /** Every kept block is one of the blocks given, found at `idx`. */
  lemma {:induction false} KeepLongSource(blocks: seq<Block>, k: nat) returns (idx: nat)
    requires k < |KeepLong(blocks)|
    ensures idx < |blocks| && blocks[idx] == KeepLong(blocks)[k]
    ensures KeepLong(blocks)[k].size == 0 || KeepLong(blocks)[k].size >= 3
    decreases |blocks|
  {
    var n := |blocks|;
    var front, m := blocks[..n - 1], blocks[n - 1];
    var kept := KeepLong(front);
    assert KeepLong(blocks) == kept + (if m.size == 0 || m.size >= 3 then [m] else []);
    if k < |kept| {
      assert KeepLong(blocks)[k] == kept[k];
      idx := KeepLongSource(front, k);
      assert front[idx] == blocks[idx];
    } else {
      idx := n - 1;
    }
  }

  /** Every block ends before any later one starts, on both sides. */
  predicate Ordered(blocks: seq<Block>)
  {
    forall i, j :: 0 <= i < j < |blocks| ==>
      blocks[i].a + blocks[i].size <= blocks[j].a && blocks[i].b + blocks[i].size <= blocks[j].b
  }

  lemma {:induction false} ConsistentOrdered(blocks: seq<Block>)
    requires Consistent(blocks) && forall k :: 0 <= k < |blocks| ==> blocks[k].size >= 0
    ensures Ordered(blocks)
    decreases |blocks|
  {
    if |blocks| > 1 {
      var n := |blocks|;
      var front := blocks[..n - 1];
      assert forall k :: 0 <= k < n - 1 ==> front[k] == blocks[k];
      ConsistentOrdered(front);
      forall i, j | 0 <= i < j < n
        ensures blocks[i].a + blocks[i].size <= blocks[j].a && blocks[i].b + blocks[i].size <= blocks[j].b
      {
        if j < n - 1 {
          assert front[i] == blocks[i] && front[j] == blocks[j];
        } else if i < n - 2 {
          assert front[i] == blocks[i] && front[n - 2] == blocks[n - 2];
        }
      }
    }
  }

  lemma {:induction false} OrderedFront(blocks: seq<Block>, n: nat)
    requires Ordered(blocks) && n <= |blocks|
    ensures Ordered(blocks[..n])
  {
    forall i, j | 0 <= i < j < n
      ensures blocks[..n][i].a + blocks[..n][i].size <= blocks[..n][j].a &&
              blocks[..n][i].b + blocks[..n][i].size <= blocks[..n][j].b
    {
      assert blocks[..n][i] == blocks[i] && blocks[..n][j] == blocks[j];
    }
  }

  lemma {:induction false} OrderedSnoc(blocks: seq<Block>, m: Block)
    requires Ordered(blocks)
    requires forall i :: 0 <= i < |blocks| ==> blocks[i].a + blocks[i].size <= m.a && blocks[i].b + blocks[i].size <= m.b
    ensures Ordered(blocks + [m])
  {
    var r := blocks + [m];
    forall i, j | 0 <= i < j < |r|
      ensures r[i].a + r[i].size <= r[j].a && r[i].b + r[i].size <= r[j].b
    {
      assert r[i] == blocks[i];
      if j < |blocks| {
        assert r[j] == blocks[j];
      }
    }
  }

  lemma {:induction false} KeepLongOrdered(blocks: seq<Block>)
    requires Ordered(blocks)
    ensures Ordered(KeepLong(blocks))
    decreases |blocks|
  {
    if |blocks| > 0 {
      var n := |blocks|;
      var front := blocks[..n - 1];
      var m := blocks[n - 1];
      OrderedFront(blocks, n - 1);
      KeepLongOrdered(front);
      var kept := KeepLong(front);
      if m.size == 0 || m.size >= 3 {
        forall i | 0 <= i < |kept|
          ensures kept[i].a + kept[i].size <= m.a && kept[i].b + kept[i].size <= m.b
        {
          var idx := KeepLongSource(front, i);
          assert blocks[idx] == kept[i];
        }
        OrderedSnoc(kept, m);
      }
    }
  }

  /** Dropping the short blocks keeps well-formed blocks well formed. */
  lemma {:induction false} KeepLongWellFormed(blocks: seq<Block>, la: nat, lb: nat)
    requires WellFormedBlocks(blocks, la, lb)
    ensures WellFormedBlocks(KeepLong(blocks), la, lb)
  {
    ConsistentOrdered(blocks);
    KeepLongOrdered(blocks);
    var r := KeepLong(blocks);
    var n := |blocks|;
    assert r == KeepLong(blocks[..n - 1]) + [blocks[n - 1]];
    forall k | 0 <= k < |r|
      ensures r[k].size >= 0
    {
      var idx := KeepLongSource(blocks, k);
    }
    forall k | 0 < k < |r|
      ensures r[k - 1].a + r[k - 1].size <= r[k].a && r[k - 1].b + r[k - 1].size <= r[k].b
    {
    }
  }

  /** The unchanged text `t[lo..hi]` one kept block covers on one side of
      the changed pair. */
  datatype Span = Span(lo: nat, hi: nat)

  /** The kept blocks as spans of the old (`SideA`) or new (`SideB`) text:
      `(m[0], m[0] + m[2])` or `(m[1], m[1] + m[2])`. */
  function Spans(ms: seq<Block>, side: Side): (sp: seq<Span>)
    requires forall k :: 0 <= k < |ms| ==> 0 <= ms[k].size
    ensures |sp| == |ms|
  {
    seq(|ms|, k requires 0 <= k < |ms| =>
      if side == SideA then Span(ms[k].a, ms[k].a + ms[k].size) else Span(ms[k].b, ms[k].b + ms[k].size))
  }

  /** The `-`/`+` marker that opens each side, and the colour keys of its
      changed and unchanged segments. */
  function Marker(side: Side): string
  {
    if side == SideA then "-" else "+"
  }

  function ChangedStyle(side: Side): Style
  {
    if side == SideA then OldText else NewText
  }

  function SameStyle(side: Side): Style
  {
    if side == SideA then OldSame else NewSame
  }

  /** The spans cut `t` into segments: each inside `t`, each ending before
      the next starts. */
  predicate SpansFit(t: string, sp: seq<Span>)
  {
    (forall k :: 0 <= k < |sp| ==> sp[k].lo <= sp[k].hi <= |t|) &&
    (forall k :: 0 < k < |sp| ==> sp[k - 1].hi <= sp[k].lo)
  }

  /** Well-formed blocks fit both texts, and the last span, the dummy
      block's, starts at the end of each. */
  lemma {:induction false} WellFormedSpansFit(ms: seq<Block>, x: string, y: string)
    requires WellFormedBlocks(ms, |x|, |y|)
    ensures SpansFit(x, Spans(ms, SideA)) && SpansFit(y, Spans(ms, SideB))
    ensures Spans(ms, SideA)[|ms| - 1].lo == |x| && Spans(ms, SideB)[|ms| - 1].lo == |y|
  {
    var sa, sb := Spans(ms, SideA), Spans(ms, SideB);
    forall k | 0 <= k < |ms|
      ensures sa[k].lo <= sa[k].hi <= |x| && sb[k].lo <= sb[k].hi <= |y|
    {
      WellFormedBlocksInRange(ms, |x|, |y|, k);
    }
    forall k | 0 < k < |ms|
      ensures sa[k - 1].hi <= sa[k].lo && sb[k - 1].hi <= sb[k].lo
    {
      assert ms[k - 1].a + ms[k - 1].size <= ms[k].a && ms[k - 1].b + ms[k - 1].size <= ms[k].b;
    }
  }

  /** An entry of the `old` (or `new`) list of `parse_changed_line`: the
      colour key it is painted with and its text. */
  datatype Seg = Seg(style: Style, text: string)

  /** `''.join` of the entries, each painted by `colorstring`. */
  function Paint(segs: seq<Seg>): seq<Piece>
  {
    if |segs| == 0 then [] else ColorString(segs[0].style, segs[0].text) + Paint(segs[1..])
  }

  /** The texts of the entries, in order. */
  function SegText(segs: seq<Seg>): string
  {
    if |segs| == 0 then "" else segs[0].text + SegText(segs[1..])
  }

  predicate SegsAreLines(segs: seq<Seg>)
  {
    forall i :: 0 <= i < |segs| ==> IsLine(segs[i].text)
  }

  lemma {:induction false} SegsAreLinesRest(segs: seq<Seg>)
    requires |segs| > 0 && SegsAreLines(segs)
    ensures SegsAreLines(segs[1..]) && IsLine(segs[0].text)
  {
    var rest := segs[1..];
    forall i | 0 <= i < |rest|
      ensures IsLine(rest[i].text)
    {
      assert rest[i] == segs[i + 1];
    }
  }

  /** Painting keeps the text of the entries. */
  lemma {:induction false} PaintText(segs: seq<Seg>)
    requires SegsAreLines(segs)
    ensures Text(Paint(segs)) == SegText(segs)
  {
    if |segs| > 0 {
      var first, rest := segs[0], segs[1..];
      SegsAreLinesRest(segs);
      PaintText(rest);
      ColorStringText(first.style, first.text);
      TextAppend(ColorString(first.style, first.text), Paint(rest));
    }
  }

  /** The text of two runs of entries is the text of each. */
  lemma {:induction false} SegTextAppend(xs: seq<Seg>, ys: seq<Seg>)
    ensures SegText(xs + ys) == SegText(xs) + SegText(ys)
  {
    if |xs| == 0 {
      assert xs + ys == ys;
    } else {
      var rest := xs[1..];
      assert (xs + ys)[0] == xs[0] && (xs + ys)[1..] == rest + ys;
      calc {
        SegText(xs + ys);
        xs[0].text + SegText(rest + ys);
        { SegTextAppend(rest, ys); }
        xs[0].text + (SegText(rest) + SegText(ys));
        { Associate(xs[0].text, SegText(rest), SegText(ys)); }
        xs[0].text + SegText(rest) + SegText(ys);
        SegText(xs) + SegText(ys);
      }
    }
  }

  /** The text of two more entries. */
  lemma {:induction false} SegTextTwo(segs: seq<Seg>, x: Seg, y: Seg)
    ensures SegText(segs + [x, y]) == SegText(segs) + x.text + y.text
  {
    SegTextAppend(segs, [x, y]);
    assert [x, y][1..] == [y] && [y][1..] == [];
    assert SegText([y]) == y.text + SegText([]);
    assert SegText([x, y]) == x.text + y.text;
    Associate(SegText(segs), x.text, y.text);
  }

  /** The `old` (or `new`) list of `parse_changed_line` after `k` turns of
      its loop: the marker, the changed text before the first span, and for
      each of the first `k` spans its unchanged text followed by the
      changed text up to the next span. */
  function SideSegs(t: string, sp: seq<Span>, k: nat, side: Side): seq<Seg>
    requires k < |sp| && SpansFit(t, sp)
  {
    if k == 0 then
      [Seg(ChangedStyle(side), Marker(side)), Seg(ChangedStyle(side), t[..sp[0].lo])]
    else
      SideSegs(t, sp, k - 1, side) + Turn(t, sp[k - 1].lo, sp[k - 1].hi, sp[k].lo, side)
  }

  /** One turn of the loop of `parse_changed_line`: the unchanged text
      `t[lo..hi]` of a block, then the changed text up to `next`, where the
      next block starts. */
  function Turn(t: string, lo: nat, hi: nat, next: nat, side: Side): seq<Seg>
    requires lo <= hi <= next <= |t|
  {
    [Seg(SameStyle(side), t[lo..hi]), Seg(ChangedStyle(side), t[hi..next])]
  }

  /** The entries spell the marker and the text up to the start of span
      `k`. */
  lemma {:induction false} SideSegsText(t: string, sp: seq<Span>, k: nat, side: Side)
    requires k < |sp| && SpansFit(t, sp)
    ensures SegText(SideSegs(t, sp, k, side)) == Marker(side) + t[..sp[k].lo]
  {
    if k == 0 {
      var x, y := Seg(ChangedStyle(side), Marker(side)), Seg(ChangedStyle(side), t[..sp[0].lo]);
      SegTextTwo([], x, y);
      assert [] + [x, y] == [x, y];
    } else {
      var lo, hi, st := sp[k - 1].lo, sp[k - 1].hi, sp[k].lo;
      var x, y := Seg(SameStyle(side), t[lo..hi]), Seg(ChangedStyle(side), t[hi..st]);
      SideSegsText(t, sp, k - 1, side);
      SegTextTwo(SideSegs(t, sp, k - 1, side), x, y);
      Slices3(Marker(side), t, lo, hi, st);
      Associate(Marker(side) + t[..lo], t[lo..hi], t[hi..st]);
    }
  }

  lemma {:induction false} Slices3(p: string, t: string, lo: nat, hi: nat, st: nat)
    requires lo <= hi <= st <= |t|
    ensures p + t[..lo] + (t[lo..hi] + t[hi..st]) == p + t[..st]
  {
    assert t[..lo] + t[lo..hi] + t[hi..st] == t[..st];
  }

  /** Every entry cut from a line is a line. */
  lemma {:induction false} SideSegsLines(t: string, sp: seq<Span>, k: nat, side: Side)
    requires k < |sp| && SpansFit(t, sp) && IsLine(t)
    ensures SegsAreLines(SideSegs(t, sp, k, side))
  {
    if k == 0 {
      assert t[..sp[0].lo] == t[0..sp[0].lo];
      SliceIsLine(t, 0, sp[0].lo);
      assert IsLine(Marker(side));
    } else {
      var lo, hi, st := sp[k - 1].lo, sp[k - 1].hi, sp[k].lo;
      var front, x, y := SideSegs(t, sp, k - 1, side), Seg(SameStyle(side), t[lo..hi]), Seg(ChangedStyle(side), t[hi..st]);
      SideSegsLines(t, sp, k - 1, side);
      SliceIsLine(t, lo, hi);
      SliceIsLine(t, hi, st);
      SegsAreLinesTwo(front, x, y);
    }
  }

  lemma {:induction false} SegsAreLinesTwo(segs: seq<Seg>, x: Seg, y: Seg)
    requires SegsAreLines(segs) && IsLine(x.text) && IsLine(y.text)
    ensures SegsAreLines(segs + [x, y])
  {
    var all := segs + [x, y];
    forall i | 0 <= i < |all|
      ensures IsLine(all[i].text)
    {
      if i < |segs| {
        assert all[i] == segs[i];
      }
    }
  }

  /** Painted, the entries of one side spell the marker and the text up to
      the start of the last span. */
  lemma {:induction false} SideText(t: string, sp: seq<Span>, side: Side)
    requires 0 < |sp| && SpansFit(t, sp) && IsLine(t)
    ensures Text(Paint(SideSegs(t, sp, |sp| - 1, side))) == Marker(side) + t[..sp[|sp| - 1].lo]
  {
    SideSegsLines(t, sp, |sp| - 1, side);
    PaintText(SideSegs(t, sp, |sp| - 1, side));
    SideSegsText(t, sp, |sp| - 1, side);
  }

  /** Each further turn appends its two entries. */
  lemma {:induction false} SideSegsNext(t: string, sp: seq<Span>, k: nat, side: Side)
    requires k + 1 < |sp| && SpansFit(t, sp)
    ensures sp[k].lo <= sp[k].hi <= sp[k + 1].lo <= |t|
    ensures SideSegs(t, sp, k + 1, side) == SideSegs(t, sp, k, side) + Turn(t, sp[k].lo, sp[k].hi, sp[k + 1].lo, side)
  {
  }

  /** `s[1:]`. */
  function Tail(s: string): string
  {
    if |s| == 0 then "" else s[1..]
  }

  /** `parse_changed_line(oldtext, newtext)`, the pair `[old, new]` it
      returns, given the character matcher `f`. With a common run of at
      least five characters, both lines are cut at the matching blocks of
      at least three characters; otherwise each is coloured whole. */
  function ChangedLine(oldtext: string, newtext: string, f: (string, string) -> seq<Block>): (seq<Piece>, seq<Piece>)
    requires ValidCharMatcher(f)
  {
    var o, n := Tail(oldtext), Tail(newtext);
    var blocks := f(o, n);
    if MaxSize(blocks) >= 5 then
      var ms := KeepLong(blocks);
      KeepLongWellFormed(blocks, |o|, |n|);
      WellFormedSpansFit(ms, o, n);
      (Paint(SideSegs(o, Spans(ms, SideA), |ms| - 1, SideA)), Paint(SideSegs(n, Spans(ms, SideB), |ms| - 1, SideB)))
    else
      (ColorString(OldText, oldtext), ColorString(NewText, newtext))
  }

  lemma {:induction false} TailIs(s: string)
    requires |s| > 0
    ensures Tail(s) == s[1..]
  {
  }

  /** The two outputs of `parse_changed_line` spell the old and the new
      line exactly, whichever way they were cut. */
  lemma {:induction false} ChangedLineText(oldtext: string, newtext: string, f: (string, string) -> seq<Block>)
    requires ValidCharMatcher(f)
    requires IsLine(oldtext) && IsLine(newtext)
    requires |oldtext| > 0 && oldtext[0] == '-' && |newtext| > 0 && newtext[0] == '+'
    ensures Text(ChangedLine(oldtext, newtext, f).0) == oldtext
    ensures Text(ChangedLine(oldtext, newtext, f).1) == newtext
  {
    TailIs(oldtext);
    TailIs(newtext);
    var blocks := f(oldtext[1..], newtext[1..]);
    if MaxSize(blocks) >= 5 {
      KeepLongWellFormed(blocks, |oldtext| - 1, |newtext| - 1);
      CutText(oldtext, newtext, KeepLong(blocks));
    } else {
      WholeText(oldtext, newtext);
    }
  }

  lemma {:induction false} WholeText(oldtext: string, newtext: string)
    requires IsLine(oldtext) && IsLine(newtext)
    ensures Text(ColorString(OldText, oldtext)) == oldtext && Text(ColorString(NewText, newtext)) == newtext
  {
    ColorStringText(OldText, oldtext);
    ColorStringText(NewText, newtext);
  }

  /** Cut at any well-formed blocks, both sides spell their lines. */
  lemma {:induction false} CutText(oldtext: string, newtext: string, ms: seq<Block>)
    requires IsLine(oldtext) && IsLine(newtext)
    requires |oldtext| > 0 && oldtext[0] == '-' && |newtext| > 0 && newtext[0] == '+'
    requires WellFormedBlocks(ms, |oldtext| - 1, |newtext| - 1)
    ensures SpansFit(oldtext[1..], Spans(ms, SideA)) && SpansFit(newtext[1..], Spans(ms, SideB))
    ensures Text(Paint(SideSegs(oldtext[1..], Spans(ms, SideA), |ms| - 1, SideA))) == oldtext
    ensures Text(Paint(SideSegs(newtext[1..], Spans(ms, SideB), |ms| - 1, SideB))) == newtext
  {
    WellFormedSpansFit(ms, oldtext[1..], newtext[1..]);
    WholeSideText(oldtext, Spans(ms, SideA), SideA);
    WholeSideText(newtext, Spans(ms, SideB), SideB);
  }

  lemma {:induction false} WholeSideText(line: string, sp: seq<Span>, side: Side)
    requires |line| > 0 && line[0] == Marker(side)[0] && IsLine(line)
    requires 0 < |sp| && SpansFit(line[1..], sp) && sp[|sp| - 1].lo == |line| - 1
    ensures Text(Paint(SideSegs(line[1..], sp, |sp| - 1, side))) == line
  {
    SliceIsLine(line, 1, |line|);
    SideText(line[1..], sp, side);
    MarkerRest(line, side);
  }

  /** The marker and the rest of a marked line are the line. */
  lemma {:induction false} MarkerRest(line: string, side: Side)
    requires |line| > 0 && line[0] == Marker(side)[0]
    ensures Marker(side) + line[1..][..|line| - 1] == line
  {
    var t := line[1..];
    assert t[..|t|] == t;
    assert Marker(side) == line[..1];
    assert line[..1] + t == line;
  }

  /** The unchanged segments agree: the text painted "oldsame" for block
      `k` is the text painted "newsame" for it. */
  lemma {:induction false} ChangedLineSame(oldtext: string, newtext: string, f: (string, string) -> seq<Block>, k: nat)
    requires MatchingCharMatcher(f)
    requires k < |KeepLong(f(Tail(oldtext), Tail(newtext)))|
    ensures BlockMatches(Tail(oldtext), Tail(newtext), KeepLong(f(Tail(oldtext), Tail(newtext)))[k])
  {
    var o, n := Tail(oldtext), Tail(newtext);
    var blocks := f(o, n);
    var idx := KeepLongSource(blocks, k);
    assert BlockMatches(o, n, blocks[idx]);
  }

  /** The cutting loop of `parse_changed_line` on the texts without their
      markers: the entries of `old` and `new`, the marker and the text
      before the first kept block, then for each block its unchanged text
      and the changed text up to the next block, on both sides at once;
      joined, each entry painted. */
  method CutChanged(o: string, n: string, ms: seq<Block>) returns (oldOut: seq<Piece>, newOut: seq<Piece>)
    requires WellFormedBlocks(ms, |o|, |n|)
    ensures WellFormedBlocks(ms, |o|, |n|) && SpansFit(o, Spans(ms, SideA)) && SpansFit(n, Spans(ms, SideB))
    ensures oldOut == Paint(SideSegs(o, Spans(ms, SideA), |ms| - 1, SideA))
    ensures newOut == Paint(SideSegs(n, Spans(ms, SideB), |ms| - 1, SideB))
  {
    WellFormedSpansFit(ms, o, n);
    ghost var sa, sb := Spans(ms, SideA), Spans(ms, SideB);
    SpanAt(ms, 0);
    var olds := [Seg(OldText, "-"), Seg(OldText, o[..ms[0].a])];
    var news := [Seg(NewText, "+"), Seg(NewText, n[..ms[0].b])];
    for k := 0 to |ms| - 1
      invariant olds == SideSegs(o, sa, k, SideA)
      invariant news == SideSegs(n, sb, k, SideB)
    {
      SpanAt(ms, k);
      SpanAt(ms, k + 1);
      SideSegsNext(o, sa, k, SideA);
      SideSegsNext(n, sb, k, SideB);
      olds := olds + Turn(o, ms[k].a, ms[k].a + ms[k].size, ms[k + 1].a, SideA);
      news := news + Turn(n, ms[k].b, ms[k].b + ms[k].size, ms[k + 1].b, SideB);
    }
    oldOut, newOut := Paint(olds), Paint(news);
  }

  /** The `k`th handed line is the `k`th part with its newline, after the
      chunks pending at that point: the old ones first, none afterwards. */
  lemma {:induction false} HandedLineAt(chunks0: seq<string>, chunks: seq<string>, text: string, k: nat)
    requires k < |Split(text)| - 1 && chunks == if k == 0 then chunks0 else []
    ensures HandedLines(chunks0, text)[k] == Concat(chunks) + (Split(text)[k] + "\n")
  {
    assert Concat([]) == "";
  }

  lemma {:induction false} SpanAt(ms: seq<Block>, k: nat)
    requires k < |ms| && forall i :: 0 <= i < |ms| ==> 0 <= ms[i].size
    ensures Spans(ms, SideA)[k] == Span(ms[k].a, ms[k].a + ms[k].size)
    ensures Spans(ms, SideB)[k] == Span(ms[k].b, ms[k].b + ms[k].size)
  {
  }

  /** A line `_writeline` holds back: a removed line that is not a `---`
      file header. */
  predicate Holdable(line: string)
  {
    ParseLine(line) == OldText && !(|line| >= 3 && line[..3] == "---")
  }

  /** What the hold slot may contain: a holdable, newline-ended line. */
  predicate HoldOk(hold: Option<string>)
  {
    hold.Some? ==> Holdable(hold.value) && IsLine(hold.value) && EndsLine(hold.value)
  }

  function HoldText(hold: Option<string>): string
  {
    if hold.Some? then hold.value else ""
  }

  /** The held line, written out as removed text when the next line is
      not an added one. */
  function Released(hold: Option<string>): seq<Piece>
  {
    if hold.Some? then ColorString(OldText, hold.value) else []
  }

  /** One call of `_writeline(line)`: what it writes to the target and
      what it leaves in the hold slot. */
  function WriteLineStep(hold: Option<string>, line: string, f: (string, string) -> seq<Block>): (seq<Piece>, Option<string>)
    requires ValidCharMatcher(f)
  {
    if hold.Some? && ParseLine(line) == NewText then
      var (o, n) := ChangedLine(hold.value, line, f);
      (o + n, None)
    else
      if Holdable(line) then (Released(hold), Some(line))
      else (Released(hold) + ColorString(ParseLine(line), line), None)
  }

  /** `_writeline` holds back exactly the holdable lines that do not
      complete a changed pair, and never more than that one line; a line
      held before is written out, paired or released, by the next call. */
  lemma {:induction false} WriteLineHolds(hold: Option<string>, line: string, f: (string, string) -> seq<Block>)
    requires ValidCharMatcher(f)
    ensures WriteLineStep(hold, line, f).1.Some? <==> Holdable(line) && !(hold.Some? && ParseLine(line) == NewText)
    ensures WriteLineStep(hold, line, f).1.Some? ==> WriteLineStep(hold, line, f).1.value == line
    ensures hold.Some? && ParseLine(line) == NewText ==>
              WriteLineStep(hold, line, f).0 == ChangedLine(hold.value, line, f).0 + ChangedLine(hold.value, line, f).1
    ensures !(hold.Some? && ParseLine(line) == NewText) ==>
              WriteLineStep(hold, line, f).0[..|Released(hold)|] == Released(hold)
  {
  }

  /** `_writeline` loses and invents nothing: the text written plus the
      line now held is the line held before plus the new line. */
  lemma {:induction false} WriteLineText(hold: Option<string>, line: string, f: (string, string) -> seq<Block>)
    requires ValidCharMatcher(f) && HoldOk(hold) && IsLine(line) && EndsLine(line)
    ensures HoldOk(WriteLineStep(hold, line, f).1)
    ensures Text(WriteLineStep(hold, line, f).0) + HoldText(WriteLineStep(hold, line, f).1) == HoldText(hold) + line
  {
    var r := WriteLineStep(hold, line, f);
    if hold.Some? && ParseLine(line) == NewText {
      ChangedLineText(hold.value, line, f);
      TextAppend(ChangedLine(hold.value, line, f).0, ChangedLine(hold.value, line, f).1);
    } else {
      if hold.Some? {
        ColorStringText(OldText, hold.value);
      }
      assert Text(Released(hold)) == HoldText(hold);
      if !Holdable(line) {
        ColorStringText(ParseLine(line), line);
        TextAppend(Released(hold), ColorString(ParseLine(line), line));
      }
    }
  }

  /** `_writeline` applied to each of the first `n` of `lines` in turn:
      the pieces written and the line then held. */
  function Feed(hold: Option<string>, lines: seq<string>, n: nat, f: (string, string) -> seq<Block>): (seq<Piece>, Option<string>)
    requires ValidCharMatcher(f) && n <= |lines|
  {
    if n == 0 then ([], hold)
    else
      var prev := Feed(hold, lines, n - 1, f);
      var step := WriteLineStep(prev.1, lines[n - 1], f);
      (prev.0 + step.0, step.1)
  }

  /** Over any run of lines, the text written plus the line held spells
      the line held before plus the lines, in their order. */
  lemma {:induction false} FeedText(hold: Option<string>, lines: seq<string>, n: nat, f: (string, string) -> seq<Block>)
    requires ValidCharMatcher(f) && HoldOk(hold) && n <= |lines|
    requires AllLines(lines)
    ensures HoldOk(Feed(hold, lines, n, f).1)
    ensures Text(Feed(hold, lines, n, f).0) + HoldText(Feed(hold, lines, n, f).1) == HoldText(hold) + Concat(lines[..n])
  {
    if n > 0 {
      var line := lines[n - 1];
      FeedText(hold, lines, n - 1, f);
      var prev := Feed(hold, lines, n - 1, f);
      WriteLineText(prev.1, line, f);
      var step := WriteLineStep(prev.1, line, f);
      ConcatTake(lines, n);
      ChainText(prev.0, step.0, HoldText(prev.1), HoldText(step.1), HoldText(hold), Concat(lines[..n - 1]), line);
    }
  }

  /** Joining a run of lines one line longer. */
  lemma {:induction false} ConcatTake(lines: seq<string>, n: nat)
    requires 0 < n <= |lines|
    ensures Concat(lines[..n]) == Concat(lines[..n - 1]) + lines[n - 1]
  {
    assert lines[..n][..n - 1] == lines[..n - 1];
  }

  /** Text that was owed before a step and the text the step owes add up. */
  lemma {:induction false} ChainText(p: seq<Piece>, q: seq<Piece>, h0: string, h1: string, h: string, before: string, line: string)
    requires Text(p) + h0 == h + before
    requires Text(q) + h1 == h0 + line
    ensures Text(p + q) + h1 == h + (before + line)
  {
    TextAppend(p, q);
    calc {
      Text(p + q) + h1;
      (Text(p) + Text(q)) + h1;
      { Associate(Text(p), Text(q), h1); }
      Text(p) + (Text(q) + h1);
      Text(p) + (h0 + line);
      { Associate(Text(p), h0, line); }
      (Text(p) + h0) + line;
      (h + before) + line;
      { Associate(h, before, line); }
      h + (before + line);
    }
  }

  lemma {:induction false} Regroup(x: string, y: string, z: string, h: string, line: string, w: string)
    requires y + z == h + line && x + h == w
    ensures x + y + z == w + line
  {
    calc {
      x + y + z;
      x + (y + z);
      x + (h + line);
      (x + h) + line;
    }
  }

  /** What `_writeline` keeps true of the writer: at most one held line,
      of the kind it holds, every handed line newline-ended, and the output
      plus the held line exactly the lines handed so far. */
  ghost predicate LinesOk(written: seq<Piece>, hold: Option<string>, handed: seq<string>, f: (string, string) -> seq<Block>)
  {
    ValidCharMatcher(f) && HoldOk(hold) &&
    AllLines(handed) &&
    Text(written) + HoldText(hold) == Concat(handed)
  }

  /** The colour writer. `written` is what reached the target stream;
      `input` (all text passed to `write`) and `handed` (the lines passed
      to `_writeline`) exist only for the proofs. */
  class DiffWriter {
    const color: bool
    const charMatcher: (string, string) -> seq<Block>
    var chunks: seq<string>
    var hold: Option<string>
    var written: seq<Piece>
    ghost var input: string
    ghost var handed: seq<string>

    /** In colour mode the handed lines followed by the pending chunks
        spell everything written, and no chunk holds a newline; with
        colour off the text reaches the target unchanged. */
    ghost predicate Valid()
      reads this
    {
      ValidCharMatcher(charMatcher) &&
      (color ==> ColorInvariant(chunks, hold, written, input, handed, charMatcher)) &&
      (!color ==> chunks == [] && hold == None && handed == [] && Text(written) == input)
    }

    constructor(color: bool, charMatcher: (string, string) -> seq<Block>)
      requires ValidCharMatcher(charMatcher)
      ensures Valid()
      ensures this.color == color && this.charMatcher == charMatcher
      ensures chunks == [] && hold == None && written == [] && input == "" && handed == []
    {
      this.color := color;
      this.charMatcher := charMatcher;
      chunks := [];
      hold := None;
      written := [];
      input := "";
      handed := [];
    }

    /** `parse_changed_line(oldtext, newtext)`: builds the two outputs
        with a loop over the kept blocks. */
    method ParseChangedLine(oldtext: string, newtext: string) returns (oldOut: seq<Piece>, newOut: seq<Piece>)
      requires ValidCharMatcher(charMatcher)
      ensures (oldOut, newOut) == ChangedLine(oldtext, newtext, charMatcher)
    {
      var o, n := Tail(oldtext), Tail(newtext);
      var blocks := charMatcher(o, n);
      if MaxSize(blocks) >= 5 {
        var ms := KeepLong(blocks);
        KeepLongWellFormed(blocks, |o|, |n|);
        oldOut, newOut := CutChanged(o, n, ms);
      } else {
        oldOut := ColorString(OldText, oldtext);
        newOut := ColorString(NewText, newtext);
      }
    }

    /** `_writeline(line)`. */
    method WriteLine(line: string)
      requires ValidCharMatcher(charMatcher) && HoldOk(hold) && IsLine(line) && EndsLine(line)
      modifies this
      ensures HoldOk(hold)
      ensures handed == old(handed) + [line]
      ensures written == old(written) + WriteLineStep(old(hold), line, charMatcher).0
      ensures hold == WriteLineStep(old(hold), line, charMatcher).1
      ensures chunks == old(chunks) && input == old(input)
    {
      WriteLineText(hold, line, charMatcher);
      ghost var step := WriteLineStep(hold, line, charMatcher);
      ghost var released := Released(hold);
      var lineType := ParseLine(line);
      var output: seq<Piece> := [];
      if hold.Some? {
        if lineType == NewText {
          var o, n := ParseChangedLine(hold.value, line);
          output := o + n;
          assert o == ChangedLine(hold.value, line, charMatcher).0;
          assert n == ChangedLine(hold.value, line, charMatcher).1;
          written := written + output;
          hold := None;
          handed := handed + [line];
          return;
        } else {
          EmptyAppend(ColorString(OldText, hold.value));
          output := output + ColorString(OldText, hold.value);
        }
        hold := None;
      }
      assert output == released;
      if lineType == OldText && !(|line| >= 3 && line[..3] == "---") {
        hold := Some(line);
        assert output == step.0;
      } else {
        output := output + ColorString(lineType, line);
        assert output == step.0;
      }
      written := written + output;
      handed := handed + [line];
    }

    /** `write(text)`, with the part after the last newline appended to
        the pending chunks. */
    method Write(text: string)
      requires Valid()
      modifies this
      ensures Valid()
      ensures input == old(input) + text
      ensures color ==> handed == old(handed) + HandedLines(old(chunks), text)
      ensures color ==> chunks == PendingAfterWrite(old(chunks), text)
      ensures color ==> var ls := HandedLines(old(chunks), text);
                written == old(written) + Feed(old(hold), ls, |ls|, charMatcher).0 &&
                hold == Feed(old(hold), ls, |ls|, charMatcher).1
      ensures !color ==> written == old(written) + [Piece(None, None, text)]
    {
      if color {
        var parts := HandOn(text);
        WriteKeepsInvariant(old(chunks), old(hold), old(written), old(input), old(handed), charMatcher, text);
        chunks := chunks + [parts[|parts| - 1]];
        input := input + text;
      } else {
        written := written + [Piece(None, None, text)];
        input := input + text;
        assert written[..|written| - 1] == old(written);
      }
    }

    /** The loop of `write`: each part of `text` but the last, completed
        with a newline (the first also with the pending chunks), is handed
        to `_writeline`; the chunks are emptied once a line is handed. */
    method HandOn(text: string) returns (parts: seq<string>)
      requires ValidCharMatcher(charMatcher) && HoldOk(hold) && NoNewlines(chunks)
      modifies this
      ensures parts == Split(text)
      ensures handed == old(handed) + HandedLines(old(chunks), text)
      ensures chunks == if |parts| == 1 then old(chunks) else []
      ensures var ls := HandedLines(old(chunks), text);
                written == old(written) + Feed(old(hold), ls, |ls|, charMatcher).0 &&
                hold == Feed(old(hold), ls, |ls|, charMatcher).1
      ensures input == old(input)
    {
      parts := Split(text);
      ghost var lines := HandedLines(chunks, text);
      HandedLinesAreLines(chunks, text);
      for k := 0 to |parts| - 1
        invariant HandedSoFar(lines, k, old(chunks), old(written), old(hold), old(handed), old(input))
      {
        HandedLineAt(old(chunks), chunks, text, k);
        var line := Concat(chunks) + (parts[k] + "\n");
        HandLine(line, lines, k, old(chunks), old(written), old(hold), old(handed), old(input));
      }
      assert lines[..|parts| - 1] == lines;
    }

    /** The state of `write`'s loop after the first `k` handed lines: they
        are fed through `_writeline` and the chunks are emptied once one
        is handed. */
    ghost predicate HandedSoFar(lines: seq<string>, k: nat, c0: seq<string>, w0: seq<Piece>,
                                h0: Option<string>, hd0: seq<string>, i0: string)
      reads this
    {
      && ValidCharMatcher(charMatcher) && k <= |lines| && HoldOk(hold)
      && handed == hd0 + lines[..k]
      && chunks == (if k == 0 then c0 else [])
      && written == w0 + Feed(h0, lines, k, charMatcher).0
      && hold == Feed(h0, lines, k, charMatcher).1
      && input == i0
    }

    /** One turn of `write`'s loop: `_writeline` on the `k`th handed line
        carries the writer from the first `k` lines fed to the first
        `k + 1`, and the chunks are emptied. */
    method HandLine(line: string, ghost lines: seq<string>, ghost k: nat, ghost c0: seq<string>,
                    ghost w0: seq<Piece>, ghost h0: Option<string>, ghost hd0: seq<string>, ghost i0: string)
      requires ValidCharMatcher(charMatcher) && k < |lines| && line == lines[k] && IsLine(line) && EndsLine(line)
      requires HandedSoFar(lines, k, c0, w0, h0, hd0, i0)
      modifies this
      ensures HandedSoFar(lines, k + 1, c0, w0, h0, hd0, i0)
    {
      ghost var before := Feed(h0, lines, k, charMatcher);
      WriteLine(line);
      ghost var step := WriteLineStep(before.1, line, charMatcher);
      assert Feed(h0, lines, k + 1, charMatcher) == (before.0 + step.0, step.1);
      Associate(w0, before.0, step.0);
      TakeOneMore(lines, k);
      Associate(hd0, lines[..k], [line]);
      chunks := [];
    }
  }

  /** What the colour writer keeps true between calls: the line invariant
      of `_writeline`, no newline in a pending chunk, and the handed lines
      followed by the pending chunks spelling all the text written. */
  ghost predicate ColorInvariant(chunks: seq<string>, hold: Option<string>, written: seq<Piece>, input: string,
                                 handed: seq<string>, f: (string, string) -> seq<Block>)
  {
    LinesOk(written, hold, handed, f) && NoNewlines(chunks) && Concat(handed) + Concat(chunks) == input
  }

  /** `write(text)` in colour mode keeps the invariant: after handing on
      the completed lines through `_writeline` and keeping the rest
      pending, it holds of the new state. */
  lemma {:induction false} WriteKeepsInvariant(chunks: seq<string>, hold: Option<string>, written: seq<Piece>, input: string,
                            handed: seq<string>, f: (string, string) -> seq<Block>, text: string)
    requires ColorInvariant(chunks, hold, written, input, handed, f)
    ensures var ls := HandedLines(chunks, text);
            var r := Feed(hold, ls, |ls|, f);
            ColorInvariant(PendingAfterWrite(chunks, text), r.1, written + r.0, input + text, handed + ls, f)
  {
    var ls := HandedLines(chunks, text);
    HandedLinesAreLines(chunks, text);
    FeedKeepsLines(written, hold, handed, ls, f);
    PendingAfterWriteKeeps(handed, chunks, input, text);
  }

  /** After `write`, the handed lines and the pending chunks still spell
      everything written, and no chunk holds a newline. */
  lemma {:induction false} PendingAfterWriteKeeps(handed: seq<string>, chunks: seq<string>, input: string, text: string)
    requires Concat(handed) + Concat(chunks) == input
    requires NoNewlines(chunks)
    ensures Concat(handed + HandedLines(chunks, text)) + Concat(PendingAfterWrite(chunks, text)) == input + text
    ensures NoNewlines(PendingAfterWrite(chunks, text))
  {
    var lines := HandedLines(chunks, text);
    WriteKeepsText(chunks, text);
    ConcatAppend(handed, lines);
    Regroup(Concat(handed), Concat(lines), Concat(PendingAfterWrite(chunks, text)), Concat(chunks), text, input);
  }

  /** Handing on a run of lines keeps the writer's line invariant. */
  lemma {:induction false} FeedKeepsLines(written: seq<Piece>, hold: Option<string>, handed: seq<string>, lines: seq<string>,
                       f: (string, string) -> seq<Block>)
    requires LinesOk(written, hold, handed, f)
    requires AllLines(lines)
    ensures LinesOk(written + Feed(hold, lines, |lines|, f).0, Feed(hold, lines, |lines|, f).1, handed + lines, f)
  {
    var r := Feed(hold, lines, |lines|, f);
    var all := handed + lines;
    FeedText(hold, lines, |lines|, f);
    assert lines[..|lines|] == lines;
    TextAppend(written, r.0);
    ConcatAppend(handed, lines);
    Regroup(Text(written), Text(r.0), HoldText(r.1), HoldText(hold), Concat(lines), Concat(handed));
    forall k | 0 <= k < |all|
      ensures IsLine(all[k]) && EndsLine(all[k])
    {
      if k < |handed| { assert all[k] == handed[k]; } else { assert all[k] == lines[k - |handed|]; }
    }
  }

  lemma {:induction false} TakeOneMore<T>(s: seq<T>, k: nat)
    requires k < |s|
    ensures s[..k + 1] == s[..k] + [s[k]] && s[..k + 1][..k] == s[..k] && s[..k + 1][k] == s[k]
  {
  }
}
