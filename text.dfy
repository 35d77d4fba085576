/** Character-level helpers the differs rely on: Python 2 byte-string
    whitespace, `strip`/`rstrip`, and joining lines with a separator. */
module Text {

  /** `str.isspace` on a Python 2 byte string: space, tab, newline,
      carriage return, vertical tab and form feed. */
  predicate IsSpace(c: char)
  {
    c == ' ' || c == '\t' || c == '\n' || c == '\r' || c as int == 11 || c as int == 12
  }

  /** Number of leading whitespace characters. */
  function LeadingSpace(s: string): (n: nat)
    ensures n <= |s|
    ensures forall t :: 0 <= t < n ==> IsSpace(s[t])
    ensures n < |s| ==> !IsSpace(s[n])
  {
    if |s| == 0 || !IsSpace(s[0]) then 0 else 1 + LeadingSpace(s[1..])
  }

  /** Number of trailing whitespace characters. */
  function TrailingSpace(s: string): (n: nat)
    ensures n <= |s|
    ensures forall t :: |s| - n <= t < |s| ==> IsSpace(s[t])
    ensures n < |s| ==> !IsSpace(s[|s| - n - 1])
  {
    if |s| == 0 || !IsSpace(s[|s| - 1]) then 0 else 1 + TrailingSpace(s[..|s| - 1])
  }

  /** `s.rstrip()`: `s` without its trailing whitespace. */
  function RStrip(s: string): string
  {
    if |s| == 0 || !IsSpace(s[|s| - 1]) then s else RStrip(s[..|s| - 1])
  }

  /** `rstrip` keeps the longest prefix of `s` that does not end in
      whitespace: only whitespace is dropped, and no more than that. */
  lemma {:induction false} RStripPrefix(s: string)
    ensures RStrip(s) <= s
    ensures forall t :: |RStrip(s)| <= t < |s| ==> IsSpace(s[t])
    ensures RStrip(s) != [] ==> !IsSpace(RStrip(s)[|RStrip(s)| - 1])
    decreases |s|
  {
    if |s| > 0 && IsSpace(s[|s| - 1]) {
      RStripPrefix(s[..|s| - 1]);
    }
  }

  /** `s.strip()`: `s` without its leading and trailing whitespace. */
  function Strip(s: string): (r: string)
    ensures exists i, j ::
              && 0 <= i <= j <= |s| && r == s[i..j]
              && (forall t :: 0 <= t < i ==> IsSpace(s[t]))
              && (forall t :: j <= t < |s| ==> IsSpace(s[t]))
    ensures r != [] ==> !IsSpace(r[0]) && !IsSpace(r[|r| - 1])
  {
    var i := LeadingSpace(s);
    var j := |s| - TrailingSpace(s[i..]);
    assert s[i..][..|s[i..]| - TrailingSpace(s[i..])] == s[i..j];
    s[i..j]
  }

  /** `sep.join(lines)`. */
  function Join(lines: seq<string>, sep: string): (r: string)
    ensures |lines| > 0 ==> |r| + |sep| == SumLengths(lines, |sep|)
    ensures |lines| == 0 ==> r == []
  {
    if |lines| == 0 then []
    else if |lines| == 1 then lines[0]
    else Join(lines[..|lines| - 1], sep) + sep + lines[|lines| - 1]
  }

  /** Sum over `lines` of each length plus `extra`: the offset just past the
      last separator when `lines` is joined with a separator of that length. */
  function SumLengths(lines: seq<string>, extra: nat): nat
  {
    if |lines| == 0 then 0 else SumLengths(lines[..|lines| - 1], extra) + |lines[|lines| - 1]| + extra
  }
}
