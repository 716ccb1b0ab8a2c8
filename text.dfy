/** String primitives with the meaning Python's `str` methods give them,
    restricted to what parse_data_string uses: isspace, strip, startswith,
    splitlines (with '\n' as the only line boundary) and split(sep, 1). */
module Text {

  datatype Option<T> = None | Some(value: T)

  /** Python's str.isspace() on one character: the ASCII controls
      \t \n \x0b \x0c \r, the separators \x1c-\x1f, the space, and the
      Unicode spaces and line/paragraph separators. */
  predicate IsSpace(c: char)
  {
    || c == ' '
    || ('\t' <= c <= '\r')
    || ('\U{1C}' <= c <= '\U{1F}')
    || c == '\U{85}' || c == '\U{A0}' || c == '\U{1680}'
    || ('\U{2000}' <= c <= '\U{200A}')
    || c == '\U{2028}' || c == '\U{2029}' || c == '\U{202F}' || c == '\U{205F}' || c == '\U{3000}'
  }

  /** Every character of s[lo..hi] is whitespace. */
  predicate SpaceBetween(s: string, lo: nat, hi: nat)
    requires lo <= hi <= |s|
  {
    forall i :: lo <= i < hi ==> IsSpace(s[i])
  }

  predicate AllSpace(s: string)
  {
    SpaceBetween(s, 0, |s|)
  }

  /** The first index at or after i that does not hold whitespace (|s| when
      there is none). */
  function SkipSpace(s: string, i: nat): (j: nat)
    requires i <= |s|
    ensures i <= j <= |s|
    decreases |s| - i
  {
    if i == |s| || !IsSpace(s[i]) then i else SkipSpace(s, i + 1)
  }

  lemma {:induction false} SkipSpaceStops(s: string, i: nat)
    requires i <= |s|
    ensures SpaceBetween(s, i, SkipSpace(s, i))
    ensures SkipSpace(s, i) == |s| || !IsSpace(s[SkipSpace(s, i)])
    decreases |s| - i
  {
    if i < |s| && IsSpace(s[i]) {
      SkipSpaceStops(s, i + 1);
    }
  }

  /** The last index at or before j that is not preceded by whitespace: the
      end of s[..j] without its trailing whitespace. */
  function TrimEnd(s: string, j: nat): (e: nat)
    requires j <= |s|
    ensures e <= j
  {
    if j == 0 || !IsSpace(s[j - 1]) then j else TrimEnd(s, j - 1)
  }

  lemma {:induction false} TrimEndStops(s: string, j: nat)
    requires j <= |s|
    ensures SpaceBetween(s, TrimEnd(s, j), j)
    ensures TrimEnd(s, j) == 0 || !IsSpace(s[TrimEnd(s, j) - 1])
  {
    if j > 0 && IsSpace(s[j - 1]) {
      TrimEndStops(s, j - 1);
    }
  }

  /** Python's s.strip(): s with the whitespace at both of its ends removed. */
  function Strip(s: string): string
  {
    var a, e := SkipSpace(s, 0), TrimEnd(s, |s|);
    if e <= a then [] else s[a..e]
  }

  /** What Strip leaves: the slice of s that starts after its leading
      whitespace and is followed only by whitespace. It is empty exactly when
      s is all whitespace, and otherwise starts and ends with a non-space. */
  lemma StripSlice(s: string)
    ensures var a := SkipSpace(s, 0);
            && SpaceBetween(s, 0, a)
            && a + |Strip(s)| <= |s|
            && Strip(s) == s[a..a + |Strip(s)|]
            && SpaceBetween(s, a + |Strip(s)|, |s|)
    ensures |Strip(s)| == 0 <==> AllSpace(s)
    ensures |Strip(s)| == 0 || (!IsSpace(Strip(s)[0]) && !IsSpace(Strip(s)[|Strip(s)| - 1]))
  {
    var a, e := SkipSpace(s, 0), TrimEnd(s, |s|);
    SkipSpaceStops(s, 0);
    TrimEndStops(s, |s|);
    if a < |s| {
      assert !IsSpace(s[a]);
      assert a < e;
      var r := s[a..e];
      assert Strip(s) == r;
      assert !IsSpace(r[0]) && !IsSpace(r[|r| - 1]);
    } else {
      assert |Strip(s)| == 0;
    }
  }

  /** Python's s.startswith(prefix). */
  predicate StartsWith(s: string, prefix: string)
  {
    |prefix| <= |s| && s[..|prefix|] == prefix
  }

  /** Index of the first c in s, or |s| when s holds no c. */
  function IndexOf(s: string, c: char): (k: nat)
    ensures k <= |s|
    ensures k < |s| ==> s[k] == c
    ensures forall i :: 0 <= i < k ==> s[i] != c
  {
    if |s| == 0 || s[0] == c then 0 else 1 + IndexOf(s[1..], c)
  }

  /** Python's s.split(sep, 1): one part when sep does not occur, otherwise
      the text before the first sep and the text after it. */
  function SplitOnce(s: string, sep: char): (parts: seq<string>)
    ensures sep !in s ==> parts == [s]
    ensures sep in s ==> |parts| == 2 && s == parts[0] + [sep] + parts[1] && sep !in parts[0]
  {
    var k := IndexOf(s, sep);
    if k == |s| then [s] else [s[..k], s[k + 1..]]
  }

  /** Python's s.splitlines() when '\n' is the only line boundary: the pieces
      between newlines, with no empty piece after a final newline. */
  function SplitLines(s: string): (lines: seq<string>)
    ensures |s| == 0 <==> |lines| == 0
    ensures forall i :: 0 <= i < |lines| ==> '\n' !in lines[i]
    decreases |s|
  {
    if |s| == 0 then []
    else
      var k := IndexOf(s, '\n');
      if k == |s| then [s] else [s[..k]] + SplitLines(s[k + 1..])
  }

  /** "\n".join(lines): the partner of SplitLines. */
  function JoinLines(lines: seq<string>): string
  {
    if |lines| == 0 then []
    else if |lines| == 1 then lines[0]
    else lines[0] + "\n" + JoinLines(lines[1..])
  }

  /** Joining the pieces of a text that does not end in a newline gives the text back. */
  lemma {:induction false} JoinSplitLines(s: string)
    requires |s| == 0 || s[|s| - 1] != '\n'
    ensures JoinLines(SplitLines(s)) == s
    decreases |s|
  {
    if |s| > 0 {
      var k := IndexOf(s, '\n');
      if k < |s| {
        var rest := s[k + 1..];
        JoinSplitLines(rest);
        JoinCons(s[..k], SplitLines(rest));
        assert s == s[..k] + [s[k]] + s[k + 1..];
      }
    }
  }

  /** Joining a line before a non-empty list puts one newline between them. */
  lemma JoinCons(head: string, tail: seq<string>)
    requires |tail| > 0
    ensures JoinLines([head] + tail) == head + "\n" + JoinLines(tail)
  {
    assert ([head] + tail)[1..] == tail;
  }

  /** Splitting the join of newline-free lines, the last one non-empty, gives the lines back. */
  lemma {:induction false} SplitJoinLines(lines: seq<string>)
    requires |lines| > 0 && |lines[|lines| - 1]| > 0
    requires forall i :: 0 <= i < |lines| ==> '\n' !in lines[i]
    ensures SplitLines(JoinLines(lines)) == lines
    decreases |lines|
  {
    var s := JoinLines(lines);
    if |lines| == 1 {
      assert IndexOf(s, '\n') == |s|;
    } else {
      var rest := JoinLines(lines[1..]);
      assert s == lines[0] + "\n" + rest;
      var k := IndexOf(s, '\n');
      assert s[|lines[0]|] == '\n';
      assert k == |lines[0]|;
      assert s[..k] == lines[0];
      assert s[k + 1..] == rest;
      SplitJoinLines(lines[1..]);
    }
  }
}
