/** The first half of parse_data_string: the physical lines of the cleaned
    text become logical lines (continuation lines glued onto the line before
    them), and the footer line is dropped. */
module LogicalLines {
  import opened Text

  /** A physical line that starts with a space continues the logical line
      before it. */
  predicate IsContinuation(line: string)
  {
    StartsWith(line, " ")
  }

  /** The footer that the widget text ends with. */
  const FOOTER: string := "Powered By"

  predicate IsFooter(line: string)
  {
    StartsWith(line, FOOTER)
  }

  /** What the joining loop looks at in a physical line: whether it is a
      continuation, and its text with surrounding whitespace stripped. */
  datatype Line = Line(continues: bool, text: string)

  function Classify(p: seq<string>): seq<Line>
  {
    seq(|p|, k requires 0 <= k < |p| => Line(IsContinuation(p[k]), Strip(p[k])))
  }

  /** The texts of a group glued together, with no separator. */
  function Glue(group: seq<Line>): string
  {
    if |group| == 0 then [] else Glue(group[..|group| - 1]) + group[|group| - 1].text
  }

  /** The first index at or after i that holds no continuation line (|ls| when
      there is none): the end of the group that ls[i - 1] heads. */
  function GroupEnd(ls: seq<Line>, i: nat): (e: nat)
    requires 1 <= i <= |ls|
    ensures i <= e <= |ls|
    ensures forall k :: i <= k < e ==> ls[k].continues
    ensures e < |ls| ==> !ls[e].continues
    decreases |ls| - i
  {
    if i < |ls| && ls[i].continues then GroupEnd(ls, i + 1) else i
  }

  /** [s], or nothing when s is empty. */
  function NonEmpty(s: string): seq<string>
  {
    if |s| == 0 then [] else [s]
  }

  /** Reference definition of the logical lines: the first line and each later
      one that is not a continuation head a group that runs up to the next
      such line; a group yields its glued text, or nothing when that text is
      empty. */
  function Groups(ls: seq<Line>): seq<string>
    decreases |ls|
  {
    if |ls| == 0 then []
    else
      var e := GroupEnd(ls, 1);
      NonEmpty(Glue(ls[..e])) + Groups(ls[e..])
  }

  /** The logical lines of a sequence of physical lines. */
  function Logical(p: seq<string>): seq<string>
  {
    Groups(Classify(p))
  }

  lemma {:induction false} GroupEndAppend(a: seq<Line>, b: seq<Line>, i: nat)
    requires 1 <= i <= |a|
    requires |b| == 0 || !b[0].continues
    ensures GroupEnd(a + b, i) == GroupEnd(a, i)
    decreases |a| - i
  {
    if i < |a| {
      assert (a + b)[i] == a[i];
      if a[i].continues {
        GroupEndAppend(a, b, i + 1);
      }
    } else if |b| > 0 {
      assert (a + b)[i] == b[0];
    }
  }

  /** A line that is not a continuation starts a new logical line: the
      logical lines of a + b are those of a followed by those of b. */
  lemma {:induction false} GroupsAppend(a: seq<Line>, b: seq<Line>)
    requires |a| == 0 || |b| == 0 || !b[0].continues
    ensures Groups(a + b) == Groups(a) + Groups(b)
    decreases |a|
  {
    if |a| == 0 {
      assert a + b == b;
    } else if |b| == 0 {
      assert a + b == a;
    } else {
      var e := GroupEnd(a, 1);
      GroupEndAppend(a, b, 1);
      SplitAppend(a, b, e);
      var head := NonEmpty(Glue(a[..e]));
      GroupsAppend(a[e..], b);
      assert Groups(a + b) == head + (Groups(a[e..]) + Groups(b));
      Associative(head, Groups(a[e..]), Groups(b));
    }
  }

  /** Slicing a + b inside a. Stated once so that proofs about Groups use
      it as one fact instead of re-deriving it from the sequence axioms. */
  lemma SplitAppend<T>(a: seq<T>, b: seq<T>, e: nat)
    requires e <= |a|
    ensures (a + b)[..e] == a[..e] && (a + b)[e..] == a[e..] + b
  {
  }

  /** Concatenation is associative (a single fact, for the same reason). */
  lemma Associative<T>(a: seq<T>, b: seq<T>, c: seq<T>)
    ensures (a + b) + c == a + (b + c)
  {
  }

  /** A sequence is what comes before index k, the element at k, and what
      follows (a single fact, for the same reason). */
  lemma Around<T>(s: seq<T>, k: nat)
    requires k < |s|
    ensures s == s[..k] + [s[k]] + s[k + 1..]
  {
  }

  /** Indexing into a + [y] + b: y sits at |a|, and b follows it. */
  lemma AroundIndex<T>(a: seq<T>, y: T, b: seq<T>, i: nat)
    requires |a| < i < |a| + 1 + |b|
    ensures (a + [y] + b)[|a|] == y && (a + [y] + b)[i] == b[i - |a| - 1]
  {
  }

  /** No logical line is empty: a group whose glued text is empty yields none. */
  lemma {:induction false} GroupsNonEmpty(ls: seq<Line>)
    ensures forall j :: 0 <= j < |Groups(ls)| ==> |Groups(ls)[j]| > 0
    decreases |ls|
  {
    if |ls| > 0 {
      var e := GroupEnd(ls, 1);
      GroupsNonEmpty(ls[e..]);
    }
  }

  /** A line followed only by continuation lines makes one logical line: the
      texts of all of them glued together with no separator (or no line at
      all when that text is empty). */
  lemma GroupsOfGroup(g: seq<Line>)
    requires |g| > 0
    requires forall k :: 1 <= k < |g| ==> g[k].continues
    ensures Groups(g) == NonEmpty(Glue(g))
  {
    assert GroupEnd(g, 1) == |g|;
    assert g[..|g|] == g;
  }

  /** Gluing a group is gluing its first line onto the rest: the texts follow
      one another with no separator. */
  lemma {:induction false} GlueCons(x: Line, rest: seq<Line>)
    ensures Glue([x] + rest) == x.text + Glue(rest)
    decreases |rest|
  {
    if |rest| == 0 {
      assert [x] + rest == [x];
      assert [x][..0] == [];
    } else {
      var init, last := rest[..|rest| - 1], rest[|rest| - 1];
      var whole := [x] + rest;
      assert whole[..|whole| - 1] == [x] + init;
      GlueCons(x, init);
      Associative(x.text, Glue(init), last.text);
    }
  }

  /** Closing the group that started at s and ends before i extends the
      logical lines of ls[..s] to those of ls[..i]. */
  lemma FlushGroup(ls: seq<Line>, s: nat, i: nat)
    requires s <= i <= |ls|
    requires s == 0 || (s < i && !ls[s].continues)
    requires forall k :: s < k < i ==> ls[k].continues
    ensures Groups(ls[..i]) == Groups(ls[..s]) + NonEmpty(Glue(ls[s..i]))
  {
    if s == i {
      assert ls[s..i] == [];
    } else {
      assert ls[..i] == ls[..s] + ls[s..i];
      GroupsAppend(ls[..s], ls[s..i]);
      GroupsOfGroup(ls[s..i]);
    }
  }

  lemma GlueSnoc(ls: seq<Line>, s: nat, i: nat)
    requires s <= i < |ls|
    ensures Glue(ls[s..i + 1]) == Glue(ls[s..i]) + ls[i].text
  {
    assert ls[s..i + 1][..i - s] == ls[s..i];
  }

  /** Classifying is done line by line. */
  lemma ClassifyAppend(a: seq<string>, b: seq<string>)
    ensures Classify(a + b) == Classify(a) + Classify(b)
  {
    assert forall k :: 0 <= k < |a| ==> (a + b)[k] == a[k];
    assert forall k :: |a| <= k < |a| + |b| ==> (a + b)[k] == b[k - |a|];
  }

  /** A physical line that does not start with a space starts a new logical
      line: the logical lines of a + b are those of a followed by those of b. */
  lemma LogicalAppend(a: seq<string>, b: seq<string>)
    requires |a| == 0 || |b| == 0 || !IsContinuation(b[0])
    ensures Logical(a + b) == Logical(a) + Logical(b)
  {
    ClassifyAppend(a, b);
    GroupsAppend(Classify(a), Classify(b));
  }

  /** A line followed by a continuation line makes one logical line, their
      stripped texts glued with no separator, or none when that is empty. */
  lemma ContinuationGlued(x: string, y: string)
    requires IsContinuation(y)
    ensures |Strip(x) + Strip(y)| > 0 ==> Logical([x, y]) == [Strip(x) + Strip(y)]
    ensures |Strip(x) + Strip(y)| == 0 ==> Logical([x, y]) == []
  {
    var ls := Classify([x, y]);
    assert ls[0].text == Strip(x) && ls[1] == Line(true, Strip(y));
    assert ls == [ls[0]] + [ls[1]];
    GroupsOfGroup(ls);
    GlueCons(ls[0], [ls[1]]);
    assert [ls[1]][..0] == [];
    assert Glue([ls[1]]) == Strip(y);
    assert Glue(ls) == Strip(x) + Strip(y);
    assert Groups(ls) == NonEmpty(Strip(x) + Strip(y));
  }

  /** The state of the joining loop after the first i lines: the current line
      glues the group that started at `start`, and `lines` holds the logical
      lines of everything before that group. */
  ghost predicate Joined(ls: seq<Line>, start: nat, i: nat, lines: seq<string>, current: string)
  {
    && start <= i <= |ls|
    && (start == 0 || (start < i && !ls[start].continues))
    && (forall k :: start < k < i ==> ls[k].continues)
    && current == Glue(ls[start..i])
    && lines == Groups(ls[..start])
  }

  lemma JoinedContinue(ls: seq<Line>, start: nat, i: nat, lines: seq<string>, current: string)
    requires Joined(ls, start, i, lines, current)
    requires i < |ls| && ls[i].continues
    ensures Joined(ls, start, i + 1, lines, current + ls[i].text)
  {
    GlueSnoc(ls, start, i);
  }

  lemma JoinedBreak(ls: seq<Line>, start: nat, i: nat, lines: seq<string>, current: string)
    requires Joined(ls, start, i, lines, current)
    requires i < |ls| && !ls[i].continues
    ensures Joined(ls, i, i + 1, if |current| > 0 then lines + [current] else lines, ls[i].text)
  {
    FlushGroup(ls, start, i);
    GlueSnoc(ls, i, i);
    assert lines + [] == lines;
  }

  lemma JoinedEnd(ls: seq<Line>, start: nat, lines: seq<string>, current: string)
    requires Joined(ls, start, |ls|, lines, current)
    ensures (if |current| > 0 then lines + [current] else lines) == Groups(ls)
  {
    FlushGroup(ls, start, |ls|);
    assert ls[..|ls|] == ls;
    assert lines + [] == lines;
  }

  /** The state of the joining loop after the first i lines, as (lines,
      current line, index of the line that started the current line). */
  ghost function Run(ls: seq<Line>, i: nat): (seq<string>, string, nat)
    requires i <= |ls|
  {
    if i == 0 then ([], "", 0)
    else
      var r := Run(ls, i - 1);
      var lines, current := r.0, r.1;
      if ls[i - 1].continues then (lines, current + ls[i - 1].text, r.2)
      else (if |current| > 0 then lines + [current] else lines, ls[i - 1].text, i - 1)
  }

  /** Every state the loop passes through is a joining state. */
  lemma {:induction false} RunJoined(ls: seq<Line>, i: nat)
    requires i <= |ls|
    ensures Joined(ls, Run(ls, i).2, i, Run(ls, i).0, Run(ls, i).1)
  {
    if i > 0 {
      RunJoined(ls, i - 1);
      if ls[i - 1].continues {
        RunContinue(ls, i);
      } else {
        RunBreak(ls, i);
      }
    }
  }

  /** One step of the loop over a continuation line keeps the joining state. */
  lemma RunContinue(ls: seq<Line>, i: nat)
    requires 0 < i <= |ls| && ls[i - 1].continues
    requires Joined(ls, Run(ls, i - 1).2, i - 1, Run(ls, i - 1).0, Run(ls, i - 1).1)
    ensures Joined(ls, Run(ls, i).2, i, Run(ls, i).0, Run(ls, i).1)
  {
    var r := Run(ls, i - 1);
    JoinedContinue(ls, r.2, i - 1, r.0, r.1);
    assert Run(ls, i) == (r.0, r.1 + ls[i - 1].text, r.2);
  }

  /** One step of the loop over a line that starts a new group keeps the
      joining state. */
  lemma RunBreak(ls: seq<Line>, i: nat)
    requires 0 < i <= |ls| && !ls[i - 1].continues
    requires Joined(ls, Run(ls, i - 1).2, i - 1, Run(ls, i - 1).0, Run(ls, i - 1).1)
    ensures Joined(ls, Run(ls, i).2, i, Run(ls, i).0, Run(ls, i).1)
  {
    var r := Run(ls, i - 1);
    JoinedBreak(ls, r.2, i - 1, r.0, r.1);
    assert Run(ls, i) == (if |r.1| > 0 then r.0 + [r.1] else r.0, ls[i - 1].text, i - 1);
  }

  /** The loop of parse_data_string that builds `lines`: a line that starts
      with a space is stripped and appended to the current line; any other
      line closes the current line (kept when non-empty) and starts a new one
      with its stripped text. */
  method JoinContinuations(physical: seq<string>) returns (lines: seq<string>)
    ensures lines == Logical(physical)
    ensures forall j :: 0 <= j < |lines| ==> |lines[j]| > 0
  {
    ghost var ls := Classify(physical);
    lines := [];
    var current := "";
    for i := 0 to |physical|
      invariant lines == Run(ls, i).0 && current == Run(ls, i).1
    {
      var line := physical[i];
      assert ls[i] == Line(IsContinuation(line), Strip(line));
      if IsContinuation(line) {
        current := current + Strip(line);
      } else {
        if |current| > 0 {
          lines := lines + [current];
        }
        current := Strip(line);
      }
    }
    RunJoined(ls, |ls|);
    JoinedEnd(ls, Run(ls, |ls|).2, lines, current);
    if |current| > 0 {
      lines := lines + [current];
    }
    GroupsNonEmpty(ls);
  }

  /** The comprehension that drops the footer: the lines, in order, that do
      not start with "Powered By". */
  function DropFooter(lines: seq<string>): seq<string>
  {
    if |lines| == 0 then []
    else (if IsFooter(lines[0]) then [] else [lines[0]]) + DropFooter(lines[1..])
  }

  /** A line is kept exactly when it is one of the input lines and does not
      start with "Powered By". */
  lemma {:induction false} DropFooterKeeps(lines: seq<string>, x: string)
    ensures x in DropFooter(lines) <==> x in lines && !IsFooter(x)
    decreases |lines|
  {
    if |lines| > 0 {
      var head: seq<string> := if IsFooter(lines[0]) then [] else [lines[0]];
      assert DropFooter(lines) == head + DropFooter(lines[1..]);
      assert lines == [lines[0]] + lines[1..];
      DropFooterKeeps(lines[1..], x);
    }
  }

  /** The footer filter keeps the order of the lines it keeps: filtering
      a + b is filtering a, then b. */
  lemma {:induction false} DropFooterAppend(a: seq<string>, b: seq<string>)
    ensures DropFooter(a + b) == DropFooter(a) + DropFooter(b)
    decreases |a|
  {
    if |a| == 0 {
      assert a + b == b;
    } else {
      var head: seq<string> := if IsFooter(a[0]) then [] else [a[0]];
      assert (a + b)[0] == a[0];
      assert (a + b)[1..] == a[1..] + b;
      assert DropFooter(a + b) == head + DropFooter(a[1..] + b);
      DropFooterAppend(a[1..], b);
      Associative(head, DropFooter(a[1..]), DropFooter(b));
    }
  }
}
