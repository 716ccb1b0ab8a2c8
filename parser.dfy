/** parse_data_string: the cleaned text is split into physical lines, joined
    into logical lines, stripped of the footer, and every remaining line that
    holds a colon becomes one key/value entry of the result. */
module Parser {
  import opened Text
  import opened ParenGroup
  import opened LogicalLines

  /** The key of a line that holds a colon: the text before the first colon,
      stripped. It holds no colon itself. */
  function Key(line: string): (k: string)
    requires ':' in line
    ensures ':' !in k
  {
    var before := SplitOnce(line, ':')[0];
    StripSlice(before);
    Strip(before)
  }

  /** The value of a line that holds a colon, taken from the text after the
      first colon. */
  function Value(line: string): string
    requires ':' in line
  {
    ExtractValue(SplitOnce(line, ':')[1])
  }

  /** Reference definition of the dictionary built from the data lines: each
      line that holds a colon sets its key to its value, in order, so that a
      later line overwrites an earlier one with the same key; other lines
      leave it unchanged. */
  function Entries(lines: seq<string>): map<string, string>
  {
    if |lines| == 0 then map[]
    else
      var last := lines[|lines| - 1];
      var earlier := Entries(lines[..|lines| - 1]);
      if ':' in last then earlier[Key(last) := Value(last)] else earlier
  }

  /** The keys of the dictionary are exactly the keys of the lines that hold
      a colon; a line without a colon contributes nothing. */
  lemma {:induction false} EntriesKeys(lines: seq<string>, k: string)
    ensures k in Entries(lines) <==> exists line :: line in lines && ':' in line && Key(line) == k
    decreases |lines|
  {
    if |lines| > 0 {
      var init, last := lines[..|lines| - 1], lines[|lines| - 1];
      assert lines == init + [last];
      EntriesKeys(init, k);
      if k in Entries(lines) {
        if ':' in last && Key(last) == k {
          assert last in lines;
        } else {
          var line :| line in init && ':' in line && Key(line) == k;
          assert line in lines;
        }
      }
      if exists line :: line in lines && ':' in line && Key(line) == k {
        var line :| line in lines && ':' in line && Key(line) == k;
        if line != last {
          assert line in init;
        }
      }
    }
  }

  /** The value stored under a key is that of the last line with that key. */
  lemma {:induction false} EntriesLastWins(lines: seq<string>, j: nat)
    requires j < |lines| && ':' in lines[j]
    requires forall j' :: j < j' < |lines| && ':' in lines[j'] ==> Key(lines[j']) != Key(lines[j])
    ensures Key(lines[j]) in Entries(lines)
    ensures Entries(lines)[Key(lines[j])] == Value(lines[j])
    decreases |lines|
  {
    if j < |lines| - 1 {
      var init := lines[..|lines| - 1];
      assert init[j] == lines[j];
      forall j' | j < j' < |init| && ':' in init[j']
        ensures Key(init[j']) != Key(init[j])
      {
        assert init[j'] == lines[j'];
      }
      EntriesLastWins(init, j);
    }
  }

  /** The second loop of parse_data_string: each data line that holds a colon
      is split at its first colon; the key is the stripped text before it,
      the value the body of the first parenthesised group after it, or the
      stripped text after it when there is no such group. */
  method BuildDict(dataLines: seq<string>) returns (d: map<string, string>)
    ensures d == Entries(dataLines)
  {
    d := map[];
    for i := 0 to |dataLines|
      invariant d == Entries(dataLines[..i])
    {
      var line := dataLines[i];
      assert dataLines[..i + 1][..i] == dataLines[..i];
      if ':' in line {
        // With a colon in the line the split always yields two parts, so
        // indexing parts[1] is safe: the ValueError handler never runs.
        var parts := SplitOnce(line, ':');
        var key := Strip(parts[0]);
        var rest := parts[1];
        var value: string;
        match Search(rest) {
          case Some((open, close)) =>
            value := rest[open + 1..close];
          case None =>
            value := Strip(rest);
        }
        d := d[key := value];
      }
    }
    assert dataLines[..|dataLines|] == dataLines;
  }

  /** The logical lines of the input text. */
  function LinesOf(data: string): seq<string>
  {
    Logical(SplitLines(Strip(data)))
  }

  /** Reference definition of parse_data_string. */
  function Parse(data: string): map<string, string>
  {
    Entries(DropFooter(LinesOf(data)))
  }

  /** parse_data_string: strip the text, split it into lines, join the
      continuation lines, drop the footer and build the dictionary. */
  method ParseDataString(data: string) returns (d: map<string, string>)
    ensures d == Parse(data)
  {
    var cleaned := Strip(data);
    var lines := JoinContinuations(SplitLines(cleaned));
    var dataLines := DropFooter(lines);
    d := BuildDict(dataLines);
  }

  /** The keys of the result are exactly the keys of the logical lines that
      hold a colon and are not the footer. */
  lemma ParseKeys(data: string, k: string)
    ensures k in Parse(data) <==>
            exists line :: line in LinesOf(data) && !IsFooter(line) && ':' in line && Key(line) == k
  {
    var ls := LinesOf(data);
    EntriesKeys(DropFooter(ls), k);
    forall line
      ensures line in DropFooter(ls) <==> line in ls && !IsFooter(line)
    {
      DropFooterKeeps(ls, line);
    }
  }

  /** Filtering out the footer keeps a non-footer line, with the filtered
      lines before it in front and the filtered lines after it behind. */
  lemma DropFooterAround(ls: seq<string>, j: nat)
    requires j < |ls| && !IsFooter(ls[j])
    ensures DropFooter(ls) == DropFooter(ls[..j]) + [ls[j]] + DropFooter(ls[j + 1..])
  {
    var line, before, after := ls[j], ls[..j], ls[j + 1..];
    Around(ls, j);
    DropFooterAppend(before + [line], after);
    DropFooterAppend(before, [line]);
    assert DropFooter([line]) == [line];
  }

  /** Last-wins carried through the footer filter: the value stored under a
      key is that of the last line outside the footer with that key. */
  lemma EntriesDropFooterLastWins(ls: seq<string>, j: nat)
    requires j < |ls| && ':' in ls[j] && !IsFooter(ls[j])
    requires forall j' :: j < j' < |ls| && ':' in ls[j'] && !IsFooter(ls[j']) ==> Key(ls[j']) != Key(ls[j])
    ensures Key(ls[j]) in Entries(DropFooter(ls))
    ensures Entries(DropFooter(ls))[Key(ls[j])] == Value(ls[j])
  {
    DropFooterAround(ls, j);
    var dl := DropFooter(ls);
    var front, back := DropFooter(ls[..j]), DropFooter(ls[j + 1..]);
    var k := |front|;
    assert dl[k] == ls[j];
    forall j' | k < j' < |dl| && ':' in dl[j']
      ensures Key(dl[j']) != Key(dl[k])
    {
      AroundIndex(front, ls[j], back, j');
      LaterLineDiffers(ls, j, dl[j']);
    }
    EntriesLastWins(dl, k);
  }

  /** A line the footer filter keeps from after ls[j] is one of the later
      lines, so under the hypothesis of EntriesDropFooterLastWins its key
      differs. */
  lemma LaterLineDiffers(ls: seq<string>, j: nat, x: string)
    requires j < |ls| && ':' in ls[j]
    requires forall j' :: j < j' < |ls| && ':' in ls[j'] && !IsFooter(ls[j']) ==> Key(ls[j']) != Key(ls[j])
    requires x in DropFooter(ls[j + 1..]) && ':' in x
    ensures Key(x) != Key(ls[j])
  {
    var after := ls[j + 1..];
    DropFooterKeeps(after, x);
    var m :| 0 <= m < |after| && after[m] == x;
    assert ls[j + 1 + m] == x;
  }

  /** The value stored under a key is that of the last logical line, outside
      the footer, that holds a colon and has that key. */
  lemma ParseLastWins(data: string, j: nat)
    ensures var ls := LinesOf(data);
            j < |ls| && ':' in ls[j] && !IsFooter(ls[j]) &&
            (forall j' :: j < j' < |ls| && ':' in ls[j'] && !IsFooter(ls[j']) ==> Key(ls[j']) != Key(ls[j])) ==>
              Key(ls[j]) in Parse(data) && Parse(data)[Key(ls[j])] == Value(ls[j])
  {
    var ls := LinesOf(data);
    if j < |ls| && ':' in ls[j] && !IsFooter(ls[j]) &&
       forall j' :: j < j' < |ls| && ':' in ls[j'] && !IsFooter(ls[j']) ==> Key(ls[j']) != Key(ls[j])
    {
      EntriesDropFooterLastWins(ls, j);
    }
  }

  /** Empty or all-whitespace input yields an empty dictionary. */
  lemma ParseBlank(data: string)
    requires AllSpace(data)
    ensures Parse(data) == map[]
  {
    StripSlice(data);
  }
}
