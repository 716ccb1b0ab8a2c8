/** The search re.search(r"\(([^)]+)\)", text) that parse_data_string runs on
    the text after a line's colon, written out as a scan instead of a regular
    expression engine. */
module ParenGroup {
  import opened Text

  /** The pattern matches at i, ending at j: '(' at i, ')' at j, and one or
      more characters between them, none of which is ')'. Group 1 is
      s[i + 1..j]. */
  predicate GroupAt(s: string, i: nat, j: nat)
  {
    i + 1 < j < |s| && s[i] == '(' && s[j] == ')' && forall k :: i < k < j ==> s[k] != ')'
  }

  /** Index of the first ')' at or after `from`, or |s| when there is none. */
  function CloseFrom(s: string, from: nat): (j: nat)
    requires from <= |s|
    ensures from <= j <= |s|
    ensures j < |s| ==> s[j] == ')'
    ensures forall k :: from <= k < j ==> s[k] != ')'
    decreases |s| - from
  {
    if from == |s| || s[from] == ')' then from else CloseFrom(s, from + 1)
  }

  /** The leftmost match that starts at or after `from`, as (start, end), or
      None when the pattern matches nowhere there. */
  function SearchFrom(s: string, from: nat): (m: Option<(nat, nat)>)
    requires from <= |s|
    ensures m.Some? ==> from <= m.value.0 && GroupAt(s, m.value.0, m.value.1)
    ensures m.Some? ==> forall i: nat, j: nat :: from <= i < m.value.0 ==> !GroupAt(s, i, j)
    ensures m.None? ==> forall i: nat, j: nat :: from <= i ==> !GroupAt(s, i, j)
    decreases |s| - from
  {
    if from == |s| then None
    else
      var close := CloseFrom(s, from + 1);
      if s[from] == '(' && from + 1 < close < |s| then Some((from, close))
      else SearchFrom(s, from + 1)
  }

  /** re.search over the whole text. */
  function Search(s: string): (m: Option<(nat, nat)>)
    ensures m.Some? ==> GroupAt(s, m.value.0, m.value.1)
    ensures m.Some? ==> forall i: nat, j: nat :: i < m.value.0 ==> !GroupAt(s, i, j)
    ensures m.None? ==> forall i: nat, j: nat :: !GroupAt(s, i, j)
  {
    SearchFrom(s, 0)
  }

  /** At most one match starts at a given index: it ends at the first ')'. */
  lemma GroupEndUnique(s: string, i: nat, j: nat, j': nat)
    requires GroupAt(s, i, j) && GroupAt(s, i, j')
    ensures j == j'
  {
  }

  /** The value parse_data_string stores for the text after a colon: group 1
      of the first match, or, when the pattern matches nowhere, the text
      stripped of surrounding whitespace. */
  function ExtractValue(rest: string): (v: string)
    ensures (forall i: nat, j: nat :: !GroupAt(rest, i, j)) ==> v == Strip(rest)
    ensures (exists i: nat, j: nat :: GroupAt(rest, i, j)) ==> |v| > 0 && ')' !in v
  {
    match Search(rest)
    case Some((i, j)) =>
      rest[i + 1..j]
    case None => Strip(rest)
  }

  /** When a match starts at i and none starts earlier, the value is the body
      of that match, between the '(' at i and the first ')' after it. */
  lemma ExtractValueLeftmost(rest: string, i: nat, j: nat)
    requires GroupAt(rest, i, j)
    requires forall i': nat, j': nat :: i' < i ==> !GroupAt(rest, i', j')
    ensures ExtractValue(rest) == rest[i + 1..j]
  {
  }
}
