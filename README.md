# parse_data_string of lut-gym-scraper, in Dafny

lut-gym-scraper reads the occupancy widget of a gym's web page and turns its
free-form text into a dictionary. The function that does the turning,
`parse_data_string` in main.py, works in four steps:

1. The text is stripped and split into physical lines. A line that starts
   with a space continues the logical line before it: it is stripped and
   glued on with no separator. Any other line closes the current logical
   line, which is kept only when it is non-empty, and starts a new one.
2. Logical lines that start with `Powered By` (the widget's footer) are
   dropped.
3. Each remaining line that holds a colon is split at its first colon. The
   key is the stripped text before it.
4. The value is the body of the first parenthesised group after the colon
   (the regular expression `\(([^)]+)\)`), or the stripped text after the
   colon when there is no such group. A later line overwrites an earlier one
   with the same key.

The model follows that structure:

- `text.dfy` (module `Text`): the Python string operations the function
  uses, with their Python meaning: `isspace` (the full set of characters
  Python treats as whitespace), `strip`, `startswith`, `split(':', 1)` and
  `splitlines`, the last with `'\n'` as the only line boundary.
- `paren_group.dfy` (module `ParenGroup`): the regular-expression search,
  written as a scan for the leftmost `(` whose next `)` is at least two
  characters later, and the value taken from it.
- `logical_lines.dfy` (module `LogicalLines`): the first loop, as the method
  `JoinContinuations`, proved equal to the reference function `Logical`, and
  the footer filter. The loop looks at two things in each physical line:
  whether it starts with a space and its stripped text. `Classify` records
  exactly those two in a `Line`, and the grouping into logical lines
  (`Groups`) is defined and reasoned about on those records.
- `parser.dfy` (module `Parser`): the second loop, as the method
  `BuildDict`, proved equal to the reference function `Entries`; the whole
  function as `ParseDataString`, proved equal to `Parse`; and the properties
  of the result.

The docstring of `parse_data_string` says it returns None when parsing
fails. The code never does: every path returns the dictionary, and the
`except ValueError` handler cannot be reached, because splitting a line
that holds a colon at its first colon always yields two parts. The model
follows the code. The result is a `map<string, string>`; indexing the second
part of the split in `BuildDict` is the proof obligation that stands for the
unreachable handler.

## Model

| member | source | states |
|---|---|---|
| Text.IsSpace | main.py:18 | reference definition of the characters `strip` removes: exactly those Python's `str.isspace` accepts |
| Text.Strip | main.py:18 | reference definition of `strip`, characterised by `StripSlice` |
| Text.StripSlice | main.py:18 | `strip` removes exactly the leading and the trailing whitespace: the result is the slice of the input that starts after an all-whitespace prefix and is followed only by whitespace; it is empty exactly when the input is all whitespace, and otherwise starts and ends with a non-space |
| Text.StartsWith | main.py:24 | reference definition of `startswith`: the prefix is no longer than the text and equals its first characters |
| Text.IndexOf | main.py:40 | the index found is that of the first occurrence of the character, or the length when it does not occur |
| Text.SplitOnce | main.py:40-52 | `split(':', 1)` gives the whole text when there is no colon; when there is one it gives exactly two parts, the first holding no colon, which with the colon between them rebuild the text, so the `ValueError` handler is unreachable |
| Text.SplitLines | main.py:23 | the pieces hold no newline, and there are none exactly when the text is empty |
| Text.JoinSplitLines | main.py:23 | for a text that does not end in a newline, joining its pieces with newlines gives the text back |
| Text.SplitJoinLines | main.py:23 | splitting the newline-join of newline-free lines, the last one non-empty, gives the lines back |
| LogicalLines.IsContinuation | main.py:24 | a physical line continues the logical line before it exactly when it starts with a space |
| LogicalLines.Logical | main.py:21-31 | reference definition of the logical lines: the physical lines classified by whether they start with a space and by their stripped text, grouped at each line that does not start with one |
| LogicalLines.GroupEnd | main.py:24-29 | the group headed by a line runs over the continuation lines after it and ends at the first line that does not start with a space |
| LogicalLines.GlueCons | main.py:25 | the stripped texts of a group are glued with no separator, the first line's before the rest |
| LogicalLines.GroupsOfGroup | main.py:24-29 | a line followed only by continuation lines makes a single logical line, their glued stripped texts, or none when that is empty |
| LogicalLines.GroupsAppend | main.py:26-29 | a line that is not a continuation starts a new group: the logical lines of a + b are those of a followed by those of b |
| LogicalLines.LogicalAppend | main.py:23-29 | the same for physical lines: when b's first line does not start with a space, the logical lines of a + b are those of a followed by those of b |
| LogicalLines.ContinuationGlued | main.py:24-31 | a line followed by a line that starts with a space makes one logical line, the two stripped texts glued with no separator, or no logical line when that glued text is empty |
| LogicalLines.GroupsNonEmpty | main.py:27-31 | no logical line is empty |
| LogicalLines.RunJoined | main.py:21-29 | every state the loop passes through keeps its invariant: `current_line` is the glued text of the group that began at the last line not starting with a space, and `lines` the logical lines before that group |
| LogicalLines.RunContinue | main.py:24-25 | a line that starts with a space keeps the invariant: its stripped text is glued onto `current_line` |
| LogicalLines.RunBreak | main.py:26-29 | any other line keeps the invariant: `current_line` is flushed to `lines` when non-empty and the line starts a new group |
| LogicalLines.JoinContinuations | main.py:21-31 | the joining loop yields exactly the logical lines of the physical lines, none of them empty |
| LogicalLines.IsFooter | main.py:34 | the footer is a line that starts with `Powered By` |
| LogicalLines.DropFooter | main.py:34 | reference definition of the footer filter, characterised by `DropFooterKeeps` and `DropFooterAppend` |
| LogicalLines.DropFooterKeeps | main.py:34 | a line is kept exactly when it is an input line that does not start with `Powered By` |
| LogicalLines.DropFooterAppend | main.py:34 | the filter works line by line and keeps order and multiplicity: filtering a + b gives the filtered a followed by the filtered b |
| ParenGroup.GroupAt | main.py:45 | reference definition of a match of `\(([^)]+)\)`: a `(` at i, a `)` at j, and one or more characters other than `)` between them |
| ParenGroup.CloseFrom | main.py:45 | the index found is that of the first `)` at or after the start, or the length when there is none |
| ParenGroup.SearchFrom | main.py:45 | a match found is a `(`, one or more characters other than `)`, and a `)`, and no match starts earlier; none is found only when there is no match |
| ParenGroup.Search | main.py:45 | the same for the whole text: the leftmost match, or none exactly when the pattern matches nowhere |
| ParenGroup.GroupEndUnique | main.py:45 | a match that starts at a given index ends at one place only |
| ParenGroup.ExtractValue | main.py:45-49 | with no match the value is the stripped text after the colon; with one it is non-empty and holds no `)` |
| ParenGroup.ExtractValueLeftmost | main.py:45-47 | when a match starts at i and none starts earlier, the value is the body of that match |
| Parser.Key | main.py:42-43 | a key holds no colon |
| Parser.Value | main.py:42-49 | reference definition of a line's value: `ExtractValue` of the text after its first colon |
| Parser.Entries | main.py:37-50 | reference definition of the dictionary: the lines that hold a colon set their key to their value in order, so a later line overwrites an earlier one |
| Parser.EntriesKeys | main.py:38-50 | the keys of the dictionary are exactly the keys of the lines that hold a colon; a line without a colon contributes nothing and no line with one is dropped |
| Parser.EntriesLastWins | main.py:50 | the value under a key is that of the last line with that key |
| Parser.BuildDict | main.py:37-50 | the second loop builds exactly the dictionary `Entries` of the data lines |
| Parser.Parse | main.py:7-54 | reference definition of the whole function: `Entries` of the logical lines of the stripped input, without the footer |
| Parser.ParseDataString | main.py:7-54 | the whole function yields exactly `Parse` of its input |
| Parser.ParseKeys | main.py:34-50 | the keys of the result are exactly the keys of the logical lines that hold a colon and do not start with `Powered By`; the footer contributes nothing |
| Parser.DropFooterAround | main.py:34 | filtering keeps a non-footer line in place: the filtered lines before it come in front of it and the filtered lines after it behind |
| Parser.EntriesDropFooterLastWins | main.py:34-50 | the value under a key is that of the last line with that key outside the footer |
| Parser.LaterLineDiffers | main.py:34 | when no later non-footer line with a colon has the key of line j, a colon-bearing line the footer filter keeps from the lines after j has a key different from line j's |
| Parser.ParseLastWins | main.py:7-54 | the value under a key in the result is that of the last logical line outside the footer that holds a colon and has that key |
| Parser.ParseBlank | main.py:18-54 | empty or all-whitespace input yields the empty dictionary |

## Left out

- `get_data_from_api` (main.py:57-82): an HTTP request, JSON decoding and an HTML lookup through BeautifulSoup; network I/O and foreign libraries. Only the text it hands to `parse_data_string` matters, and that text is the model's input.
- `scrape_website` (main.py:85-105): an HTTP request and a BeautifulSoup traversal that prints what it finds; it parses nothing itself.
- The module-level call (main.py:111) and every `print`: side effects only.
- Text.SplitLines: splits only at `'\n'`. Python's `splitlines` also breaks at `\r`, `\r\n`, `\x0b`, `\x0c`, `\x1c`-`\x1e`, `\x85`, U+2028 and U+2029, and those boundaries are not modelled.
- The insertion order of the dictionary: the result is a map.
- The `except ValueError` handler (main.py:51-52): not modelled as a branch, because it cannot be reached; the split's contract proves the two parts exist.
