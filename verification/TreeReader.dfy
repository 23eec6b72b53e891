/** Reading the first level of a file tree back from the text of a README (`_readme_parity.readme_tree_names`). */
module TreeReader {
  import opened Text
  import opened Words
  import opened Wrappers

  // ----- lines

  /** The characters that end a line for `str.splitlines`. */
  predicate IsBreak(c: char) {
    '\n' <= c <= '\r' || '\U{1C}' <= c <= '\U{1E}' || c == '\U{85}' || c == '\U{2028}' || c == '\U{2029}'
  }

  predicate OneLine(s: string) {
    forall i | 0 <= i < |s| :: !IsBreak(s[i])
  }

  function LineLength(s: string): (n: nat)
    ensures n <= |s| && OneLine(s[..n])
    ensures n < |s| ==> IsBreak(s[n])
  {
    if s == "" || IsBreak(s[0]) then 0
    else
      var n := LineLength(s[1..]);
      assert s[..1 + n] == [s[0]] + s[1..][..n];
      1 + n
  }

  /** `s.splitlines()`: a carriage return and the line feed after it are one break. */
  function SplitLines(s: string): seq<string>
    decreases |s|
  {
    if s == "" then []
    else
      var n := LineLength(s);
      if n == |s| then [s]
      else
        var next := if s[n] == '\r' && n + 1 < |s| && s[n + 1] == '\n' then n + 2 else n + 1;
        [s[..n]] + SplitLines(s[next..])
  }

  /** Every line with a line feed behind it. */
  function Terminated(lines: seq<string>): string {
    if lines == [] then "" else lines[0] + "\n" + Terminated(lines[1..])
  }

  lemma LineOfText(line: string, rest: string)
    requires OneLine(line)
    ensures LineLength(line + "\n" + rest) == |line|
  {
    var s := line + "\n" + rest;
    var n := LineLength(s);
    assert s[|line|] == '\n';
    assert forall i | 0 <= i < |line| :: s[i] == line[i];
    assert forall i | 0 <= i < n :: s[..n][i] == s[i];
  }

  lemma {:induction false} LinesOfTerminated(lines: seq<string>)
    requires forall i | 0 <= i < |lines| :: OneLine(lines[i])
    ensures SplitLines(Terminated(lines)) == lines
    decreases |lines|
  {
    hide SplitLines, OneLine;
    if lines == [] {
      NothingToSplit();
    } else {
      SplitOfLine(lines[0], Terminated(lines[1..]));
      LinesOfTerminated(lines[1..]);
    }
  }

  lemma NothingToSplit()
    ensures SplitLines("") == []
  {
  }

  lemma SplitOfLine(line: string, rest: string)
    requires OneLine(line)
    ensures SplitLines(line + "\n" + rest) == [line] + SplitLines(rest)
  {
    hide OneLine, LineLength;
    var s := line + "\n" + rest;
    LineOfText(line, rest);
    assert s[..|line|] == line && s[|line|] == '\n';
    assert s[|line| + 1..] == rest;
  }

  // ----- one row

  predicate IsRow(line: string) {
    |line| >= 4 && (line[0] == '├' || line[0] == '└') && line[1..4] == "── "
  }

  predicate InToken(c: char) {
    !IsSpace(c) && c != ','
  }

  /** How far a token reaches. */
  function TokenLength(s: string): (n: nat)
    ensures n <= |s| && (n < |s| ==> !InToken(s[n]))
    ensures forall i | 0 <= i < n :: InToken(s[i])
  {
    if s == "" || !InToken(s[0]) then 0 else 1 + TokenLength(s[1..])
  }

  /** The width of the separator that `s` starts with, 0 without one. */
  function SeparatorLength(s: string): (n: nat)
    ensures n <= |s|
  {
    if StartsWith(s, ", ") then 2 else if StartsWith(s, " / ") || StartsWith(s, " + ") then 3 else 0
  }

  /** The tokens that the row pattern matches from the start of `s`. A separator has a blank and a token has
      none, so splitting the match at its separators gives these. */
  function Tokens(s: string): seq<string>
    decreases |s|
  {
    var n := TokenLength(s);
    if n == 0 then [] else [s[..n]] + MoreTokens(s[n..])
  }

  /** The tokens behind a separator, if `rest` starts with one. */
  function MoreTokens(rest: string): seq<string>
    decreases |rest|
  {
    var gap := SeparatorLength(rest);
    if gap == 0 then [] else Tokens(rest[gap..])
  }

  /** Splits before every dot that follows a slash; the slash is dropped. */
  function DotParts(token: string): (parts: seq<string>)
    ensures parts != []
    decreases |token|
  {
    var i := DotSlash(token);
    if i == |token| then [token] else [token[..i]] + DotParts(token[i + 1..])
  }

  function DotSlash(token: string): (i: nat)
    ensures i <= |token|
    ensures i < |token| ==> i + 1 < |token| && token[i] == '/' && token[i + 1] == '.'
    ensures forall j | 0 <= j < i && j + 1 < |token| :: token[j] != '/' || token[j + 1] != '.'
  {
    if |token| < 2 then |token|
    else if token[0] == '/' && token[1] == '.' then 0
    else
      var i := 1 + DotSlash(token[1..]);
      assert forall j | 0 < j < i && j + 1 < |token| :: token[j] == token[1..][j - 1] && token[j + 1] == token[1..][j];
      i
  }

  function AllParts(tokens: seq<string>): seq<string> {
    if tokens == [] then [] else DotParts(tokens[0]) + AllParts(tokens[1..])
  }

  /** `"." in s.lstrip(".")` */
  predicate HasInnerDot(s: string) {
    exists i, j | 0 <= i < j < |s| :: s[i] != '.' && s[j] == '.'
  }

  /** `s.rsplit(".", 1)[0]` */
  function BeforeLastDot(s: string): string {
    if '.' !in s then s
    else if s[|s| - 1] == '.' then s[..|s| - 1]
    else BeforeLastDot(s[..|s| - 1])
  }

  /** A part without slashes at its end; an extension alone, as in `a.sh/.bat`, belongs to the previous name. */
  function Completed(part: string, previous: string): string {
    var bare := StripSlashes(part);
    if StartsWith(bare, ".") && HasInnerDot(previous) then BeforeLastDot(previous) + bare else bare
  }

  function NamesOf(parts: seq<string>, previous: string): set<string> {
    if parts == [] then {}
    else
      var part := Completed(parts[0], previous);
      (if Segment(part) == "" then {} else {Segment(part)}) + NamesOf(parts[1..], part)
  }

  /** The names in the text behind the branch of a row. */
  function NamesIn(s: string): set<string> {
    NamesOf(AllParts(Tokens(s)), "")
  }

  function RowNames(line: string): set<string> {
    if IsRow(line) then NamesIn(line[4..]) else {}
  }

  function NamesOfLines(lines: seq<string>): set<string> {
    if lines == [] then {} else NamesOfLines(lines[..|lines| - 1]) + RowNames(lines[|lines| - 1])
  }

  // ----- the reader

  method ReadRow(line: string) returns (names: set<string>)
    ensures names == RowNames(line)
  {
    names := {};
    if !IsRow(line) {
      return;
    }
    var parts := AllParts(Tokens(line[4..]));
    var previous := "";
    for i := 0 to |parts|
      invariant RowNames(line) == names + NamesOf(parts[i..], previous)
    {
      assert parts[i..][1..] == parts[i + 1..];
      var part := Completed(parts[i], previous);
      var first := Segment(part);
      if first != "" {
        names := names + {first};
      }
      previous := part;
    }
  }

  /** How many lines of a block are rows; `^` holds after a line feed only. */
  function RowCount(block: string): nat
    decreases |block|
  {
    var n := FeedAt(block);
    (if IsRow(block[..n]) then 1 else 0) + (if n == |block| then 0 else RowCount(block[n + 1..]))
  }

  function FeedAt(s: string): (n: nat)
    ensures n <= |s| && (n < |s| ==> s[n] == '\n') && forall i | 0 <= i < n :: s[i] != '\n'
  {
    if s == "" || s[0] == '\n' then 0 else 1 + FeedAt(s[1..])
  }

  /** What the reader answers: the names of the first block with the most rows, nothing when no block has a row. */
  predicate IsReading(blocks: seq<string>, r: Option<set<string>>) {
    match r
    case None => forall k | 0 <= k < |blocks| :: RowCount(blocks[k]) == 0
    case Some(names) =>
      exists k ::
        && 0 <= k < |blocks| && RowCount(blocks[k]) > 0 && names == NamesOfLines(SplitLines(blocks[k]))
        && (forall j | 0 <= j < k :: RowCount(blocks[j]) < RowCount(blocks[k]))
        && (forall j | k <= j < |blocks| :: RowCount(blocks[j]) <= RowCount(blocks[k]))
  }

  /** `readme_tree_names` over the code blocks of a README: the first block with the most rows is the tree. */
  method ReadTreeNames(blocks: seq<string>) returns (r: Option<set<string>>)
    ensures IsReading(blocks, r)
  {
    var best, bestRows := 0, 0;
    for i := 0 to |blocks|
      invariant bestRows > 0 ==> best < i && RowCount(blocks[best]) == bestRows
      invariant bestRows > 0 ==> forall j | 0 <= j < best :: RowCount(blocks[j]) < bestRows
      invariant forall j | 0 <= j < i :: RowCount(blocks[j]) <= bestRows
    {
      var rows := RowCount(blocks[i]);
      if rows > bestRows {
        best, bestRows := i, rows;
      }
    }
    if bestRows == 0 {
      return None;
    }
    var lines := SplitLines(blocks[best]);
    var names: set<string> := {};
    for i := 0 to |lines|
      invariant names == NamesOfLines(lines[..i])
    {
      assert lines[..i + 1][..i] == lines[..i];
      var found := ReadRow(lines[i]);
      names := names + found;
    }
    assert lines[..|lines|] == lines;
    r := Some(names);
  }
}
