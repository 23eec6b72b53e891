/** Reading the NUL-separated output of `git status --porcelain -z`. */
module Porcelain {
  import opened Wrappers
  import opened Text
  import opened Words

  /** A status line; a rename or a copy is followed by one more token, the old path. */
  datatype Row = Row(code: string, path: string, oldPath: Option<string>)

  predicate NoNul(s: string) {
    '\0' !in s
  }

  predicate Moved(code: string) {
    'R' in code || 'C' in code
  }

  /** What git writes; old paths may look like anything. */
  predicate WellFormed(r: Row) {
    && |r.code| == 2 && NoNul(r.code)
    && r.path != "" && NoNul(r.path)
    && (r.oldPath.Some? <==> 'R' in r.code || 'C' in r.code)
    && (r.oldPath.Some? ==> NoNul(r.oldPath.value))
  }

  predicate AllWellFormed(rows: seq<Row>) {
    forall i | 0 <= i < |rows| :: WellFormed(rows[i])
  }

  function TokensOf(r: Row): seq<string> {
    [r.code + " " + r.path] + if r.oldPath.Some? then [r.oldPath.value] else []
  }

  function AllTokens(rows: seq<Row>): seq<string> {
    if rows == [] then [] else TokensOf(rows[0]) + AllTokens(rows[1..])
  }

  /** Every token is followed by a NUL. */
  function Printed(tokens: seq<string>): string {
    if tokens == [] then "" else tokens[0] + "\0" + Printed(tokens[1..])
  }

  /** `s.split("\0")` */
  function SplitNul(s: string): (tokens: seq<string>)
    ensures tokens != []
  {
    if s == "" then [""]
    else
      var rest := SplitNul(s[1..]);
      if s[0] == '\0' then [""] + rest else [[s[0]] + rest[0]] + rest[1..]
  }

  lemma {:induction false} SplitAfterToken(token: string, rest: string)
    requires NoNul(token)
    ensures SplitNul(token + "\0" + rest) == [token] + SplitNul(rest)
  {
    var s := token + "\0" + rest;
    if token == "" {
      assert s[1..] == rest;
    } else {
      assert s[0] == token[0];
      assert s[1..] == token[1..] + "\0" + rest;
      SplitAfterToken(token[1..], rest);
      assert [token[0]] + token[1..] == token;
    }
  }

  lemma {:induction false} SplitOfPrinted(tokens: seq<string>)
    requires forall i | 0 <= i < |tokens| :: NoNul(tokens[i])
    ensures SplitNul(Printed(tokens)) == tokens + [""]
  {
    if tokens != [] {
      SplitOfPrinted(tokens[1..]);
      SplitAfterToken(tokens[0], Printed(tokens[1..]));
      assert tokens == [tokens[0]] + tokens[1..];
    }
  }

  datatype Status = Status(code: string, path: string)

  /** What the loop still appends when it stands at `index`. */
  function ParsedFrom(tokens: seq<string>, index: nat): seq<Status>
    decreases |tokens| - index
  {
    if index >= |tokens| then []
    else
      var line := tokens[index];
      if |line| < 4 then ParsedFrom(tokens, index + 1)
      else
        [Status(line[..2], ForwardSlashes(line[3..]))]
        + ParsedFrom(tokens, index + if Moved(line[..2]) then 2 else 1)
  }

  /** `_porcelain` on the text that git printed. */
  method ParsePorcelain(text: string) returns (rows: seq<Status>)
    ensures rows == ParsedFrom(SplitNul(text), 0)
  {
    rows := [];
    var tokens := SplitNul(text);
    var index := 0;
    while index < |tokens|
      invariant rows + ParsedFrom(tokens, index) == ParsedFrom(tokens, 0)
      decreases |tokens| - index
    {
      var line := tokens[index];
      index := index + 1;
      if |line| < 4 {
        continue;
      }
      var code := line[..2];
      rows := rows + [Status(code, ForwardSlashes(line[3..]))];
      if 'R' in code || 'C' in code {
        index := index + 1;
      }
    }
  }

  function Expected(rows: seq<Row>): seq<Status> {
    if rows == [] then [] else [Status(rows[0].code, ForwardSlashes(rows[0].path))] + Expected(rows[1..])
  }

  lemma {:induction false} ParsedBehind(before: seq<string>, tokens: seq<string>, index: nat)
    ensures ParsedFrom(before + tokens, |before| + index) == ParsedFrom(tokens, index)
    decreases |tokens| - index
  {
    if index < |tokens| {
      var step := if |tokens[index]| >= 4 && Moved(tokens[index][..2]) then 2 else 1;
      ParsedBehind(before, tokens, index + step);
    }
  }

  lemma {:induction false} ParsedTokens(before: seq<string>, rows: seq<Row>, rest: seq<string>)
    requires AllWellFormed(rows)
    ensures ParsedFrom(before + AllTokens(rows) + rest, |before|) == Expected(rows) + ParsedFrom(rest, 0)
    decreases |rows|
  {
    var tokens := before + AllTokens(rows) + rest;
    if rows == [] {
      assert tokens == before + rest;
      ParsedBehind(before, rest, 0);
    } else {
      var own := TokensOf(rows[0]);
      assert WellFormed(rows[0]);
      var line := tokens[|before|];
      assert line == rows[0].code + " " + rows[0].path;
      assert line[..2] == rows[0].code && line[3..] == rows[0].path;
      assert tokens == (before + own) + AllTokens(rows[1..]) + rest;
      ParsedTokens(before + own, rows[1..], rest);
    }
  }

  /** Behind any rows, a token too short for a status line is skipped, alone, and reading goes on behind it. */
  lemma ShortTokensAreSkipped(rows: seq<Row>, token: string, rest: seq<string>)
    requires AllWellFormed(rows) && |token| <= 3
    ensures ParsedFrom(AllTokens(rows) + [token] + rest, 0) == Expected(rows) + ParsedFrom(rest, 0)
  {
    var tokens := [token] + rest;
    assert AllTokens(rows) + [token] + rest == [] + AllTokens(rows) + tokens;
    ParsedTokens([], rows, tokens);
    assert ParsedFrom(tokens, 0) == ParsedFrom(tokens, 1);
    ParsedBehind([token], rest, 0);
  }

  lemma {:induction false} TokensHaveNoNul(rows: seq<Row>)
    requires AllWellFormed(rows)
    ensures forall i | 0 <= i < |AllTokens(rows)| :: NoNul(AllTokens(rows)[i])
  {
    if rows != [] {
      assert WellFormed(rows[0]);
      TokensHaveNoNul(rows[1..]);
    }
  }

  /** Parsing inverts printing: for every list of well-formed rows the parser returns each row once, in order,
      with its code and its path (back slashes turned into slashes), whatever the old paths look like. */
  lemma ParsingInvertsPrinting(rows: seq<Row>)
    requires AllWellFormed(rows)
    ensures ParsedFrom(SplitNul(Printed(AllTokens(rows))), 0) == Expected(rows)
  {
    TokensHaveNoNul(rows);
    SplitOfPrinted(AllTokens(rows));
    ParsedTokens([], rows, [""]);
    assert [] + AllTokens(rows) + [""] == AllTokens(rows) + [""];
  }

  lemma {:induction false} ExpectedAt(rows: seq<Row>)
    ensures |Expected(rows)| == |rows|
    ensures forall i | 0 <= i < |rows| :: Expected(rows)[i] == Status(rows[i].code, ForwardSlashes(rows[i].path))
  {
    if rows != [] {
      ExpectedAt(rows[1..]);
    }
  }

  lemma ForwardSlashesKeeps(s: string)
    ensures ForwardSlashes(s) == s <==> '\\' !in s
  {
    if i :| 0 <= i < |s| && s[i] == '\\' {
      assert ForwardSlashes(s)[i] == '/';
    }
  }

  /** The paths come back unchanged exactly when none of them has a back slash. */
  lemma PathsComeBackIff(rows: seq<Row>)
    requires AllWellFormed(rows)
    ensures |Expected(rows)| == |rows|
    ensures (forall i | 0 <= i < |rows| :: Expected(rows)[i] == Status(rows[i].code, rows[i].path))
            <==> (forall i | 0 <= i < |rows| :: '\\' !in rows[i].path)
  {
    ExpectedAt(rows);
    forall i | 0 <= i < |rows| ensures ForwardSlashes(rows[i].path) == rows[i].path <==> '\\' !in rows[i].path {
      ForwardSlashesKeeps(rows[i].path);
    }
    if forall i | 0 <= i < |rows| :: Expected(rows)[i] == Status(rows[i].code, rows[i].path) {
      forall i | 0 <= i < |rows| ensures '\\' !in rows[i].path {
        assert Expected(rows)[i] == Status(rows[i].code, ForwardSlashes(rows[i].path));
      }
    }
  }

  // ----- the two sets that the inventory asks for

  predicate CountsAsModified(code: string) {
    code != "??" && Strip(code) != "" && !StartsWith(code, "!")
  }

  function ModifiedTracked(rows: seq<Status>): set<string> {
    set i | 0 <= i < |rows| && CountsAsModified(rows[i].code) :: rows[i].path
  }

  function Untracked(rows: seq<Status>): set<string> {
    set i | 0 <= i < |rows| && rows[i].code == "??" :: rows[i].path
  }

  lemma CountsAsModifiedIff(x: char, y: char)
    ensures CountsAsModified([x, y]) <==> (x, y) != ('?', '?') && x != '!' && !(IsSpace(x) && IsSpace(y))
  {
    var code := [x, y];
    var from, to := StripLeaves(code);
    if Strip(code) == "" {
      assert IsSpace(code[0]) && IsSpace(code[1]);
    } else {
      assert !IsSpace(code[from]);
    }
    assert code == "??" <==> code[0] == '?' && code[1] == '?';
    assert StartsWith(code, "!") <==> code[..1] == "!";
  }

  predicate IsAt(rows: seq<Row>, i: nat, path: string) {
    i < |rows| && ForwardSlashes(rows[i].path) == path
  }

  lemma ExpectedPathsIff(rows: seq<Row>, path: string)
    ensures path in ModifiedTracked(Expected(rows)) <==> exists i: nat :: IsAt(rows, i, path) && CountsAsModified(rows[i].code)
    ensures path in Untracked(Expected(rows)) <==> exists i: nat :: IsAt(rows, i, path) && rows[i].code == "??"
  {
    hide CountsAsModified, ForwardSlashes, Expected;
    var parsed := Expected(rows);
    ExpectedAt(rows);
    if i: nat :| IsAt(rows, i, path) && CountsAsModified(rows[i].code) {
      assert parsed[i].path == path;
    }
    if i: nat :| IsAt(rows, i, path) && rows[i].code == "??" {
      assert parsed[i].path == path;
    }
    if path in ModifiedTracked(parsed) {
      var i :| 0 <= i < |parsed| && CountsAsModified(parsed[i].code) && parsed[i].path == path;
      assert IsAt(rows, i, path);
    }
    if path in Untracked(parsed) {
      var i :| 0 <= i < |parsed| && parsed[i].code == "??" && parsed[i].path == path;
      assert IsAt(rows, i, path);
    }
  }

  /** Of what git printed: the modified paths are those of the rows that are neither untracked nor ignored nor
      blank, the untracked ones those with two question marks, whatever else is reported. */
  lemma ReportedIff(rows: seq<Row>, path: string)
    requires AllWellFormed(rows)
    ensures var parsed := ParsedFrom(SplitNul(Printed(AllTokens(rows))), 0);
            && (path in ModifiedTracked(parsed) <==> exists i: nat :: IsAt(rows, i, path) && CountsAsModified(rows[i].code))
            && (path in Untracked(parsed) <==> exists i: nat :: IsAt(rows, i, path) && rows[i].code == "??")
  {
    hide *;
    ParsingInvertsPrinting(rows);
    ExpectedPathsIff(rows, path);
  }

  /** A path that git reports on one line only is never both modified and untracked. */
  lemma ModifiedAndUntrackedAreDisjoint(rows: seq<Status>)
    requires forall i, j | 0 <= i < j < |rows| :: rows[i].path != rows[j].path
    ensures ModifiedTracked(rows) !! Untracked(rows)
  {
  }
}
