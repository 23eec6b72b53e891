/** Printing a tree and reading its first level back. */
module TreeRoundTrip {
  import opened Text
  import opened Words
  import opened Wrappers
  import opened TreeReader
  import opened TreePrinter

  // ----- the description of a row never changes the names that are read in it

  /** What follows a name in its row: white space only, or at least two blanks and then anything. */
  predicate IsGap(tail: string) {
    || (forall i | 0 <= i < |tail| :: IsSpace(tail[i]))
    || (|tail| >= 2 && tail[0] == ' ' && tail[1] == ' ')
  }

  lemma TokenLengthBeforeGap(name: string, tail: string)
    requires tail == "" || !InToken(tail[0])
    ensures TokenLength(name + tail) == TokenLength(name)
  {
    var s := name + tail;
    var n := TokenLength(name);
    assert forall i | 0 <= i < n :: InToken(s[i]);
    assert n < |name| ==> s[n] == name[n];
    assert n == |name| && tail != "" ==> s[n] == tail[0];
    assert TokenLength(s) < |s| ==> !InToken(s[TokenLength(s)]);
  }

  lemma GapStartsNoToken(name: string, tail: string)
    requires IsGap(tail)
    ensures TokenLength(name + tail) == TokenLength(name)
  {
    hide TokenLength;
    TokenLengthBeforeGap(name, tail);
  }

  lemma {:induction false} TokensIgnoreGap(name: string, tail: string)
    requires IsGap(tail)
    ensures Tokens(name + tail) == Tokens(name)
    decreases |name|
  {
    hide IsGap, TokenLength, Tokens, MoreTokens;
    var head, rest := name[..TokenLength(name)], name[TokenLength(name)..];
    assert name == head + rest;
    GapStartsNoToken(name, tail);
    Regrouped(head, rest, tail);
    TokensFrom(head, rest);
    TokensFrom(head, rest + tail);
    if head != "" {
      MoreTokensIgnoreGap(rest, tail);
    }
  }

  lemma {:induction false} MoreTokensIgnoreGap(rest: string, tail: string)
    requires IsGap(tail)
    ensures MoreTokens(rest + tail) == MoreTokens(rest)
    decreases |rest|
  {
    hide IsGap, SeparatorLength, Tokens;
    SeparatorBeforeGap(rest, tail);
    var gap := SeparatorLength(rest + tail);
    if 0 < gap <= |rest| {
      TokensIgnoreGap(rest[gap..], tail);
      assert (rest + tail)[gap..] == rest[gap..] + tail;
    }
  }

  lemma Regrouped(a: string, b: string, c: string)
    ensures a + b + c == a + (b + c)
  {
  }

  /** The tokens of a text whose first token is `head`. */
  lemma TokensFrom(head: string, rest: string)
    requires TokenLength(head + rest) == |head|
    ensures Tokens(head + rest) == if head == "" then [] else [head] + MoreTokens(rest)
  {
    hide TokenLength, MoreTokens;
    var s := head + rest;
    assert s[..|head|] == head && s[|head|..] == rest;
  }

  /** A separator either ends before the gap, or it ends in it and has no token behind it. */
  lemma SeparatorBeforeGap(rest: string, tail: string)
    requires IsGap(tail)
    ensures var gap := SeparatorLength(rest + tail);
            if gap <= |rest| then SeparatorLength(rest) == gap else SeparatorLength(rest) == 0 && Tokens((rest + tail)[gap..]) == []
  {
    var s := rest + tail;
    var gap := SeparatorLength(s);
    assert forall i | 0 <= i < |rest| :: s[i] == rest[i];
    assert forall i | |rest| <= i < |s| :: s[i] == tail[i - |rest|];
    if gap > |rest| {
      forall i | |rest| <= i < |rest| + 2 && i < |s| ensures IsSpace(s[i]) {
        assert s[i] == tail[i - |rest|];
      }
      assert !IsSpace(s[gap - 2]);
      if gap < |s| {
        assert s[gap..][0] == tail[1];
        assert !InToken(tail[1]);
      }
    } else if gap == 2 {
      assert rest[..2] == s[..2] == ", ";
    } else if gap == 3 {
      assert rest[..3] == s[..3];
    } else {
      assert StartsWith(rest, ", ") ==> StartsWith(s, ", ");
      assert StartsWith(rest, " / ") ==> StartsWith(s, " / ");
      assert StartsWith(rest, " + ") ==> StartsWith(s, " + ");
    }
  }

  lemma RStripKeeps(s: string, k: nat)
    requires k < |s| && !IsSpace(s[k])
    ensures k < |RStrip(s)| && RStrip(s) == s[..|RStrip(s)|]
  {
  }

  lemma StrippedText(s: string)
    ensures Tokens(RStrip(s)) == Tokens(s)
  {
    hide Tokens, RStrip, IsSpace;
    var line := RStrip(s);
    var cut := s[|line|..];
    assert s == line + cut;
    assert IsGap(cut);
    TokensIgnoreGap(line, cut);
  }

  lemma RStripOfEnd(front: string, s: string)
    ensures RStrip(s) != "" ==> RStrip(front + s) == front + RStrip(s)
    ensures RStrip(s) == "" ==> RStrip(front + s) == RStrip(front)
  {
    var r := RStrip(front + s);
    hide RStrip, IsSpace;
    assert forall i | |front| <= i < |front + s| :: (front + s)[i] == s[i - |front|];
    assert forall i | 0 <= i < |front| :: (front + s)[i] == front[i];
    if RStrip(s) != "" {
      var k := |RStrip(s)| - 1;
      assert (front + s)[|front| + k] == s[k];
      RStripKeeps(front + s, |front| + k);
      assert |r| == |front| + k + 1;
    } else {
      assert |r| <= |front|;
      assert |r| == |RStrip(front)|;
    }
  }

  /** Stripping a row leaves its branch and strips what is behind it. */
  lemma StrippedRow(s: string)
    requires IsRow(s)
    ensures RowNames(RStrip(s)) == NamesIn(s[4..])
  {
    hide NamesOf, AllParts, Tokens, RStrip;
    var line := RStrip(s);
    StrippedText(s[4..]);
    RStripOfEnd(s[..4], s[4..]);
    assert s == s[..4] + s[4..];
    if RStrip(s[4..]) != "" {
      assert line[..4] == s[..4] && line[4..] == RStrip(s[4..]);
      assert line[1..4] == s[1..4];
    } else {
      assert s[..4][3] == ' ' && |line| < 4;
      NoTokensInNothing();
    }
  }

  lemma NoTokensInNothing()
    ensures Tokens("") == [] && NamesIn("") == {}
  {
  }

  lemma BehindBranch(branch: char, body: string)
    ensures var s := [branch] + "── " + body;
            |s| >= 4 && s[0] == branch && s[1..4] == "── " && s[4..] == body
  {
    var front := [branch] + "── ";
    assert |front| == 4 && front[1..4] == "── ";
    assert (front + body)[1..4] == front[1..4];
  }

  /** A row of the first level gives the names that its entry gives, whatever its description. */
  lemma RowReadsItsName(branch: char, name: string, padding: string, desc: string)
    requires branch == '├' || branch == '└'
    requires forall i | 0 <= i < |padding| :: padding[i] == ' '
    requires desc == "" || |padding| >= 3
    ensures RowNames(RStrip([branch] + "── " + name + padding + desc)) == NamesIn(name)
  {
    hide NamesOf, AllParts, Tokens, RStrip;
    var front := [branch] + "── ";
    Regrouped(front + name, padding, desc);
    Regrouped(front, name, padding + desc);
    BehindBranch(branch, name + (padding + desc));
    StrippedRow(front + (name + (padding + desc)));
    PaddingIsGap(padding, desc);
    TokensIgnoreGap(name, padding + desc);
  }

  lemma PaddingIsGap(padding: string, desc: string)
    requires forall i | 0 <= i < |padding| :: padding[i] == ' '
    requires desc == "" || |padding| >= 3
    ensures IsGap(padding + desc)
  {
  }

  // ----- all the rows

  predicate Printable(repo: string, items: seq<Item>) {
    && OneLine(repo) && (repo == "" || (repo[0] != '├' && repo[0] != '└'))
    && forall i | 0 <= i < |items| :: OneLine(items[i].name) && OneLine(items[i].desc)
  }

  /** The names that the entries of the first level give. */
  function NamesGiven(items: seq<Item>): set<string> {
    if items == [] then {}
    else
      var item := items[|items| - 1];
      NamesGiven(items[..|items| - 1]) + if item.first then NamesIn(item.name) else {}
  }

  /** The printed row of an item is one line, and gives the names of a first-level entry only. */
  lemma ItemRow(items: seq<Item>, column: nat, i: nat)
    requires HasTop(items) && IsColumn(items, column) && i < |items|
    requires OneLine(items[i].name) && OneLine(items[i].desc)
    ensures var line := LineOf((Left(items, i), items[i].desc), column);
            OneLine(line) && RowNames(line) == if items[i].first then NamesIn(items[i].name) else {}
  {
    hide NamesIn, RStrip, OneLine, IsRow, RowNames, Left, Blanks, IsColumn, HasTop;
    var left, name, desc := Left(items, i), items[i].name, items[i].desc;
    BranchOfItem(items, i);
    RoomForDescription(items, column, i);
    RowOfParts(items[i].first, left, name, Blanks(column - |left|), desc);
  }

  lemma RoomForDescription(items: seq<Item>, column: nat, i: nat)
    requires HasTop(items) && IsColumn(items, column) && i < |items|
    ensures items[i].desc == "" || column - |Left(items, i)| >= 3
  {
    hide Left;
  }

  lemma RowOfParts(first: bool, left: string, name: string, padding: string, desc: string)
    requires OneLine(name) && OneLine(desc) && |left| >= 4 + |name| && left[|left| - |name|..] == name
    requires forall k | 0 <= k < |left| - |name| :: left[k] in "├└│─ "
    requires first ==> (left[0] == '├' || left[0] == '└') && left == [left[0]] + "── " + name
    requires !first ==> |left| >= 8 && left[5] == '─' && left[0] != '├' && left[0] != '└'
    requires forall i | 0 <= i < |padding| :: padding[i] == ' '
    requires desc == "" || |padding| >= 3
    ensures var line := RStrip(left + padding + desc);
            OneLine(line) && RowNames(line) == if first then NamesIn(name) else {}
  {
    hide NamesIn, RStrip, OneLine, RowNames;
    RowIsOneLine(left, name, padding, desc);
    if first {
      RowReadsItsName(left[0], name, padding, desc);
    } else {
      SecondLevelRow(left, padding + desc);
      assert left + (padding + desc) == left + padding + desc;
    }
  }

  lemma BranchOfItem(items: seq<Item>, i: nat)
    requires HasTop(items) && i < |items|
    ensures var left, name := Left(items, i), items[i].name;
            && |left| >= 4 + |name| && left[|left| - |name|..] == name
            && (forall k | 0 <= k < |left| - |name| :: left[k] in "├└│─ ")
            && (items[i].first ==> (left[0] == '├' || left[0] == '└') && left == [left[0]] + "── " + name)
            && (!items[i].first ==> |left| >= 8 && left[5] == '─' && left[0] != '├' && left[0] != '└')
  {
    hide TopLast, Branch, Trunk;
    BranchShape(items[i].first && i == TopLast(items));
    if !items[i].first {
      BranchShape(i + 1 == |items| || items[i + 1].first);
      TrunkShape(TopLast(items) < i);
    }
  }

  lemma BranchShape(last: bool)
    ensures |Branch(last)| == 4 && (Branch(last)[0] == '├' || Branch(last)[0] == '└')
    ensures Branch(last) == [Branch(last)[0]] + "── " && forall k | 0 <= k < 4 :: Branch(last)[k] in "├└│─ "
  {
  }

  lemma TrunkShape(parentLast: bool)
    ensures |Trunk(parentLast)| == 4 && Trunk(parentLast)[0] != '├' && Trunk(parentLast)[0] != '└'
    ensures forall k | 0 <= k < 4 :: Trunk(parentLast)[k] in "├└│─ "
  {
  }

  lemma SecondLevelRow(left: string, rest: string)
    requires |left| >= 8 && left[5] == '─' && left[0] != '├' && left[0] != '└'
    ensures RowNames(RStrip(left + rest)) == {}
  {
    RStripKeeps(left + rest, 5);
  }

  lemma RowIsOneLine(left: string, name: string, padding: string, desc: string)
    requires OneLine(name) && OneLine(desc) && |left| >= |name| && left[|left| - |name|..] == name
    requires forall i | 0 <= i < |left| - |name| :: left[i] in "├└│─ "
    requires forall i | 0 <= i < |padding| :: padding[i] == ' '
    ensures OneLine(RStrip(left + padding + desc))
  {
    hide RStrip;
    var s := left + padding + desc;
    assert forall i | |left| - |name| <= i < |left| :: left[i] == name[i - (|left| - |name|)];
    assert OneLine(left);
    assert OneLine(s);
    assert forall i | 0 <= i < |RStrip(s)| :: RStrip(s)[i] == s[i];
  }

  lemma HeadRow(repo: string, column: nat)
    requires OneLine(repo) && (repo == "" || (repo[0] != '├' && repo[0] != '└'))
    ensures var line := LineOf((repo + "/", ""), column); OneLine(line) && RowNames(line) == {}
  {
    hide RStrip, NamesIn;
    var padding := Blanks(column - |repo + "/"|);
    var s := repo + "/" + padding + "";
    assert s[|repo|] == '/';
    RStripKeeps(s, |repo|);
    assert s[0] == (repo + "/")[0];
    assert OneLine(s);
    assert forall i | 0 <= i < |RStrip(s)| :: RStrip(s)[i] == s[i];
  }

  lemma LineOfRow(repo: string, items: seq<Item>, column: nat, i: nat)
    requires HasTop(items) && Printable(repo, items) && IsColumn(items, column) && i < |items|
    ensures var lines := TreeLines(repo, items, column);
            && |lines| == 1 + |items| && OneLine(lines[0]) && RowNames(lines[0]) == {}
            && OneLine(lines[1 + i]) && RowNames(lines[1 + i]) == if items[i].first then NamesIn(items[i].name) else {}
  {
    hide LineOf, RowNames, NamesIn, Left, TopLast;
    HeadRow(repo, column);
    ItemRow(items, column, i);
  }

  lemma {:induction false} RowsGiveTheNames(lines: seq<string>, items: seq<Item>)
    requires |lines| == 1 + |items| && RowNames(lines[0]) == {}
    requires forall i | 0 <= i < |items| :: RowNames(lines[1 + i]) == if items[i].first then NamesIn(items[i].name) else {}
    ensures NamesOfLines(lines) == NamesGiven(items)
  {
    hide RowNames, NamesIn;
    var n := |items|;
    if n == 0 {
      assert lines[..0] == [];
    } else {
      RowsGiveTheNames(lines[..n], items[..n - 1]);
    }
  }

  /** Reading the printed block back gives exactly the names of the first-level entries: no branch, no
      second-level entry and no description is ever taken for one. */
  lemma TreeReadsBack(repo: string, items: seq<Item>, column: nat)
    requires HasTop(items) && Printable(repo, items) && IsColumn(items, column)
    ensures NamesOfLines(SplitLines(Terminated(TreeLines(repo, items, column)))) == NamesGiven(items)
  {
    hide *;
    var lines := TreeLines(repo, items, column);
    LinesOfTree(repo, items, column);
    LinesOfTerminated(lines);
    RowsGiveTheNames(lines, items);
  }

  lemma LinesOfTree(repo: string, items: seq<Item>, column: nat)
    requires HasTop(items) && Printable(repo, items) && IsColumn(items, column)
    ensures var lines := TreeLines(repo, items, column);
            && |lines| == 1 + |items| && RowNames(lines[0]) == {}
            && (forall i | 0 <= i < |lines| :: OneLine(lines[i]))
            && (forall i | 0 <= i < |items| :: RowNames(lines[1 + i]) == if items[i].first then NamesIn(items[i].name) else {})
  {
    hide *;
    var lines := TreeLines(repo, items, column);
    HasTopIsNotEmpty(items);
    LineOfRow(repo, items, column, 0);
    forall i | 0 <= i < |items|
      ensures RowNames(lines[1 + i]) == if items[i].first then NamesIn(items[i].name) else {}
    {
      LineOfRow(repo, items, column, i);
    }
    forall i | 0 <= i < |lines| ensures OneLine(lines[i]) {
      if i > 0 {
        LineOfRow(repo, items, column, i - 1);
      }
    }
  }

  lemma HasTopIsNotEmpty(items: seq<Item>)
    requires HasTop(items)
    ensures items != []
  {
  }

  // ----- cards and items

  lemma CardStartsWithATop(card: Card)
    requires card.rows != []
    ensures CardHeadings(card) != [] && CardHeadings(card)[0].first
  {
  }

  /** Cards with rows always give a first-level item. */
  lemma CardsGiveATop(cards: seq<Card>, items: seq<Item>, lang: string)
    requires cards != [] && cards[|cards| - 1].rows != [] && Translates(items, Headings(cards), lang)
    ensures HasTop(items)
  {
    hide InLanguage;
    var front, last := Headings(cards[..|cards| - 1]), CardHeadings(cards[|cards| - 1]);
    CardStartsWithATop(cards[|cards| - 1]);
    assert Headings(cards) == front + last;
    assert items[|front|].first;
  }

  // ----- which block is the tree

  function Rows(lines: seq<string>): nat {
    if lines == [] then 0 else (if IsRow(lines[0]) then 1 else 0) + Rows(lines[1..])
  }

  lemma {:induction false} RowsOfBlock(lines: seq<string>)
    requires forall i | 0 <= i < |lines| :: OneLine(lines[i])
    ensures RowCount(Terminated(lines)) == Rows(lines)
    decreases |lines|
  {
    if lines != [] {
      var line, rest := lines[0], Terminated(lines[1..]);
      var s := line + "\n" + rest;
      assert s[|line|] == '\n' && forall i | 0 <= i < |line| :: s[i] == line[i] && !IsBreak(line[i]);
      assert FeedAt(s) == |line|;
      assert s[..|line|] == line && s[|line| + 1..] == rest;
      RowsOfBlock(lines[1..]);
    }
  }

  /** A tree with more rows than every other block of its README is the one that is read. */
  lemma TheTreeIsRead(blocks: seq<string>, k: nat, r: Option<set<string>>, repo: string, items: seq<Item>, column: nat)
    requires IsReading(blocks, r) && k < |blocks|
    requires HasTop(items) && Printable(repo, items) && IsColumn(items, column)
    requires blocks[k] == Terminated(TreeLines(repo, items, column)) && Rows(TreeLines(repo, items, column)) > 0
    requires forall j | 0 <= j < |blocks| && j != k :: RowCount(blocks[j]) < Rows(TreeLines(repo, items, column))
    ensures r == Some(NamesGiven(items))
  {
    hide RowCount, SplitLines, NamesOfLines, Rows, Terminated, TreeLines, IsColumn, HasTop, NamesGiven;
    var lines := TreeLines(repo, items, column);
    LinesOfTree(repo, items, column);
    RowsOfBlock(lines);
    TreeReadsBack(repo, items, column);
  }

  // ----- the column of the descriptions

  /** All descriptions start in one column, at least three blanks behind their entry and exactly three behind
      the longest described one. */
  lemma DescriptionsLineUp(repo: string, items: seq<Item>, column: nat)
    requires HasTop(items) && IsColumn(items, column)
    ensures forall i | 0 <= i < |items| && RStrip(items[i].desc) != "" ::
              var line, left := TreeLines(repo, items, column)[1 + i], Left(items, i);
              line == left + Blanks(column - |left|) + RStrip(items[i].desc) && column - |left| >= 3
    ensures (exists i :: 0 <= i < |items| && items[i].desc != "") ==>
              exists i :: 0 <= i < |items| && items[i].desc != "" && column - |Left(items, i)| == 3
  {
    hide RStrip, TopLast;
    forall i | 0 <= i < |items| && RStrip(items[i].desc) != ""
      ensures var line, left := TreeLines(repo, items, column)[1 + i], Left(items, i);
              line == left + Blanks(column - |left|) + RStrip(items[i].desc) && column - |left| >= 3
    {
      var left, desc := Left(items, i), items[i].desc;
      RStripOfEnd(left + Blanks(column - |left|), desc);
    }
  }
}
