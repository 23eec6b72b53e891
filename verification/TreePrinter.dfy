/** The text tree that `make_structure` prints from the cards of a structure specification. */
module TreePrinter {
  import opened Text
  import opened Words
  import opened Wrappers
  import opened TreeReader

  // ----- texts and cards

  /** The same in every language, one per language, or absent. */
  datatype Localised = Absent | Same(text: string) | PerLanguage(texts: map<string, string>)

  /** `L`: an error when a mapping lacks the language. */
  function InLanguage(value: Localised, lang: string): (r: Option<string>)
    ensures r.None? <==> value.PerLanguage? && lang !in value.texts
  {
    match value
    case Absent => Some("")
    case Same(text) => Some(text)
    case PerLanguage(texts) => if lang in texts then Some(texts[lang]) else None
  }

  predicate IsTruthy(value: Localised) {
    match value
    case Absent => false
    case Same(text) => text != ""
    case PerLanguage(texts) => texts != map[]
  }

  datatype Row = Row(name: string, treeName: Option<string>, desc: Localised, treeDesc: Option<Localised>)

  datatype Card = Group(rows: seq<Row>) | Folder(name: string, tree: Localised, head: Localised, rows: seq<Row>)

  /** A row of the tree: `first` for depth 1. */
  datatype Item = Item(first: bool, name: string, desc: string)

  function NameOf(row: Row): string {
    if row.treeName.Some? then row.treeName.value else row.name
  }

  function DescOf(row: Row): Localised {
    if row.treeDesc.Some? then row.treeDesc.value else row.desc
  }

  /** The names and descriptions of the tree before a language is chosen. */
  datatype Heading = Heading(first: bool, name: string, text: Localised)

  function RowHeadings(rows: seq<Row>, first: bool): (r: seq<Heading>)
    ensures |r| == |rows| && forall i | 0 <= i < |rows| :: r[i] == Heading(first, NameOf(rows[i]), DescOf(rows[i]))
  {
    seq(|rows|, i requires 0 <= i < |rows| => Heading(first, NameOf(rows[i]), DescOf(rows[i])))
  }

  function CardHeadings(card: Card): seq<Heading> {
    match card
    case Group(rows) => RowHeadings(rows, true)
    case Folder(name, tree, head, rows) =>
      if IsTruthy(tree) then [Heading(true, name, tree)]
      else [Heading(true, name, head)] + RowHeadings(rows, false)
  }

  function Headings(cards: seq<Card>): seq<Heading> {
    if cards == [] then [] else Headings(cards[..|cards| - 1]) + CardHeadings(cards[|cards| - 1])
  }

  predicate Translates(items: seq<Item>, headings: seq<Heading>, lang: string) {
    && |items| == |headings|
    && forall i | 0 <= i < |items| ::
         && items[i].first == headings[i].first && items[i].name == headings[i].name
         && InLanguage(headings[i].text, lang) == Some(items[i].desc)
  }

  method TranslateAll(headings: seq<Heading>, lang: string) returns (r: Option<seq<Item>>)
    ensures r.None? <==> Untranslated(headings, lang)
    ensures r.Some? ==> Translates(r.value, headings, lang)
  {
    var items: seq<Item> := [];
    for i := 0 to |headings|
      invariant |items| == i && Translates(items, headings[..i], lang)
      invariant forall k | 0 <= k < i :: InLanguage(headings[k].text, lang).Some?
    {
      var desc := InLanguage(headings[i].text, lang);
      if desc.None? {
        return None;
      }
      items := items + [Item(headings[i].first, headings[i].name, desc.value)];
    }
    r := Some(items);
  }

  predicate Untranslated(headings: seq<Heading>, lang: string) {
    exists i :: 0 <= i < |headings| && InLanguage(headings[i].text, lang).None?
  }

  lemma TranslatesTogether(items: seq<Item>, more: seq<Item>, headings: seq<Heading>, next: seq<Heading>, lang: string)
    requires Translates(items, headings, lang) && Translates(more, next, lang)
    ensures Translates(items + more, headings + next, lang)
  {
  }

  lemma UntranslatedPart(front: seq<Heading>, part: seq<Heading>, all: seq<Heading>, lang: string)
    requires front + part <= all && Untranslated(part, lang)
    ensures Untranslated(all, lang)
  {
    var k :| 0 <= k < |part| && InLanguage(part[k].text, lang).None?;
    assert all[|front| + k] == (front + part)[|front| + k] == part[k];
  }

  /** `tree_items`: refused exactly when a description lacks the language; otherwise the headings, translated. */
  method TreeItems(cards: seq<Card>, lang: string) returns (r: Option<seq<Item>>)
    ensures r.None? <==> Untranslated(Headings(cards), lang)
    ensures r.Some? ==> Translates(r.value, Headings(cards), lang)
  {
    var items: seq<Item> := [];
    for i := 0 to |cards|
      invariant Translates(items, Headings(cards[..i]), lang)
    {
      HeadingsGrow(cards, i);
      var headings := CardHeadings(cards[i]);
      var more := TranslateAll(headings, lang);
      if more.None? {
        UntranslatedPart(Headings(cards[..i]), headings, Headings(cards), lang);
        return None;
      }
      TranslatesTogether(items, more.value, Headings(cards[..i]), headings, lang);
      items := items + more.value;
    }
    assert cards[..|cards|] == cards;
    r := Some(items);
  }

  lemma {:induction false} HeadingsGrow(cards: seq<Card>, i: nat)
    requires i < |cards|
    ensures Headings(cards[..i + 1]) == Headings(cards[..i]) + CardHeadings(cards[i])
    ensures Headings(cards[..i + 1]) <= Headings(cards)
    decreases |cards|
  {
    assert cards[..i + 1][..i] == cards[..i];
    if i + 1 < |cards| {
      var front := cards[..|cards| - 1];
      HeadingsGrow(front, i);
      assert front[..i + 1] == cards[..i + 1];
    } else {
      assert cards[..i + 1] == cards;
    }
  }

  // ----- the printed lines

  predicate HasTop(items: seq<Item>) {
    exists i :: 0 <= i < |items| && items[i].first
  }

  predicate IsTopLast(items: seq<Item>, k: nat) {
    k < |items| && items[k].first && forall i | k < i < |items| :: !items[i].first
  }

  /** The index of the last first-level item. */
  function TopLast(items: seq<Item>): (k: nat)
    requires HasTop(items)
    ensures IsTopLast(items, k)
  {
    if items[|items| - 1].first then |items| - 1 else TopLast(items[..|items| - 1])
  }

  function Branch(last: bool): string {
    if last then "└── " else "├── "
  }

  function Trunk(parentLast: bool): string {
    if parentLast then "    " else "│   "
  }

  /** What stands to the left of the description of an item. */
  function Left(items: seq<Item>, i: nat): string
    requires i < |items| && HasTop(items)
  {
    var last := TopLast(items);
    if items[i].first then Branch(i == last) + items[i].name
    else Trunk(last < i) + Branch(i + 1 == |items| || items[i + 1].first) + items[i].name
  }

  function Blanks(n: int): (s: string)
    ensures |s| == if n < 0 then 0 else n
    ensures forall i | 0 <= i < |s| :: s[i] == ' '
  {
    if n <= 0 then "" else seq(n, _ => ' ')
  }

  /** `s.ljust(width)` */
  function Padded(s: string, width: int): string {
    s + Blanks(width - |s|)
  }

  /** The column of the descriptions: three behind the longest described entry, 0 when nothing is described. */
  predicate IsColumn(items: seq<Item>, column: nat)
    requires HasTop(items)
  {
    && (forall i | 0 <= i < |items| && items[i].desc != "" :: |Left(items, i)| + 3 <= column)
    && ((exists i :: 0 <= i < |items| && items[i].desc != "" && |Left(items, i)| + 3 == column)
        || (column == 0 && forall i | 0 <= i < |items| :: items[i].desc == ""))
  }

  /** The lines and descriptions before they are padded. */
  function Unpadded(repo: string, items: seq<Item>): (lines: seq<(string, string)>)
    requires HasTop(items)
    ensures |lines| == 1 + |items| && lines[0] == (repo + "/", "")
    ensures forall i | 0 <= i < |items| :: lines[1 + i] == (Left(items, i), items[i].desc)
  {
    [(repo + "/", "")] + seq(|items|, i requires 0 <= i < |items| => (Left(items, i), items[i].desc))
  }

  function LineOf(line: (string, string), column: nat): string {
    RStrip(Padded(line.0, column) + line.1)
  }

  function LinesOf(lines: seq<(string, string)>, column: nat): (r: seq<string>)
    ensures |r| == |lines| && forall i | 0 <= i < |lines| :: r[i] == LineOf(lines[i], column)
  {
    seq(|lines|, i requires 0 <= i < |lines| => LineOf(lines[i], column))
  }

  /** The printed tree, line by line. */
  function TreeLines(repo: string, items: seq<Item>, column: nat): seq<string>
    requires HasTop(items)
  {
    LinesOf(Unpadded(repo, items), column)
  }

  method BuildLines(repo: string, items: seq<Item>) returns (lines: seq<(string, string)>)
    requires HasTop(items)
    ensures lines == Unpadded(repo, items)
  {
    hide TopLast, Branch, Trunk, Unpadded;
    ghost var all := Unpadded(repo, items);
    var topLast := TopLast(items);
    lines := [(repo + "/", "")];
    var parentLast := false;
    for i := 0 to |items|
      invariant lines == all[..1 + i]
      invariant parentLast <==> topLast < i
    {
      assert all[..1 + i + 1] == all[..1 + i] + [all[1 + i]];
      if items[i].first {
        var last := i == topLast;
        parentLast := last;
        lines := lines + [(Branch(last) + items[i].name, items[i].desc)];
      } else {
        var nextFirst := if i + 1 < |items| then items[i + 1].first else true;
        lines := lines + [(Trunk(parentLast) + Branch(nextFirst) + items[i].name, items[i].desc)];
      }
    }
  }

  method ChooseColumn(lines: seq<(string, string)>) returns (column: nat)
    ensures forall k | 0 <= k < |lines| && lines[k].1 != "" :: |lines[k].0| + 3 <= column
    ensures || (exists k :: 0 <= k < |lines| && lines[k].1 != "" && |lines[k].0| + 3 == column)
            || (column == 0 && forall k | 0 <= k < |lines| :: lines[k].1 == "")
  {
    column := 0;
    for i := 0 to |lines|
      invariant forall k | 0 <= k < i && lines[k].1 != "" :: |lines[k].0| + 3 <= column
      invariant || (exists k :: 0 <= k < i && lines[k].1 != "" && |lines[k].0| + 3 == column)
                || (column == 0 && forall k | 0 <= k < i :: lines[k].1 == "")
    {
      if lines[i].1 != "" && |lines[i].0| + 3 > column {
        column := |lines[i].0| + 3;
      }
    }
  }

  /** `"\n".join(...)` of the padded lines */
  method JoinLines(lines: seq<(string, string)>, column: nat) returns (text: string)
    requires lines != []
    ensures text + "\n" == Terminated(LinesOf(lines, column))
  {
    ghost var printed := LinesOf(lines, column);
    text := LineOf(lines[0], column);
    TerminatedGrows(printed, 0);
    for i := 1 to |lines|
      invariant text + "\n" == Terminated(printed[..i])
    {
      TerminatedGrows(printed, i);
      text := text + "\n" + LineOf(lines[i], column);
    }
    assert printed[..|lines|] == printed;
  }

  /** `render_tree`, with the column it chose */
  method RenderTree(repo: string, items: seq<Item>) returns (text: string, column: nat)
    requires HasTop(items)
    ensures IsColumn(items, column)
    ensures text + "\n" == Terminated(TreeLines(repo, items, column))
  {
    var lines := BuildLines(repo, items);
    column := ChooseColumn(lines);
    ColumnOfLines(repo, items, column);
    text := JoinLines(lines, column);
  }

  lemma ColumnOfLines(repo: string, items: seq<Item>, column: nat)
    requires HasTop(items)
    requires var lines := Unpadded(repo, items);
             && (forall k | 0 <= k < |lines| && lines[k].1 != "" :: |lines[k].0| + 3 <= column)
             && ((exists k :: 0 <= k < |lines| && lines[k].1 != "" && |lines[k].0| + 3 == column)
                 || (column == 0 && forall k | 0 <= k < |lines| :: lines[k].1 == ""))
    ensures IsColumn(items, column)
  {
    var lines := Unpadded(repo, items);
    forall i | 0 <= i < |items| && items[i].desc != "" ensures |Left(items, i)| + 3 <= column {
      assert lines[1 + i] == (Left(items, i), items[i].desc);
    }
    if k :| 0 <= k < |lines| && lines[k].1 != "" && |lines[k].0| + 3 == column {
      assert lines[k] == lines[1 + (k - 1)] == (Left(items, k - 1), items[k - 1].desc);
    } else {
      forall i | 0 <= i < |items| ensures items[i].desc == "" {
        assert lines[1 + i] == (Left(items, i), items[i].desc);
      }
    }
  }

  lemma {:induction false} TerminatedGrows(lines: seq<string>, i: nat)
    requires i < |lines|
    ensures Terminated(lines[..i + 1]) == Terminated(lines[..i]) + lines[i] + "\n"
    decreases i
  {
    if i > 0 {
      TerminatedGrows(lines[1..], i - 1);
      assert lines[1..][..i] == lines[..i + 1][1..];
      assert lines[1..][..i - 1] == lines[..i][1..];
    } else {
      assert lines[..1][1..] == [];
    }
  }

  // ----- the names

  function FirstSegments(parts: seq<string>): set<string> {
    if parts == [] then {} else FirstSegments(parts[..|parts| - 1]) + {Segment(StripSlashes(parts[|parts| - 1]))}
  }

  /** The first-level names that the items list. */
  function ListedNames(items: seq<Item>): set<string> {
    if items == [] then {}
    else
      var item := items[|items| - 1];
      ListedNames(items[..|items| - 1]) + if item.first then FirstSegments(SplitWords(item.name)) else {}
  }

  /** The first result of `tree_names` */
  method TreeNames(items: seq<Item>) returns (first: set<string>)
    ensures first == ListedNames(items)
  {
    first := {};
    for i := 0 to |items|
      invariant first == ListedNames(items[..i])
    {
      assert items[..i + 1][..i] == items[..i];
      var parts := SplitWords(items[i].name);
      if items[i].first {
        ghost var before := first;
        for k := 0 to |parts|
          invariant first == before + FirstSegments(parts[..k])
        {
          assert parts[..k + 1][..k] == parts[..k];
          first := first + {Segment(StripSlashes(parts[k]))};
        }
        assert parts[..|parts|] == parts;
      }
    }
    assert items[..|items|] == items;
  }
}
