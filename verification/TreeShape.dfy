/** What a printed tree shows: its entries, told by the fields of the cards, and the lines drawn before them. */
module TreeShape {
  import opened Text
  import opened TreePrinter
  import opened TreeReader
  import opened Words
  import opened Wrappers

  // ----- the entries

  /** `text` is this value in the language: nothing for an absent one, a plain text as it is. */
  predicate Says(value: Localised, lang: string, text: string) {
    || (value.Absent? && text == "")
    || (value.Same? && text == value.text)
    || (value.PerLanguage? && lang in value.texts && text == value.texts[lang])
  }

  /** The entry of a row: its name for the tree, if it has one, and its description for the tree, if it has one. */
  predicate ShowsRow(item: Item, row: Row, lang: string) {
    && item.name == (if row.treeName == None then row.name else row.treeName.value)
    && Says(if row.treeDesc == None then row.desc else row.treeDesc.value, lang, item.desc)
  }

  /** A group shows its rows on the first level; a folder with a text for the tree is one line, any other one is
      followed by its rows on the second level. */
  predicate ShowsCard(items: seq<Item>, card: Card, lang: string) {
    match card
    case Group(rows) =>
      |items| == |rows| && forall i | 0 <= i < |rows| :: items[i].first && ShowsRow(items[i], rows[i], lang)
    case Folder(name, tree, head, rows) =>
      if tree == Absent || tree == Same("") || tree == PerLanguage(map[]) then
        && |items| == |rows| + 1 && items[0].first && items[0].name == name && Says(head, lang, items[0].desc)
        && forall i | 0 < i < |items| :: !items[i].first && ShowsRow(items[i], rows[i - 1], lang)
      else
        |items| == 1 && items[0].first && items[0].name == name && Says(tree, lang, items[0].desc)
  }

  lemma LanguageIff(value: Localised, lang: string, text: string)
    ensures InLanguage(value, lang) == Some(text) <==> Says(value, lang, text)
  {
  }

  lemma EntriesOfCard(items: seq<Item>, card: Card, lang: string)
    ensures Translates(items, CardHeadings(card), lang) <==> ShowsCard(items, card, lang)
  {
    hide InLanguage, Says;
    var headings := CardHeadings(card);
    if |items| == |headings| {
      forall i | 0 <= i < |items|
        ensures Says(headings[i].text, lang, items[i].desc) <==> InLanguage(headings[i].text, lang) == Some(items[i].desc)
      {
        LanguageIff(headings[i].text, lang, items[i].desc);
      }
    }
  }

  /** One block behind the other. */
  function Together(blocks: seq<seq<Item>>): seq<Item> {
    if blocks == [] then [] else Together(blocks[..|blocks| - 1]) + blocks[|blocks| - 1]
  }

  predicate ShowsCards(blocks: seq<seq<Item>>, cards: seq<Card>, lang: string) {
    |blocks| == |cards| && forall k | 0 <= k < |cards| :: ShowsCard(blocks[k], cards[k], lang)
  }

  /** The entries are those of the cards, card after card. */
  lemma {:induction false} EntriesInOrder(items: seq<Item>, cards: seq<Card>, lang: string) returns (blocks: seq<seq<Item>>)
    requires Translates(items, Headings(cards), lang)
    ensures Together(blocks) == items && ShowsCards(blocks, cards, lang)
    decreases |cards|
  {
    hide CardHeadings, ShowsCard, InLanguage;
    if cards == [] {
      blocks := [];
    } else {
      var front, last := cards[..|cards| - 1], cards[|cards| - 1];
      var cut := |Headings(front)|;
      var before := EntriesInOrder(items[..cut], front, lang);
      EntriesOfCard(items[cut..], last, lang);
      blocks := before + [items[cut..]];
      assert blocks[..|before|] == before && items == items[..cut] + items[cut..];
    }
  }

  lemma {:induction false} BlocksTranslate(blocks: seq<seq<Item>>, cards: seq<Card>, lang: string)
    requires ShowsCards(blocks, cards, lang)
    ensures Translates(Together(blocks), Headings(cards), lang)
    decreases |cards|
  {
    hide CardHeadings, ShowsCard, InLanguage;
    if cards != [] {
      var n := |cards| - 1;
      BlocksTranslate(blocks[..n], cards[..n], lang);
      EntriesOfCard(blocks[n], cards[n], lang);
    }
  }

  /** A specification is refused exactly when nothing shows its cards in the language: some text that would be
      printed lacks it. */
  lemma RefusedIff(cards: seq<Card>, lang: string)
    ensures Untranslated(Headings(cards), lang) <==> !exists blocks :: ShowsCards(blocks, cards, lang)
  {
    hide ShowsCards, Headings, InLanguage;
    var headings := Headings(cards);
    if blocks :| ShowsCards(blocks, cards, lang) {
      BlocksTranslate(blocks, cards, lang);
    }
    if !Untranslated(headings, lang) {
      var items := seq(|headings|, i requires 0 <= i < |headings| =>
        var text := InLanguage(headings[i].text, lang);
        Item(headings[i].first, headings[i].name, if text.Some? then text.value else ""));
      var blocks := EntriesInOrder(items, cards, lang);
    }
  }

  // ----- the lines

  ghost predicate HasLaterTop(items: seq<Item>, i: nat) {
    exists k :: i < k < |items| && items[k].first
  }

  /** An elbow ends a list of siblings, a tee goes on; under the last first-level entry there is no trunk. */
  lemma BranchesShowTheLast(items: seq<Item>, i: nat)
    requires HasTop(items) && i < |items|
    ensures if items[i].first then
              Left(items, i) == (if HasLaterTop(items, i) then "├── " else "└── ") + items[i].name
            else
              Left(items, i) == (if HasLaterTop(items, i) then "│   " else "    ")
                                + (if i + 1 < |items| && !items[i + 1].first then "├── " else "└── ") + items[i].name
  {
    var k := TopLast(items);
    assert IsTopLast(items, k);
    if i < k {
      assert items[k].first;
    }
  }

  /** The whole line: what stands left of the description, blanks, and the description, without white space at the
      end. */
  lemma LinesOfTree(repo: string, items: seq<Item>, column: nat, i: nat)
    requires HasTop(items) && i < |items|
    ensures |TreeLines(repo, items, column)| == |items| + 1
    ensures TreeLines(repo, items, column)[0] == RStrip(repo + "/" + Blanks(column - |repo| - 1))
    ensures TreeLines(repo, items, column)[i + 1]
            == RStrip(Left(items, i) + Blanks(column - |Left(items, i)|) + items[i].desc)
  {
    hide RStrip, Left, Blanks;
    assert (repo + "/") + Blanks(column - |repo + "/"|) + "" == repo + "/" + Blanks(column - |repo| - 1);
  }
}
