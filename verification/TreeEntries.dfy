/** What an entry of the first level lists, what is read of it, and when the two agree. */
module TreeEntries {
  import opened Text
  import opened TreePrinter
  import opened TreeReader
  import opened TreeRoundTrip
  import opened Words

  // ----- one name

  predicate PlainWord(word: string) {
    ',' !in word && forall i | 0 <= i < |word| - 1 :: word[i] != '/' || word[i + 1] != '.'
  }

  /** Words of which no later one is a separator of the reader. */
  predicate PlainWords(words: seq<string>) {
    && (forall i | 0 <= i < |words| :: PlainWord(words[i]))
    && (forall i | 1 <= i < |words| :: words[i] != "/" && words[i] != "+")
  }

  function NonEmpty(s: string): set<string> {
    if s == "" then {} else {s}
  }

  lemma OneTokenOnly(word: string, rest: string)
    requires IsWord(word) && PlainWord(word)
    requires rest == "" || (IsSpace(rest[0]) && SeparatorLength(rest) == 0)
    ensures NamesIn(word + rest) == NonEmpty(Segment(StripSlashes(word)))
  {
    var name := word + rest;
    TokenLengthBeforeGap(word, rest);
    assert TokenLength(word) == |word|;
    assert name[..|word|] == word && name[|word|..] == rest;
    assert Tokens(name) == [word];
    assert DotSlash(word) == |word|;
    assert DotParts(word) == [word];
    assert [word][1..] == [];
    assert AllParts([word]) == [word] + AllParts([]) == [word];
    assert !HasInnerDot("");
    assert NamesOf([word], "") == NonEmpty(Segment(StripSlashes(word))) + NamesOf([], StripSlashes(word));
  }

  lemma BlankBeforeSeparator(rest: string)
    ensures SeparatorLength(rest) == 3 ==>
              SplitWords(rest) != [] && (SplitWords(rest)[0] == "/" || SplitWords(rest)[0] == "+")
  {
    if SeparatorLength(rest) == 3 {
      var next := rest[1..];
      assert next == [next[0]] + next[1..] && next[1] == ' ';
      RunOfWord([next[0]], next[1..]);
      assert next[..1] == [next[0]];
    }
  }

  /** Only the first of several words is read, and a name that starts with white space gives nothing. */
  lemma OnlyTheFirstWordIsRead(name: string)
    requires PlainWords(SplitWords(name))
    ensures NamesIn(name) == if name == "" || IsSpace(name[0]) then {} else NonEmpty(Segment(StripSlashes(SplitWords(name)[0])))
  {
    hide IsSpace, NamesOf, Segment, StripSlashes, PlainWord, PlainWords, SeparatorLength, AllParts, Tokens, NamesIn, NonEmpty;
    if name != "" && !IsSpace(name[0]) {
      var n := RunLength(name);
      var rest := name[n..];
      assert name == name[..n] + rest;
      assert SplitWords(name) == [name[..n]] + SplitWords(rest);
      NoSeparatorBehind(name[..n], rest);
      OneTokenOnly(name[..n], rest);
    } else if name == "" {
      NoTokensInNothing();
    } else {
      BlankStartHasNoTokens(name);
    }
  }

  lemma NoSeparatorBehind(word: string, rest: string)
    requires PlainWords([word] + SplitWords(rest)) && (rest == "" || IsSpace(rest[0]))
    ensures PlainWord(word) && SeparatorLength(rest) == 0
  {
    hide SplitWords, PlainWord;
    var words := [word] + SplitWords(rest);
    assert words[0] == word;
    assert forall i | 0 <= i < |SplitWords(rest)| :: words[1 + i] == SplitWords(rest)[i];
    BlankBeforeSeparator(rest);
  }

  lemma BlankStartHasNoTokens(name: string)
    requires name != "" && IsSpace(name[0])
    ensures NamesIn(name) == {}
  {
    assert Tokens(name) == [];
  }

  lemma {:induction false} SegmentsOfParts(parts: seq<string>, x: string)
    ensures x in FirstSegments(parts) <==> exists i :: 0 <= i < |parts| && Segment(StripSlashes(parts[i])) == x
  {
    hide Segment, StripSlashes;
    if parts != [] {
      var n := |parts| - 1;
      SegmentsOfParts(parts[..n], x);
      assert forall i | 0 <= i < n :: parts[..n][i] == parts[i];
    }
  }

  lemma HasAWord(name: string)
    requires name != "" && !IsSpace(name[0])
    ensures SplitWords(name) != []
  {
  }

  /** An entry of several words is read back as it is listed exactly when its words share one first segment. */
  lemma EntryAgreesIff(name: string)
    requires PlainWords(SplitWords(name)) && name != "" && !IsSpace(name[0])
    ensures var words := SplitWords(name);
            && words != []
            && (NamesIn(name) == FirstSegments(words) <==>
                forall i | 0 <= i < |words| :: Segment(StripSlashes(words[i])) == Segment(StripSlashes(words[0])) != "")
  {
    hide SplitWords, IsSpace, NamesIn, PlainWords, FirstSegments, Segment, StripSlashes;
    var words := SplitWords(name);
    OnlyTheFirstWordIsRead(name);
    HasAWord(name);
    var first := Segment(StripSlashes(words[0]));
    forall i | 0 <= i < |words| ensures Segment(StripSlashes(words[i])) in FirstSegments(words) {
      SegmentsOfParts(words, Segment(StripSlashes(words[i])));
    }
    assert first in FirstSegments(words);
    if forall i | 0 <= i < |words| :: Segment(StripSlashes(words[i])) == first != "" {
      forall x ensures x in FirstSegments(words) <==> x == first {
        SegmentsOfParts(words, x);
      }
    }
  }

  // ----- entries whose words stand apart by one blank each

  predicate IsSeparator(word: string) {
    word == "/" || word == "+"
  }

  /** The words that are read: the first, and every one behind a separator that follows a word that is read. */
  function ReadWords(words: seq<string>): (read: seq<string>)
    ensures |read| <= |words| && (words != [] ==> read != [])
  {
    if words == [] then []
    else if |words| >= 3 && IsSeparator(words[1]) then [words[0]] + ReadWords(words[2..])
    else [words[0]]
  }

  /** The separators character by character. */
  lemma SeparatorCharacters(s: string)
    requires s != "" && s[0] == ' '
    ensures SeparatorLength(s) == if |s| >= 3 && (s[1] == '/' || s[1] == '+') && s[2] == ' ' then 3 else 0
  {
    if |s| >= 3 {
      assert s[..3] == [s[0], s[1], s[2]];
    }
  }

  lemma LoneWord(word: string)
    requires IsWord(word)
    ensures SeparatorLength(" " + word) == 0
  {
    SeparatorCharacters(" " + word);
    assert |word| > 1 ==> !IsSpace(word[1]);
  }

  lemma WordAndBlank(word: string, rest: string)
    requires IsWord(word)
    ensures SeparatorLength(" " + (word + " " + rest)) == if IsSeparator(word) then 3 else 0
    ensures IsSeparator(word) ==> (" " + (word + " " + rest))[3..] == rest
  {
    hide SeparatorLength;
    var s := " " + (word + " " + rest);
    SeparatorCharacters(s);
    assert s[1] == word[0] && |word| >= 1;
    assert |word| == 1 ==> s[2] == ' ' && word == [word[0]];
    assert |word| > 1 ==> s[2] == word[1] && !IsSpace(word[1]);
  }

  lemma WordsLeft(word: string, rest: seq<string>)
    requires IsWord(word) && rest != []
    ensures SeparatorLength(" " + Join([word] + rest)) == if IsSeparator(word) then 3 else 0
    ensures IsSeparator(word) ==> (" " + Join([word] + rest))[3..] == Join(rest)
  {
    hide IsSpace, Join, SeparatorLength, IsSeparator;
    JoinFromTheFront(word, rest);
    WordAndBlank(word, Join(rest));
  }

  lemma OneWordLeft(word: string)
    requires IsWord(word)
    ensures SeparatorLength(" " + Join([word])) == 0
  {
    hide IsSpace, Join, SeparatorLength;
    JoinOfOne(word);
    LoneWord(word);
  }

  /** The row pattern reads exactly these words. */
  lemma {:induction false} TokensOfJoin(words: seq<string>)
    requires AllWords(words) && forall i | 0 <= i < |words| :: ',' !in words[i]
    ensures Tokens(Join(words)) == ReadWords(words)
    decreases |words|
  {
    hide IsSpace, Join, Tokens, IsSeparator, ReadWords, MoreTokens;
    if words == [] {
      JoinOfNothing();
    } else {
      var first, rest := words[0], words[1..];
      assert words == [first] + rest;
      FirstToken(first, rest);
      ReadStep(words);
      if rest != [] {
        assert rest == [words[1]] + words[2..];
        MoreOfJoin(words[1], words[2..]);
        TokensOfJoin(words[2..]);
      }
    }
  }

  lemma ReadStep(words: seq<string>)
    requires words != []
    ensures ReadWords(words) == [words[0]] + if |words| >= 3 && IsSeparator(words[1]) then ReadWords(words[2..]) else []
  {
  }

  lemma FirstToken(first: string, rest: seq<string>)
    requires IsWord(first) && ',' !in first
    ensures Tokens(Join([first] + rest)) == [first] + if rest == [] then [] else MoreTokens(" " + Join(rest))
  {
    hide IsSpace, Join, Tokens, TokenLength;
    var tail := if rest == [] then "" else " " + Join(rest);
    WordIsAToken(first, tail);
    TokensFrom(first, tail);
    if rest == [] {
      JoinOfOne(first);
      assert first + tail == first;
      assert [first] + rest == [first];
    } else {
      JoinFromTheFront(first, rest);
      assert first + " " + Join(rest) == first + tail;
    }
  }

  lemma MoreOfJoin(word: string, rest: seq<string>)
    requires IsWord(word)
    ensures MoreTokens(" " + Join([word] + rest)) == if rest != [] && IsSeparator(word) then Tokens(Join(rest)) else []
  {
    hide IsSpace, Join, Tokens, SeparatorLength, IsSeparator;
    if rest == [] {
      assert [word] + rest == [word];
      OneWordLeft(word);
    } else {
      WordsLeft(word, rest);
    }
  }

  lemma JoinOfNothing()
    ensures Tokens(Join([])) == []
  {
  }

  lemma WordIsAToken(word: string, tail: string)
    requires IsWord(word) && ',' !in word && (tail == "" || tail[0] == ' ')
    ensures TokenLength(word + tail) == |word|
  {
    TokenLengthBeforeGap(word, tail);
    assert forall i | 0 <= i < |word| :: word[i] in word;
    assert TokenLength(word) == |word|;
  }

  // ----- what is read of an entry, and what it lists

  /** No comma and no "/.", and no later word that is read starts with a dot, as the shorthand `.bat` does. */
  predicate NoShorthand(words: seq<string>) {
    && (forall i | 0 <= i < |words| :: PlainWord(words[i]))
    && forall i | 0 < i < |ReadWords(words)| :: !StartsWith(ReadWords(words)[i], ".")
  }

  lemma {:induction false} PlainTokens(tokens: seq<string>)
    requires forall i | 0 <= i < |tokens| :: PlainWord(tokens[i])
    ensures AllParts(tokens) == tokens
  {
    hide PlainWord;
    if tokens != [] {
      OnePlainPart(tokens[0]);
      PlainTokens(tokens[1..]);
      assert tokens == [tokens[0]] + tokens[1..];
    }
  }

  lemma OnePlainPart(token: string)
    requires PlainWord(token)
    ensures DotParts(token) == [token]
  {
    assert DotSlash(token) == |token|;
  }

  lemma BareStart(word: string)
    ensures StartsWith(StripSlashes(word), ".") ==> StartsWith(word, ".")
  {
  }

  /** Without shorthand every token gives its own first segment. */
  lemma {:induction false} NamesOfTokens(tokens: seq<string>, previous: string, x: string)
    requires forall i | 0 <= i < |tokens| :: (i > 0 || HasInnerDot(previous)) ==> !StartsWith(tokens[i], ".")
    ensures x in NamesOf(tokens, previous) <==> x != "" && exists i :: 0 <= i < |tokens| && Segment(StripSlashes(tokens[i])) == x
  {
    hide Segment, StripSlashes, HasInnerDot, BeforeLastDot;
    if tokens != [] {
      BareStart(tokens[0]);
      var part := Completed(tokens[0], previous);
      assert part == StripSlashes(tokens[0]);
      assert forall i | 0 <= i < |tokens| - 1 :: tokens[1..][i] == tokens[i + 1];
      NamesOfTokens(tokens[1..], part, x);
    }
  }

  lemma {:induction false} ReadWordsAreWords(words: seq<string>)
    ensures forall i | 0 <= i < |ReadWords(words)| :: ReadWords(words)[i] in words
    ensures words != [] ==> ReadWords(words)[0] == words[0]
  {
    hide IsSeparator;
    if |words| >= 3 && IsSeparator(words[1]) {
      ReadWordsAreWords(words[2..]);
      assert words == words[..2] + words[2..];
    }
  }

  /** The names that are read of an entry. */
  lemma SpacedEntryIsRead(words: seq<string>)
    requires AllWords(words) && NoShorthand(words)
    ensures NamesIn(Join(words)) == FirstSegments(ReadWords(words)) - {""}
  {
    hide NamesOf, AllParts, FirstSegments, Segment, StripSlashes, PlainWord, IsSpace, Join, ReadWords, StartsWith, Tokens;
    var read := ReadWords(words);
    assert forall i | 0 <= i < |words| :: PlainWord(words[i]);
    NoCommas(words);
    TokensOfJoin(words);
    ReadWordsAreWords(words);
    PlainTokens(read);
    assert !HasInnerDot("");
    forall x ensures x in NamesOf(read, "") <==> x in FirstSegments(read) - {""} {
      NamesOfTokens(read, "", x);
      SegmentsOfParts(read, x);
    }
  }

  lemma NoCommas(words: seq<string>)
    requires forall i | 0 <= i < |words| :: PlainWord(words[i])
    ensures forall i | 0 <= i < |words| :: ',' !in words[i]
  {
  }

  function SegmentOf(word: string): string {
    Segment(StripSlashes(word))
  }

  /** The exact condition for words that stand apart by one blank each: every word, read or not, has a first
      segment, and a word that is read shares it. */
  lemma SpacedEntryAgreesIff(words: seq<string>)
    requires AllWords(words) && NoShorthand(words)
    ensures NamesIn(Join(words)) == FirstSegments(SplitWords(Join(words))) <==>
            forall i | 0 <= i < |words| ::
              && SegmentOf(words[i]) != ""
              && exists k :: 0 <= k < |ReadWords(words)| && SegmentOf(ReadWords(words)[k]) == SegmentOf(words[i])
  {
    hide NamesIn, AllWords, NoShorthand, FirstSegments, Segment, StripSlashes, Join, ReadWords, SplitWords;
    var read := ReadWords(words);
    SplitOfJoin(words);
    SpacedEntryIsRead(words);
    ReadWordsAreWords(words);
    forall x ensures x in FirstSegments(read) <==> exists k :: 0 <= k < |read| && SegmentOf(read[k]) == x {
      SegmentsOfParts(read, x);
    }
    forall x ensures x in FirstSegments(words) <==> exists k :: 0 <= k < |words| && SegmentOf(words[k]) == x {
      SegmentsOfParts(words, x);
    }
    forall k | 0 <= k < |read| ensures SegmentOf(read[k]) in FirstSegments(words) {
      assert read[k] in words;
      var i :| 0 <= i < |words| && words[i] == read[k];
      assert SegmentOf(words[i]) == SegmentOf(read[k]);
    }
    forall i | 0 <= i < |words| ensures SegmentOf(words[i]) in FirstSegments(words) {
    }
  }

  // ----- lists of files

  /** Files with a separator between any two of them. */
  predicate IsFileList(words: seq<string>) {
    |words| % 2 == 1 && forall i | 0 <= i < |words| && i % 2 == 1 :: IsSeparator(words[i])
  }

  /** What the separators themselves are listed as. */
  function SeparatorNames(words: seq<string>): set<string> {
    if |words| < 3 then {} else {SegmentOf(words[1])} + SeparatorNames(words[2..])
  }

  lemma NoSlash(s: string)
    requires '/' !in s
    ensures Segment(StripSlashes(s)) == s
  {
    assert StripSlashes(s) == s;
    assert Segment(s) == s;
  }

  lemma SeparatorSegment(word: string)
    requires IsSeparator(word)
    ensures SegmentOf(word) == if word == "/" then "" else "+"
  {
    if word == "+" {
      NoSlash(word);
    } else {
      assert "/"[..0] == "";
    }
  }

  lemma SegmentsFromTheFront(word: string, rest: seq<string>)
    ensures FirstSegments([word] + rest) == {SegmentOf(word)} + FirstSegments(rest)
  {
    hide FirstSegments, Segment, StripSlashes;
    var all := [word] + rest;
    forall x ensures x in FirstSegments(all) <==> x == SegmentOf(word) || x in FirstSegments(rest) {
      SegmentsOfParts(all, x);
      SegmentsOfParts(rest, x);
      assert all[0] == word && forall i | 0 <= i < |rest| :: all[i + 1] == rest[i];
    }
  }

  lemma {:induction false} ListIsFilesAndSeparators(words: seq<string>)
    requires IsFileList(words)
    ensures FirstSegments(words) == FirstSegments(ReadWords(words)) + SeparatorNames(words)
    decreases |words|
  {
    hide FirstSegments, SegmentOf;
    if |words| == 1 {
      assert words == ReadWords(words);
    } else {
      var rest := words[2..];
      assert forall i | 0 <= i < |rest| :: rest[i] == words[i + 2];
      ListIsFilesAndSeparators(rest);
      assert words == [words[0]] + ([words[1]] + rest);
      SegmentsFromTheFront(words[0], [words[1]] + rest);
      SegmentsFromTheFront(words[1], rest);
      SegmentsFromTheFront(words[0], ReadWords(rest));
    }
  }

  // ----- print and read agree

  /** An empty entry, one file, or several with " / " or " + " between them; none in shorthand. */
  predicate IsFileEntry(name: string) {
    name == "" || (name == Join(SplitWords(name)) && IsFileList(SplitWords(name)) && NoShorthand(SplitWords(name)))
  }

  predicate FileEntries(items: seq<Item>) {
    forall i | 0 <= i < |items| && items[i].first :: IsFileEntry(items[i].name)
  }

  /** The first segments of the files of an entry. */
  function FilesIn(name: string): set<string> {
    FirstSegments(ReadWords(SplitWords(name)))
  }

  function FilesListed(items: seq<Item>): set<string> {
    if items == [] then {}
    else
      var item := items[|items| - 1];
      FilesListed(items[..|items| - 1]) + if item.first then FilesIn(item.name) else {}
  }

  function SeparatorsListed(items: seq<Item>): set<string> {
    if items == [] then {}
    else
      var item := items[|items| - 1];
      SeparatorsListed(items[..|items| - 1]) + if item.first then SeparatorNames(SplitWords(item.name)) else {}
  }

  lemma FileEntryNames(name: string)
    requires IsFileEntry(name)
    ensures NamesIn(name) == FilesIn(name) - {""}
    ensures FirstSegments(SplitWords(name)) == FilesIn(name) + SeparatorNames(SplitWords(name))
  {
    hide NamesIn, Join, SplitWords, FirstSegments, IsFileList, NoShorthand, ReadWords, SegmentOf;
    if name == "" {
      EmptyEntry();
    } else {
      SpacedEntryIsRead(SplitWords(name));
      ListIsFilesAndSeparators(SplitWords(name));
    }
  }

  lemma EmptyEntry()
    ensures NamesIn("") == {} && SplitWords("") == [] && FilesIn("") == {} && FirstSegments([]) == {} && SeparatorNames([]) == {}
  {
    NoTokensInNothing();
  }

  lemma {:induction false} GivenAndListed(items: seq<Item>)
    requires FileEntries(items)
    ensures NamesGiven(items) == FilesListed(items) - {""}
    ensures ListedNames(items) == FilesListed(items) + SeparatorsListed(items)
  {
    hide NamesIn, FirstSegments, SplitWords, IsFileEntry, FilesIn, SeparatorNames;
    if items != [] {
      var n := |items| - 1;
      assert forall i | 0 <= i < n :: items[..n][i] == items[i];
      GivenAndListed(items[..n]);
      if items[n].first {
        FileEntryNames(items[n].name);
      }
    }
  }

  /** Some file of the first level is written with a slash in front. */
  predicate SomeFileStartsWithSlash(items: seq<Item>) {
    exists i, word :: 0 <= i < |items| && items[i].first && word in ReadWords(SplitWords(items[i].name)) && StartsWith(word, "/")
  }

  lemma EmptySegmentIff(word: string)
    requires word != ""
    ensures Segment(StripSlashes(word)) == "" <==> StartsWith(word, "/")
  {
    var bare := StripSlashes(word);
    assert StartsWith(word, "/") <==> word[0] == '/';
    assert bare != "" ==> bare[0] == word[0];
  }

  lemma EmptyFileIff(name: string)
    ensures "" in FilesIn(name) <==> exists word :: word in ReadWords(SplitWords(name)) && StartsWith(word, "/")
  {
    hide Segment, StripSlashes, SplitWords, StartsWith, FirstSegments;
    var words := SplitWords(name);
    SegmentsOfParts(ReadWords(words), "");
    ReadWordsAreWords(words);
    forall word | word in ReadWords(words) ensures Segment(StripSlashes(word)) == "" <==> StartsWith(word, "/") {
      assert word in words;
      EmptySegmentIff(word);
    }
  }

  lemma {:induction false} EmptyListedIff(items: seq<Item>)
    ensures "" in FilesListed(items) <==> SomeFileStartsWithSlash(items)
  {
    hide SplitWords, ReadWords, FilesIn, StartsWith;
    if items != [] {
      var n := |items| - 1;
      EmptyListedIff(items[..n]);
      EmptyFileIff(items[n].name);
      SlashAtTheEnd(items);
    }
  }

  lemma SlashAtTheEnd(items: seq<Item>)
    requires items != []
    ensures var n := |items| - 1;
            SomeFileStartsWithSlash(items) <==>
            || SomeFileStartsWithSlash(items[..n])
            || (items[n].first && exists word :: word in ReadWords(SplitWords(items[n].name)) && StartsWith(word, "/"))
  {
    hide SplitWords, ReadWords, StartsWith;
    var n := |items| - 1;
    assert forall i | 0 <= i < n :: items[..n][i] == items[i];
  }

  lemma {:induction false} NamesNeedNoLanguage(items: seq<Item>, others: seq<Item>)
    requires |items| == |others|
    requires forall i | 0 <= i < |items| :: items[i].first == others[i].first && items[i].name == others[i].name
    ensures NamesGiven(items) == NamesGiven(others)
    ensures FileEntries(items) <==> FileEntries(others)
  {
    hide NamesIn, IsFileEntry;
    if items != [] {
      var n := |items| - 1;
      NamesNeedNoLanguage(items[..n], others[..n]);
    }
    forall i | 0 <= i < |items| ensures items[i].first == others[i].first && items[i].name == others[i].name {
    }
  }

  lemma SameShape(headings: seq<Heading>, lang: string, items: seq<Item>, others: seq<Item>)
    requires Translates(items, headings, lang) && Translates(others, headings, "en")
    ensures |items| == |others|
    ensures forall i | 0 <= i < |items| :: items[i].first == others[i].first && items[i].name == others[i].name
  {
  }

  /** Print and read-back agree. The names read from the tree of a README, in any language, are the files that the
      English items list, without the empty one; those items list the separators besides. The two sets are equal
      exactly when no file starts with a slash and every separator is also the name of a file, so that without
      separators only the slash counts. */
  lemma PrintAndReadAgree(headings: seq<Heading>, repo: string, lang: string, items: seq<Item>, english: seq<Item>, column: nat)
    requires Translates(items, headings, lang) && Translates(english, headings, "en")
    requires HasTop(items) && Printable(repo, items) && FileEntries(items) && IsColumn(items, column)
    ensures var read := NamesOfLines(SplitLines(Terminated(TreeLines(repo, items, column))));
            && read == FilesListed(english) - {""}
            && ListedNames(english) == FilesListed(english) + SeparatorsListed(english)
            && (read == ListedNames(english) <==>
                !SomeFileStartsWithSlash(english) && SeparatorsListed(english) <= FilesListed(english))
  {
    hide *;
    TreeReadsBack(repo, items, column);
    SameShape(headings, lang, items, english);
    NamesNeedNoLanguage(items, english);
    GivenAndListed(english);
    EmptyListedIff(english);
  }

  /** The documented entry of two files: the second one is listed, but never read back. */
  lemma SecondFileIsNotReadBack()
    ensures var items := [Item(true, "run.sh run.bat", "")];
            ListedNames(items) == {"run.sh", "run.bat"} && NamesGiven(items) == {"run.sh"}
  {
    var name := "run.sh run.bat";
    var items := [Item(true, name, "")];
    hide NamesIn, FirstSegments, SplitWords;
    TwoWords("run.sh", "run.bat");
    assert name == "run.sh" + " " + "run.bat";
    assert items[..0] == [];
    assert NamesGiven(items) == NamesGiven([]) + NamesIn(name);
    assert ListedNames(items) == ListedNames([]) + FirstSegments(SplitWords(name));
  }

  lemma TwoWords(a: string, b: string)
    requires IsWord(a) && IsWord(b) && PlainWord(a) && PlainWord(b) && '/' !in a && '/' !in b && b != "+"
    ensures var name := a + " " + b; FirstSegments(SplitWords(name)) == {a, b} && NamesIn(name) == {a}
  {
    hide IsSpace, NamesIn;
    var words := [a, b];
    assert words[..1] == [a];
    assert Join([a]) == a;
    SplitOfJoin(words);
    OnlyTheFirstWordIsRead(a + " " + b);
    NoSlash(a);
    NoSlash(b);
    assert FirstSegments(words) == FirstSegments([a]) + {b};
    assert [a][..0] == [];
  }

  lemma TwoFilesJoined(a: string, b: string)
    requires IsWord(a) && IsWord(b)
    ensures Join([a, "/", b]) == a + " / " + b && SplitWords(a + " / " + b) == [a, "/", b]
  {
    hide IsSpace, SplitWords, Join;
    assert IsWord("/") by {
      SlashIsPlain();
    }
    assert [a, "/", b] == [a] + (["/"] + [b]);
    JoinFromTheFront(a, ["/"] + [b]);
    JoinFromTheFront("/", [b]);
    JoinOfOne(b);
    assert a + " " + ("/" + " " + b) == a + " / " + b;
    SplitOfJoin([a, "/", b]);
  }

  lemma SlashIsPlain()
    ensures PlainWord("/") && IsWord("/") && !StartsWith("/", ".")
  {
    NoDotInFront("/");
  }

  lemma NoDotInFront(word: string)
    requires word != "" && word[0] != '.'
    ensures !StartsWith(word, ".")
  {
    assert "."[0] != word[0];
  }

  lemma TwoFilesRead(a: string, b: string)
    ensures ReadWords([a, "/", b]) == [a, b] && IsFileList([a, "/", b])
  {
    assert [a, "/", b][2..] == [b];
  }

  lemma TwoFilesListed(a: string, b: string)
    requires '/' !in a && '/' !in b
    ensures FirstSegments([a, b]) == {a, b} && SeparatorNames([a, "/", b]) == {""}
  {
    hide Segment, StripSlashes;
    NoSlash(a);
    NoSlash(b);
    SegmentsFromTheFront(a, [b]);
    SegmentsFromTheFront(b, []);
    assert [b] + [] == [b] && [a] + [b] == [a, b];
    SeparatorSegment("/");
    assert [a, "/", b][2..] == [b] && SeparatorNames([b]) == {};
  }

  lemma TwoFiles(a: string, b: string)
    requires IsWord(a) && IsWord(b) && PlainWord(a) && PlainWord(b) && '/' !in a && '/' !in b && !StartsWith(b, ".")
    ensures var name := a + " / " + b;
            IsFileEntry(name) && FilesIn(name) == {a, b} && SeparatorNames(SplitWords(name)) == {""}
  {
    hide IsSpace, PlainWord, IsWord, Join, SplitWords, ReadWords, FirstSegments, SeparatorNames, StartsWith, IsFileList;
    TwoFilesJoined(a, b);
    TwoFilesRead(a, b);
    TwoFilesListed(a, b);
    SlashIsPlain();
  }

  /** An entry of this repository: both files are read back, and the slash is listed as an empty name. */
  lemma BothFilesAreReadBack()
    ensures var items := [Item(true, "build.sh / build.bat", "")];
            && FileEntries(items)
            && ListedNames(items) == {"build.sh", "", "build.bat"} && NamesGiven(items) == {"build.sh", "build.bat"}
  {
    hide NamesIn, FirstSegments, SplitWords, IsFileEntry, FilesIn, SeparatorNames, IsWord, PlainWord, StartsWith;
    var name := "build.sh / build.bat";
    var items := [Item(true, name, "")];
    PlainFileNames();
    TwoFiles("build.sh", "build.bat");
    assert name == "build.sh" + " / " + "build.bat";
    FileEntryNames(name);
    assert items[..0] == [];
    assert NamesGiven(items) == NamesGiven([]) + NamesIn(name);
    assert ListedNames(items) == ListedNames([]) + FirstSegments(SplitWords(name));
  }

  lemma PlainFileNames()
    ensures forall word | word in {"build.sh", "build.bat"} ::
              IsWord(word) && PlainWord(word) && '/' !in word && !StartsWith(word, ".")
  {
    NoDotInFront("build.sh");
    NoDotInFront("build.bat");
  }
}
