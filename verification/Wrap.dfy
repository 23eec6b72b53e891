/** Line breaking of a text at spaces, by an estimate of how wide each character is. */
module Wrap {
  import opened Wrappers
  import opened Words
  import opened LineFilling

  /** `isUpper` and `isDigit` are the Unicode properties of the same name. */
  datatype Font = Font(mono: bool, bold: bool, isUpper: char -> bool, isDigit: char -> bool)

  function CharEm(c: char, font: Font): (em: real)
    ensures em >= 0.3
  {
    if c >= '\U{2E80}' then 1.0
    else if font.mono then 0.62
    else
      (if c in "il.,:;'|!` " then 0.30
       else if c in "mwMW@" then 0.86
       else if font.isUpper(c) then 0.68
       else if font.isDigit(c) then 0.58
       else 0.54) + if font.bold then 0.05 else 0.0
  }

  function Ems(s: string, font: Font): (ems: real)
    ensures ems >= 0.0
  {
    if s == "" then 0.0 else Ems(s[..|s| - 1], font) + CharEm(s[|s| - 1], font)
  }

  function TextWidth(s: string, size: real, font: Font, spacing: real): real {
    Ems(s, font) * size + spacing * (|s| as real)
  }

  lemma {:induction false} EmsOfConcat(a: string, b: string, font: Font)
    ensures Ems(a + b, font) == Ems(a, font) + Ems(b, font)
  {
    if b == "" {
      assert a + b == a;
    } else {
      var n := |b| - 1;
      EmsOfConcat(a, b[..n], font);
      assert (a + b)[..|a + b| - 1] == a + b[..n];
    }
  }

  predicate WithinWidth(s: string, size: real, maxWidth: real, font: Font) {
    TextWidth(s, size, font, 0.0) <= maxWidth
  }

  function Measure(size: real, maxWidth: real, font: Font): string -> bool {
    s => WithinWidth(s, size, maxWidth, font)
  }

  /** Words i to j - 1 fit on one line. */
  function LineFits(words: seq<string>, fit: string -> bool): Fits {
    (i: nat, j: nat) => i <= j <= |words| && fit(Join(words[i..j]))
  }

  lemma WithoutLast(words: seq<string>, font: Font)
    requires words != []
    ensures Ems(Join(words[..|words| - 1]), font) <= Ems(Join(words), font)
  {
    var n := |words| - 1;
    if n > 0 {
      EmsOfConcat(Join(words[..n]) + " ", words[n], font);
      EmsOfConcat(Join(words[..n]), " ", font);
    }
  }

  lemma WithoutFirst(words: seq<string>, font: Font)
    requires words != []
    ensures Ems(Join(words[1..]), font) <= Ems(Join(words), font)
  {
    hide CharEm;
    if |words| > 1 {
      hide Join, Ems;
      var rest := words[1..];
      assert words == [words[0]] + rest;
      JoinFromTheFront(words[0], rest);
      EmsOfConcat(words[0] + " ", Join(rest), font);
    }
  }

  /** Part of a line is never wider than the line. */
  lemma {:induction false} PartIsNarrower(words: seq<string>, i: nat, i': nat, j': nat, j: nat, font: Font)
    requires i <= i' <= j' <= j <= |words|
    ensures Ems(Join(words[i'..j']), font) <= Ems(Join(words[i..j]), font)
    decreases j - i
  {
    hide Ems, Join;
    if j' < j {
      WithoutLast(words[i..j], font);
      assert words[i..j][..j - i - 1] == words[i..j - 1];
      PartIsNarrower(words, i, i', j', j - 1, font);
    } else if i < i' {
      WithoutFirst(words[i..j], font);
      assert words[i..j][1..] == words[i + 1..j];
      PartIsNarrower(words, i + 1, i', j', j, font);
    }
  }

  lemma ProductOrder(x: real, y: real, size: real)
    requires x <= y && size >= 0.0
    ensures x * size <= y * size
  {
    assert (y - x) * size >= 0.0;
    assert y * size == x * size + (y - x) * size;
  }

  lemma NarrowerFits(a: string, b: string, size: real, maxWidth: real, font: Font)
    requires Ems(a, font) <= Ems(b, font) && size >= 0.0 && WithinWidth(b, size, maxWidth, font)
    ensures WithinWidth(a, size, maxWidth, font)
  {
    hide Ems;
    ProductOrder(Ems(a, font), Ems(b, font), size);
  }

  lemma LineFitsIsHereditary(words: seq<string>, size: real, maxWidth: real, font: Font)
    requires size >= 0.0
    ensures Hereditary(LineFits(words, Measure(size, maxWidth, font)), |words|)
  {
    var fits := LineFits(words, Measure(size, maxWidth, font));
    forall i: nat, i': nat, j': nat, j: nat | i <= i' < j' <= j <= |words| && fits(i, j) ensures fits(i', j') {
      PartIsNarrower(words, i, i', j', j, font);
      NarrowerFits(Join(words[i'..j']), Join(words[i..j]), size, maxWidth, font);
    }
  }

  /** The lines of a split. */
  function LinesOf(words: seq<string>, cuts: seq<nat>): (lines: seq<string>)
    requires Within(cuts, |words|)
    ensures |lines| == |cuts| - 1
  {
    if |cuts| == 1 then []
    else
      var m := |cuts| - 1;
      assert cuts[m - 1] < cuts[m];
      LinesOf(words, cuts[..m]) + [Join(words[cuts[m - 1]..cuts[m]])]
  }

  lemma {:induction false} LineAt(words: seq<string>, cuts: seq<nat>, k: nat)
    requires Within(cuts, |words|) && k + 1 < |cuts|
    ensures cuts[k] < cuts[k + 1] <= |words|
    ensures LinesOf(words, cuts)[k] == Join(words[cuts[k]..cuts[k + 1]])
  {
    var m := |cuts| - 1;
    if k + 1 < m {
      LineAt(words, cuts[..m], k);
    }
  }

  lemma AddLine(words: seq<string>, cuts: seq<nat>, i: nat)
    requires Within(cuts, |words|) && cuts[|cuts| - 1] < i <= |words|
    ensures Within(cuts + [i], |words|)
    ensures LinesOf(words, cuts + [i]) == LinesOf(words, cuts) + [Join(words[cuts[|cuts| - 1]..i])]
  {
    assert (cuts + [i])[..|cuts|] == cuts;
  }

  lemma {:induction false} JoinedLines(words: seq<string>, cuts: seq<nat>)
    requires Within(cuts, |words|) && cuts[0] == 0
    ensures Join(LinesOf(words, cuts)) == Join(words[..cuts[|cuts| - 1]])
  {
    var m := |cuts| - 1;
    if m > 0 {
      JoinedLines(words, cuts[..m]);
      var a, b := cuts[m - 1], cuts[m];
      assert LinesOf(words, cuts)[..m - 1] == LinesOf(words, cuts[..m]);
      if m == 1 {
        assert words[0..b] == words[..b];
      } else {
        assert 0 < a;
        JoinOfJoins(words[..b], a);
        assert words[..b][..a] == words[..a] && words[..b][a..] == words[a..b];
      }
    }
  }

  datatype DoesNotFit = DoesNotFit

  /** A split of the words into at most `limit` lines that all fit. */
  predicate FitsIn(cuts: seq<nat>, words: seq<string>, fit: string -> bool, limit: int) {
    Valid(cuts, |words|, LineFits(words, fit)) && |cuts| - 1 <= limit
  }

  ghost predicate SomeSplitFits(words: seq<string>, fit: string -> bool, limit: int) {
    exists cuts: seq<nat> :: FitsIn(cuts, words, fit, limit)
  }

  lemma StripOfWord(current: string, word: string)
    requires IsWord(word)
    requires current != "" ==> !IsSpace(current[0])
    ensures Strip(current + " " + word) == if current == "" then word else current + " " + word
  {
    var s := current + " " + word;
    assert !IsSpace(s[|s| - 1]) by {
      assert s[|s| - 1] == word[|word| - 1];
    }
    if current == "" {
      assert s[1..] == word;
      assert LStrip(s) == LStrip(word) == word;
    }
  }

  lemma NextTrial(words: seq<string>, start: nat, i: nat, current: string)
    requires AllWords(words) && start <= i < |words| && current == Join(words[start..i])
    ensures Strip(current + " " + words[i]) == Join(words[start..i + 1])
    ensures current == "" <==> start == i
  {
    assert words[start..i + 1][..i - start] == words[start..i];
    assert start < i ==> words[start..i] != [] && AllWords(words[start..i]);
    StripOfWord(current, words[i]);
  }

  lemma LineFitsIffGroupFits(words: seq<string>, cuts: seq<nat>, k: nat, fit: string -> bool)
    requires Cuts(cuts, |words|) && k + 1 < |cuts|
    ensures fit(LinesOf(words, cuts)[k]) <==> GroupFits(cuts, k, LineFits(words, fit))
  {
    LineAt(words, cuts, k);
  }

  predicate AllFit(lines: seq<string>, fit: string -> bool) {
    forall k | 0 <= k < |lines| :: fit(lines[k])
  }

  lemma AllLinesFit(words: seq<string>, cuts: seq<nat>, fit: string -> bool)
    requires Cuts(cuts, |words|)
    ensures AllFit(LinesOf(words, cuts), fit) <==> Valid(cuts, |words|, LineFits(words, fit))
  {
    var lines := LinesOf(words, cuts);
    if AllFit(lines, fit) {
      forall k: nat | k < |cuts| - 1 ensures GroupFits(cuts, k, LineFits(words, fit)) {
        assert fit(lines[k]);
        LineFitsIffGroupFits(words, cuts, k, fit);
      }
    }
    if Valid(cuts, |words|, LineFits(words, fit)) {
      forall k | 0 <= k < |lines| ensures fit(lines[k]) {
        assert GroupFits(cuts, k, LineFits(words, fit));
        LineFitsIffGroupFits(words, cuts, k, fit);
      }
    }
  }

  /** The line has no room for the first word of the next one. */
  predicate LineIsFull(lines: seq<string>, k: nat, fit: string -> bool)
    requires k + 1 < |lines|
  {
    var next := SplitWords(lines[k + 1]);
    next != [] && !fit(lines[k] + " " + next[0])
  }

  predicate AllFull(lines: seq<string>, fit: string -> bool) {
    forall k: nat | k < |lines| - 1 :: LineIsFull(lines, k, fit)
  }

  lemma GreedyLinesAreFull(words: seq<string>, cuts: seq<nat>, fit: string -> bool)
    requires AllWords(words) && Greedy(cuts, |words|, LineFits(words, fit))
    ensures AllFull(LinesOf(words, cuts), fit)
  {
    hide Join, SplitWords, LinesOf;
    forall k: nat | k < |cuts| - 2 ensures LineIsFull(LinesOf(words, cuts), k, fit) {
      assert GroupIsFull(cuts, k, LineFits(words, fit));
      LineAt(words, cuts, k);
      LineAt(words, cuts, k + 1);
      var a, b, c := cuts[k], cuts[k + 1], cuts[k + 2];
      assert words[a..b + 1][..b - a] == words[a..b];
      JoinOfMore(words[a..b + 1]);
      SplitOfJoin(words[b..c]);
    }
  }

  lemma NoLines(words: seq<string>)
    ensures LinesOf(words, [0]) == []
  {
  }

  /** Fills the lines: each word goes on the current line if it fits there or if the line is empty. */
  method FillLines(words: seq<string>, fit: string -> bool) returns (out: seq<string>, ghost cuts: seq<nat>)
    requires AllWords(words)
    ensures Greedy(cuts, |words|, LineFits(words, fit))
    ensures out == LinesOf(words, cuts)
  {
    hide Strip, LinesOf, Greedy;
    NoLines(words);
    out := [];
    var current := "";
    ghost var fits := LineFits(words, fit);
    cuts := [0];
    for i := 0 to |words|
      invariant Opened(cuts, i, fits) && Within(cuts, |words|)
      invariant out == LinesOf(words, cuts)
      invariant current == Join(words[cuts[|cuts| - 1]..i])
    {
      ghost var start := cuts[|cuts| - 1];
      NextTrial(words, start, i, current);
      var word := words[i];
      var trial := Strip(current + " " + word);
      if fit(trial) || current == "" {
        current := trial;
      } else {
        assert !fits(start, i + 1);
        OpenNext(cuts, i, fits);
        AddLine(words, cuts, i);
        out := out + [current];
        current := word;
        cuts := cuts + [i];
        assert words[i..i + 1] == [word];
      }
    }
    CloseLast(cuts, |words|, fits);
    assert cuts[|cuts| - 1] < |words| ==> words[cuts[|cuts| - 1]..|words|] != [] && AllWords(words[cuts[|cuts| - 1]..|words|]);
    if current != "" {
      AddLine(words, cuts, |words|);
      out := out + [current];
      cuts := cuts + [|words|];
    }
  }

  /** What a successful call returns: the lines of a split in which every line fits and none but the last could
      take the next word; together they are the words of the text in order. */
  ghost predicate IsWrap(lines: seq<string>, words: seq<string>, fit: string -> bool) {
    && (exists cuts: seq<nat> :: Valid(cuts, |words|, LineFits(words, fit)) && lines == LinesOf(words, cuts))
    && AllFit(lines, fit) && AllFull(lines, fit)
    && Join(lines) == Join(words)
    && SplitWords(Join(lines)) == words
  }

  /** No split into lines that fit has fewer lines. */
  ghost predicate IsShortest(lines: seq<string>, words: seq<string>, fit: string -> bool) {
    forall cuts: seq<nat> | Valid(cuts, |words|, LineFits(words, fit)) :: |lines| <= |cuts| - 1
  }

  lemma FittingLinesAreAWrap(lines: seq<string>, words: seq<string>, cuts: seq<nat>, fit: string -> bool)
    requires AllWords(words)
    requires Greedy(cuts, |words|, LineFits(words, fit)) && lines == LinesOf(words, cuts) && AllFit(lines, fit)
    ensures IsWrap(lines, words, fit)
    ensures Hereditary(LineFits(words, fit), |words|) ==> IsShortest(lines, words, fit)
  {
    AllLinesFit(words, cuts, fit);
    GreedyLinesAreFull(words, cuts, fit);
    JoinedLines(words, cuts);
    assert words[..|words|] == words;
    SplitOfJoin(words);
    if Hereditary(LineFits(words, fit), |words|) {
      GreedyIsOptimal(cuts, |words|, LineFits(words, fit));
    }
  }

  lemma NoSplitFits(lines: seq<string>, words: seq<string>, cuts: seq<nat>, fit: string -> bool, limit: int)
    requires Hereditary(LineFits(words, fit), |words|)
    requires Greedy(cuts, |words|, LineFits(words, fit)) && lines == LinesOf(words, cuts)
    requires |lines| > limit || !AllFit(lines, fit)
    ensures !SomeSplitFits(words, fit, limit)
  {
    AllLinesFit(words, cuts, fit);
    GreedyIsOptimal(cuts, |words|, LineFits(words, fit));
  }

  // ----- splits, without positions

  /** The words in order, in groups of at least one word of which each fits on a line. */
  predicate IsSplit(groups: seq<seq<string>>, words: seq<string>, fit: string -> bool) {
    Glued(groups) == words && forall k | 0 <= k < |groups| :: groups[k] != [] && fit(Join(groups[k]))
  }

  lemma StartsAreCuts(groups: seq<seq<string>>, words: seq<string>, fit: string -> bool)
    requires IsSplit(groups, words, fit)
    ensures Valid(Starts(groups), |words|, LineFits(words, fit))
  {
    StartsAscend(groups);
    var cuts := Starts(groups);
    forall k: nat | k < |groups| ensures GroupFits(cuts, k, LineFits(words, fit)) {
      GroupLies(groups, k);
    }
  }

  lemma {:induction false} CutsAreASplit(cuts: seq<nat>, words: seq<string>, fit: string -> bool) returns (groups: seq<seq<string>>)
    requires Valid(cuts, |words|, LineFits(words, fit))
    ensures IsSplit(groups, words, fit) && |groups| == |cuts| - 1
  {
    groups := seq(|cuts| - 1, k requires 0 <= k < |cuts| - 1 => words[cuts[k]..cuts[k + 1]]);
    forall k: nat | k < |groups| ensures groups[k] != [] && fit(Join(groups[k])) && IsSlice(groups, k, words, cuts) {
      assert GroupFits(cuts, k, LineFits(words, fit));
    }
    GluedSlices(cuts, words, groups);
    assert words[..|words|] == words;
  }

  predicate IsSlice(groups: seq<seq<string>>, k: nat, words: seq<string>, cuts: seq<nat>)
    requires k < |groups| && |cuts| == |groups| + 1
  {
    cuts[k] <= cuts[k + 1] <= |words| && groups[k] == words[cuts[k]..cuts[k + 1]]
  }

  lemma {:induction false} GluedSlices(cuts: seq<nat>, words: seq<string>, groups: seq<seq<string>>)
    requires |cuts| == |groups| + 1 && cuts[0] == 0 && cuts[|groups|] <= |words|
    requires forall k: nat | k < |groups| :: IsSlice(groups, k, words, cuts)
    ensures Glued(groups) == words[..cuts[|cuts| - 1]]
    decreases |groups|
  {
    if groups != [] {
      var n := |groups| - 1;
      var front, before := groups[..n], cuts[..n + 1];
      assert IsSlice(groups, n, words, cuts);
      forall k: nat | k < n ensures IsSlice(front, k, words, before) {
        assert IsSlice(groups, k, words, cuts);
      }
      GluedSlices(before, words, front);
    }
  }

  lemma SomeSplitFitsIff(words: seq<string>, fit: string -> bool, limit: int)
    ensures SomeSplitFits(words, fit, limit) <==> exists groups :: IsSplit(groups, words, fit) && |groups| <= limit
  {
    hide LineFits, Valid, IsSplit;
    if cuts: seq<nat> :| FitsIn(cuts, words, fit, limit) {
      var groups := CutsAreASplit(cuts, words, fit);
    }
    if groups :| IsSplit(groups, words, fit) && |groups| <= limit {
      StartsAreCuts(groups, words, fit);
      assert FitsIn(Starts(groups), words, fit, limit);
    }
  }

  lemma ShortestOfSplits(lines: seq<string>, words: seq<string>, fit: string -> bool)
    requires IsShortest(lines, words, fit)
    ensures forall groups | IsSplit(groups, words, fit) :: |lines| <= |groups|
  {
    hide LineFits, Valid, IsSplit;
    forall groups | IsSplit(groups, words, fit) ensures |lines| <= |groups| {
      StartsAreCuts(groups, words, fit);
    }
  }

  /** A text fits when the widths of its characters times the size are no more than the room. */
  lemma FitsIff(s: string, size: real, maxWidth: real, font: Font)
    ensures Measure(size, maxWidth, font)(s) <==> Ems(s, font) * size <= maxWidth
  {
    hide Ems;
    assert 0.0 * (|s| as real) == 0.0;
  }

  /** The estimated widths, in parts of the size. */
  lemma WidthOfACharacter(c: char, font: Font)
    ensures c >= '\U{2E80}' ==> CharEm(c, font) == 1.0
    ensures c < '\U{2E80}' && font.mono ==> CharEm(c, font) == 0.62
    ensures c < '\U{2E80}' && !font.mono ==>
              var em := CharEm(c, font) - if font.bold then 0.05 else 0.0;
              var narrow, wide := c in {'i', 'l', '.', ',', ':', ';', '\'', '|', '!', '`', ' '}, c in {'m', 'w', 'M', 'W', '@'};
              && (em == 0.30 <==> narrow)
              && (em == 0.86 <==> wide)
              && (em == 0.68 <==> !narrow && !wide && font.isUpper(c))
              && (em == 0.58 <==> !narrow && !wide && !font.isUpper(c) && font.isDigit(c))
              && (em == 0.54 <==> !narrow && !wide && !font.isUpper(c) && !font.isDigit(c))
  {
    NarrowCharacters(c);
  }

  lemma NarrowCharacters(c: char)
    ensures c in "il.,:;'|!` " <==> c in {'i', 'l', '.', ',', ':', ';', '\'', '|', '!', '`', ' '}
    ensures c in "mwMW@" <==> c in {'m', 'w', 'M', 'W', '@'}
  {
    var narrow, wide := "il.,:;'|!` ", "mwMW@";
    assert narrow == ['i', 'l', '.', ',', ':', ';', '\'', '|', '!', '`', ' '];
    assert wide == ['m', 'w', 'M', 'W', '@'];
    if c in {'i', 'l', '.', ',', ':', ';', '\'', '|', '!', '`', ' '} {
      assert narrow[0] == 'i' && narrow[1] == 'l' && narrow[2] == '.' && narrow[3] == ',' && narrow[4] == ':' && narrow[5] == ';';
      assert narrow[6] == '\'' && narrow[7] == '|' && narrow[8] == '!' && narrow[9] == '`' && narrow[10] == ' ';
    }
    if c in {'m', 'w', 'M', 'W', '@'} {
      assert wide[0] == 'm' && wide[1] == 'w' && wide[2] == 'M' && wide[3] == 'W' && wide[4] == '@';
    }
  }

  method WrapWords(words: seq<string>, fit: string -> bool, lines: int) returns (r: Result<seq<string>, DoesNotFit>)
    requires AllWords(words)
    ensures r.Ok? ==> |r.value| <= lines && IsWrap(r.value, words, fit) && SomeSplitFits(words, fit, lines)
    ensures Hereditary(LineFits(words, fit), |words|) ==>
              (r.Ok? <==> SomeSplitFits(words, fit, lines)) && (r.Ok? ==> IsShortest(r.value, words, fit))
  {
    var out;
    ghost var cuts;
    out, cuts := FillLines(words, fit);
    if |out| > lines || !AllFit(out, fit) {
      if Hereditary(LineFits(words, fit), |words|) {
        NoSplitFits(out, words, cuts, fit, lines);
      }
      return Err(DoesNotFit);
    }
    FittingLinesAreAWrap(out, words, cuts, fit);
    AllLinesFit(words, cuts, fit);
    assert FitsIn(cuts, words, fit, lines);
    r := Ok(out);
  }

  /** Breaks a text into at most `lines` lines no wider than `maxWidth`. What it returns is always such a split.
      At a font size that is not negative it succeeds exactly when some split exists, and no split is shorter;
      a negative size would make longer texts narrower. */
  method WrapText(s: string, size: real, maxWidth: real, font: Font, lines: int)
    returns (r: Result<seq<string>, DoesNotFit>)
    ensures var words, fit := SplitWords(s), Measure(size, maxWidth, font);
            && (r.Ok? ==> |r.value| <= lines && IsWrap(r.value, words, fit) && SomeSplitFits(words, fit, lines))
            && (size >= 0.0 ==> (r.Ok? <==> SomeSplitFits(words, fit, lines)))
            && (size >= 0.0 && r.Ok? ==> IsShortest(r.value, words, fit))
    ensures var words, fit := SplitWords(s), Measure(size, maxWidth, font);
            && (size >= 0.0 ==> (r.Ok? <==> exists groups :: IsSplit(groups, words, fit) && |groups| <= lines))
            && (size >= 0.0 && r.Ok? ==> forall groups | IsSplit(groups, words, fit) :: |r.value| <= |groups|)
  {
    if size >= 0.0 {
      LineFitsIsHereditary(SplitWords(s), size, maxWidth, font);
    }
    r := WrapWords(SplitWords(s), Measure(size, maxWidth, font), lines);
    SomeSplitFitsIff(SplitWords(s), Measure(size, maxWidth, font), lines);
    if size >= 0.0 && r.Ok? {
      ShortestOfSplits(r.value, SplitWords(s), Measure(size, maxWidth, font));
    }
  }
}
