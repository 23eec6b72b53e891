/** The cards of the repository structure picture: a grid of three columns filled in order. */
module Grid {
  import opened Wrappers
  import opened LineFilling
  import opened Boxes

  const GRID_X := 360.0
  const GRID_W := 780.0
  const GRID_GAP := 25.0
  const ROW_GAP := 30.0
  const GRID_TOP := 200.0

  datatype Style = List | Plain | Stack

  /** `named` says of each row whether it has a name. */
  datatype Card = Card(span: int, columns: int, style: Option<Style>, named: seq<bool>)

  /** What `validate_spec` accepts; it does not look at `columns`. */
  predicate Accepted(c: Card) {
    1 <= c.span <= 3 && c.named != []
  }

  predicate AllAccepted(cards: seq<Card>) {
    forall i | 0 <= i < |cards| :: Accepted(cards[i])
  }

  function CardStyle(c: Card): Style {
    if c.style.Some? then c.style.value
    else if true !in c.named then Plain
    else if c.span == 1 || c.columns > 1 then Stack
    else List
  }

  /** A stacked card divides by its columns. */
  predicate Measurable(c: Card) {
    CardStyle(c) == Stack ==> c.columns != 0
  }

  predicate AllMeasurable(cards: seq<Card>) {
    forall i | 0 <= i < |cards| :: Measurable(cards[i])
  }

  /** Only with a positive number of columns does a stacked card have a sensible height. */
  predicate Drawable(c: Card) {
    Accepted(c) && (CardStyle(c) == Stack ==> c.columns >= 1)
  }

  predicate AllDrawable(cards: seq<Card>) {
    forall i | 0 <= i < |cards| :: Drawable(cards[i])
  }

  /** `a // b` */
  function FloorDiv(a: int, b: int): int
    requires b != 0
  {
    if b > 0 then a / b else (-a) / (-b)
  }

  /** `-(-n // columns)` */
  function PerColumn(c: Card): int
    requires c.columns != 0
  {
    -FloorDiv(-|c.named|, c.columns)
  }

  function CardHeight(c: Card): int
    requires Measurable(c)
  {
    var n := |c.named|;
    match CardStyle(c)
    case List => 80 + (n - 1) * 27 + 31
    case Plain => 80 + (n - 1) * 24 + 38
    case Stack => 76 + (PerColumn(c) - 1) * 36 + 42
  }

  function Spans(cards: seq<Card>): int {
    if cards == [] then 0 else Spans(cards[..|cards| - 1]) + cards[|cards| - 1].span
  }

  function RowFits(cards: seq<Card>): Fits {
    (i: nat, j: nat) => i <= j <= |cards| && Spans(cards[i..j]) <= 3
  }

  lemma SpansOfNext(cards: seq<Card>, start: nat, i: nat)
    requires start <= i < |cards|
    ensures cards[start..i + 1] == cards[start..i] + [cards[i]]
    ensures Spans(cards[start..i + 1]) == Spans(cards[start..i]) + cards[i].span
  {
    assert cards[start..i + 1][..i - start] == cards[start..i];
  }

  lemma {:induction false} SpansOfPart(cards: seq<Card>, i: nat, i': nat, j': nat, j: nat)
    requires AllAccepted(cards) && i <= i' <= j' <= j <= |cards|
    ensures Spans(cards[i'..j']) <= Spans(cards[i..j])
    decreases j - i
  {
    hide Spans;
    if j' < j {
      SpansOfNext(cards, i, j - 1);
      SpansOfPart(cards, i, i', j', j - 1);
    } else if i < i' {
      SpansOfPart(cards, i + 1, i', j', j);
      SpansFromTheFront(cards, i, j);
    }
  }

  lemma {:induction false} SpansFromTheFront(cards: seq<Card>, i: nat, j: nat)
    requires i < j <= |cards|
    ensures Spans(cards[i..j]) == cards[i].span + Spans(cards[i + 1..j])
    decreases j - i
  {
    hide Spans;
    SpansOfNext(cards, i, j - 1);
    if i + 1 < j {
      SpansOfNext(cards, i + 1, j - 1);
      SpansFromTheFront(cards, i, j - 1);
    } else {
      assert cards[i..i] == [] && cards[j..j] == [];
      NothingSpans();
    }
  }

  lemma RowFitsIsHereditary(cards: seq<Card>)
    requires AllAccepted(cards)
    ensures Hereditary(RowFits(cards), |cards|)
  {
    var fits := RowFits(cards);
    forall i: nat, i': nat, j': nat, j: nat | i <= i' < j' <= j <= |cards| && fits(i, j) ensures fits(i', j') {
      SpansOfPart(cards, i, i', j', j);
    }
  }

  /** The rows of a split. */
  function RowsOf(cards: seq<Card>, cuts: seq<nat>): (rows: seq<seq<Card>>)
    requires Within(cuts, |cards|)
    ensures |rows| == |cuts| - 1
  {
    if |cuts| == 1 then []
    else
      var m := |cuts| - 1;
      assert cuts[m - 1] < cuts[m];
      RowsOf(cards, cuts[..m]) + [cards[cuts[m - 1]..cuts[m]]]
  }

  lemma {:induction false} RowAt(cards: seq<Card>, cuts: seq<nat>, k: nat)
    requires Within(cuts, |cards|) && k + 1 < |cuts|
    ensures cuts[k] < cuts[k + 1] <= |cards|
    ensures RowsOf(cards, cuts)[k] == cards[cuts[k]..cuts[k + 1]]
  {
    var m := |cuts| - 1;
    if k + 1 < m {
      RowAt(cards, cuts[..m], k);
    }
  }

  lemma AddRow(cards: seq<Card>, cuts: seq<nat>, i: nat)
    requires Within(cuts, |cards|) && cuts[|cuts| - 1] < i <= |cards|
    ensures Within(cuts + [i], |cards|)
    ensures RowsOf(cards, cuts + [i]) == RowsOf(cards, cuts) + [cards[cuts[|cuts| - 1]..i]]
  {
    assert (cuts + [i])[..|cuts|] == cuts;
  }

  /** The closed rows, and the row that is being filled with the cards up to position i - 1. */
  predicate Filling(rows: seq<seq<Card>>, used: int, cards: seq<Card>, cuts: seq<nat>, i: nat) {
    Within(cuts, |cards|) && cuts[|cuts| - 1] <= i <= |cards| &&
    rows == RowsOf(cards, cuts) + [cards[cuts[|cuts| - 1]..i]] && used == Spans(cards[cuts[|cuts| - 1]..i])
  }

  function WithCard(rows: seq<seq<Card>>, card: Card): seq<seq<Card>>
    requires rows != []
  {
    rows[..|rows| - 1] + [rows[|rows| - 1] + [card]]
  }

  lemma AddCard(rows: seq<seq<Card>>, used: int, cards: seq<Card>, cuts: seq<nat>, i: nat)
    requires Filling(rows, used, cards, cuts, i) && i < |cards|
    ensures Filling(WithCard(rows, cards[i]), used + cards[i].span, cards, cuts, i + 1)
    ensures RowFits(cards)(cuts[|cuts| - 1], i + 1) <==> used + cards[i].span <= 3
  {
    hide RowsOf, Spans;
    var start := cuts[|cuts| - 1];
    SpansOfNext(cards, start, i);
    assert rows[..|rows| - 1] == RowsOf(cards, cuts);
  }

  lemma AddEmptyRow(rows: seq<seq<Card>>, used: int, cards: seq<Card>, cuts: seq<nat>, i: nat)
    requires Filling(rows, used, cards, cuts, i) && cuts[|cuts| - 1] < i
    ensures Filling(rows + [[]], 0, cards, cuts + [i], i)
    ensures rows == RowsOf(cards, cuts + [i])
  {
    AddRow(cards, cuts, i);
    assert cards[i..i] == [];
  }

  lemma FirstOpened(cards: seq<Card>)
    ensures Opened([0], 0, RowFits(cards))
  {
  }

  /** The first card of the next row does not fit on this one. */
  predicate RowIsFull(rows: seq<seq<Card>>, k: nat)
    requires k + 1 < |rows|
  {
    rows[k + 1] != [] && Spans(rows[k]) + rows[k + 1][0].span > 3
  }

  predicate AllFull(rows: seq<seq<Card>>) {
    forall k: nat | k < |rows| - 1 :: RowIsFull(rows, k)
  }

  lemma GreedyRowsAreFull(cards: seq<Card>, cuts: seq<nat>)
    requires Greedy(cuts, |cards|, RowFits(cards))
    ensures AllFull(RowsOf(cards, cuts))
  {
    hide RowsOf, Spans;
    forall k: nat | k < |cuts| - 2 ensures RowIsFull(RowsOf(cards, cuts), k) {
      assert GroupIsFull(cuts, k, RowFits(cards));
      RowAt(cards, cuts, k);
      RowAt(cards, cuts, k + 1);
      SpansOfNext(cards, cuts[k], cuts[k + 1]);
    }
  }

  /** Cards fill the rows in order: a card opens a new row exactly when its span does not fit on the last one. No
      in-order filling uses fewer rows. */
  method FillRows(cards: seq<Card>) returns (rows: seq<seq<Card>>, ghost cuts: seq<nat>)
    requires AllAccepted(cards)
    ensures Valid(cuts, |cards|, RowFits(cards)) && rows == RowsOf(cards, cuts)
    ensures forall other | Valid(other, |cards|, RowFits(cards)) :: |rows| <= |other| - 1
    ensures AllFull(rows)
  {
    hide RowFits, Opened, Valid, RowsOf, RowIsFull;
    FirstOpened(cards);
    cuts := [0];
    rows := [];
    var used := 0;
    for i := 0 to |cards|
      invariant Opened(cuts, i, RowFits(cards)) && InProgress(rows, used, cards, cuts, i)
    {
      var span := cards[i].span;
      cuts := Continue(rows, used, cards, cuts, i);
      if rows == [] || used + span > 3 {
        rows := rows + [[]];
        used := 0;
      }
      rows := WithCard(rows, cards[i]);
      used := used + span;
    }
    Filled(rows, used, cards, cuts);
    cuts := Complete(cuts, |cards|);
  }

  predicate InProgress(rows: seq<seq<Card>>, used: int, cards: seq<Card>, cuts: seq<nat>, i: nat) {
    if i == 0 then cuts == [0] && rows == [] && used == 0
    else Filling(rows, used, cards, cuts, i) && cuts[|cuts| - 1] < i
  }

  lemma Filled(rows: seq<seq<Card>>, used: int, cards: seq<Card>, cuts: seq<nat>)
    requires AllAccepted(cards)
    requires Opened(cuts, |cards|, RowFits(cards)) && InProgress(rows, used, cards, cuts, |cards|)
    ensures var all := Complete(cuts, |cards|);
            Valid(all, |cards|, RowFits(cards)) && rows == RowsOf(cards, all)
    ensures forall other | Valid(other, |cards|, RowFits(cards)) :: |rows| <= |other| - 1
    ensures AllFull(rows)
  {
    hide RowIsFull;
    CloseLast(cuts, |cards|, RowFits(cards));
    if |cards| > 0 {
      AddEmptyRow(rows, used, cards, cuts, |cards|);
    }
    RowFitsIsHereditary(cards);
    GreedyIsOptimal(Complete(cuts, |cards|), |cards|, RowFits(cards));
    SinglesFit(cards, Complete(cuts, |cards|));
    GreedyRowsAreFull(cards, Complete(cuts, |cards|));
  }

  /** The row under way, or a new one when the card does not fit on it. */
  lemma Continue(rows: seq<seq<Card>>, used: int, cards: seq<Card>, cuts: seq<nat>, i: nat) returns (next: seq<nat>)
    requires AllAccepted(cards) && i < |cards|
    requires Opened(cuts, i, RowFits(cards)) && InProgress(rows, used, cards, cuts, i)
    ensures var opens := rows == [] || used + cards[i].span > 3;
            var open, filled := if opens then rows + [[]] else rows, if opens then 0 else used;
            && Opened(next, i + 1, RowFits(cards))
            && InProgress(WithCard(open, cards[i]), filled + cards[i].span, cards, next, i + 1)
  {
    if i == 0 {
      next := cuts;
      ContinueFirst(cards);
    } else if used + cards[i].span > 3 {
      next := ContinueBelow(rows, used, cards, cuts, i);
    } else {
      next := cuts;
      assert rows != [];
      AddCard(rows, used, cards, cuts, i);
      StayOpen(cuts, i, RowFits(cards));
    }
  }

  lemma FirstFilling(cards: seq<Card>)
    ensures Filling([[]], 0, cards, [0], 0)
  {
    hide Spans;
    assert cards[0..0] == [];
    NothingSpans();
  }

  lemma NothingSpans()
    ensures Spans([]) == 0
  {
  }

  lemma ContinueFirst(cards: seq<Card>)
    requires AllAccepted(cards) && cards != []
    ensures Opened([0], 1, RowFits(cards)) && InProgress(WithCard([[]], cards[0]), cards[0].span, cards, [0], 1)
    ensures cards[0].span <= 3
  {
    assert Accepted(cards[0]);
    hide RowsOf, Spans, RowFits, Accepted;
    FirstFilling(cards);
    FirstOpened(cards);
    AddCard([[]], 0, cards, [0], 0);
    StayOpen([0], 0, RowFits(cards));
  }

  lemma ContinueBelow(rows: seq<seq<Card>>, used: int, cards: seq<Card>, cuts: seq<nat>, i: nat) returns (next: seq<nat>)
    requires AllAccepted(cards) && 0 < i < |cards| && used + cards[i].span > 3
    requires Opened(cuts, i, RowFits(cards)) && InProgress(rows, used, cards, cuts, i)
    ensures Opened(next, i + 1, RowFits(cards))
    ensures InProgress(WithCard(rows + [[]], cards[i]), cards[i].span, cards, next, i + 1)
  {
    AddCard(rows, used, cards, cuts, i);
    AddEmptyRow(rows, used, cards, cuts, i);
    OpenNext(cuts, i, RowFits(cards));
    next := cuts + [i];
    AddCard(rows + [[]], 0, cards, next, i);
  }

  lemma SinglesFit(cards: seq<Card>, cuts: seq<nat>)
    requires AllAccepted(cards) && Greedy(cuts, |cards|, RowFits(cards))
    ensures Valid(cuts, |cards|, RowFits(cards))
  {
    forall k: nat | k < |cuts| - 1 ensures GroupFits(cuts, k, RowFits(cards)) {
      if GroupIsSingle(cuts, k) {
        assert cuts[k] < cuts[k + 1] <= cuts[|cuts| - 1];
        assert cards[cuts[k]..cuts[k + 1]] == [cards[cuts[k]]];
        assert [cards[cuts[k]]][..0] == [];
        assert Accepted(cards[cuts[k]]);
        assert Spans([cards[cuts[k]]]) == Spans([]) + cards[cuts[k]].span;
      }
    }
  }

  // ----- where the cards stand

  datatype Placed = Placed(card: Card, box: Box, row: nat)

  /** A column is (780 - 2 * 25) / 3 wide. */
  function CardWidth(span: int): real {
    span as real * (730.0 / 3.0) + (span - 1) as real * 25.0
  }

  /** The left edge of a card that stands after `before` columns. */
  function LeftEdge(before: int): real {
    GRID_X + before as real * (730.0 / 3.0 + 25.0)
  }

  lemma NextEdge(before: int, span: int)
    requires 0 <= before && 1 <= span && before + span <= 3
    ensures LeftEdge(before) + CardWidth(span) + GRID_GAP == LeftEdge(before + span)
    ensures GRID_X <= LeftEdge(before) && LeftEdge(before) + CardWidth(span) <= GRID_X + GRID_W
  {
  }

  predicate HasHeight(row: seq<Card>) {
    row != [] && AllMeasurable(row)
  }

  function Tallest(row: seq<Card>): (h: int)
    requires HasHeight(row)
    ensures forall i | 0 <= i < |row| :: CardHeight(row[i]) <= h
    ensures exists i :: 0 <= i < |row| && CardHeight(row[i]) == h
  {
    var last := row[|row| - 1];
    if |row| == 1 then
      CardHeight(last)
    else
      var h := Tallest(row[..|row| - 1]);
      assert forall i | 0 <= i < |row| - 1 :: CardHeight(row[i]) == CardHeight(row[..|row| - 1][i]);
      if CardHeight(last) > h then CardHeight(last) else h
  }

  predicate HaveHeights(rows: seq<seq<Card>>) {
    forall r | 0 <= r < |rows| :: HasHeight(rows[r])
  }

  predicate IsRow(row: seq<Card>) {
    AllAccepted(row) && Spans(row) <= 3
  }

  predicate AreRows(rows: seq<seq<Card>>) {
    forall r | 0 <= r < |rows| :: IsRow(rows[r])
  }

  /** The top of row r: below it every earlier row has its height and a gap. */
  function RowTop(rows: seq<seq<Card>>, r: nat): real
    requires r <= |rows| && HaveHeights(rows)
  {
    if r == 0 then GRID_TOP else RowTop(rows, r - 1) + Tallest(rows[r - 1]) as real + ROW_GAP
  }

  function PlaceOf(row: seq<Card>, k: nat, index: nat, y: real): (p: Placed)
    requires k < |row| && HasHeight(row)
    ensures p.card == row[k] && p.row == index && p.box.y == y && p.box.h == Tallest(row) as real
  {
    Placed(row[k], Box(LeftEdge(Spans(row[..k])), y, CardWidth(row[k].span), Tallest(row) as real), index)
  }

  /** Every card of the row at one height, each behind the spans before it. */
  function PlacedRow(row: seq<Card>, index: nat, y: real): (placed: seq<Placed>)
    requires HasHeight(row)
    ensures |placed| == |row| && forall k | 0 <= k < |row| :: placed[k] == PlaceOf(row, k, index, y)
  {
    seq(|row|, k requires 0 <= k < |row| => PlaceOf(row, k, index, y))
  }

  /** The first `n` rows, one below the other. */
  function Placement(rows: seq<seq<Card>>, n: nat): seq<Placed>
    requires n <= |rows| && HaveHeights(rows)
  {
    if n == 0 then [] else Placement(rows, n - 1) + PlacedRow(rows[n - 1], n - 1, RowTop(rows, n - 1))
  }

  lemma TallestStep(row: seq<Card>, i: nat)
    requires i < |row| && AllMeasurable(row)
    ensures HasHeight(row[..i + 1])
    ensures var last := CardHeight(row[i]);
            Tallest(row[..i + 1]) == if i == 0 then last else if last > Tallest(row[..i]) then last else Tallest(row[..i])
  {
    assert row[..i + 1][..i] == row[..i];
  }

  lemma NextPlaced(rows: seq<seq<Card>>, n: nat)
    requires n <= |rows| && HaveHeights(rows)
    ensures if n == 0 then RowTop(rows, n) == GRID_TOP && Placement(rows, n) == []
            else
              && RowTop(rows, n) == RowTop(rows, n - 1) + Tallest(rows[n - 1]) as real + ROW_GAP
              && Placement(rows, n) == Placement(rows, n - 1) + PlacedRow(rows[n - 1], n - 1, RowTop(rows, n - 1))
  {
  }

  /** `max(card_height(c) for c in row)` */
  method RowHeight(row: seq<Card>) returns (h: int)
    requires HasHeight(row)
    ensures h == Tallest(row)
  {
    hide CardHeight, Tallest;
    h := CardHeight(row[0]);
    TallestStep(row, 0);
    for i := 1 to |row|
      invariant h == Tallest(row[..i])
    {
      TallestStep(row, i);
      if CardHeight(row[i]) > h {
        h := CardHeight(row[i]);
      }
    }
    assert row[..|row|] == row;
  }

  lemma RoomForNext(row: seq<Card>, i: nat)
    requires AllAccepted(row) && Spans(row) <= 3 && i < |row|
    ensures Spans(row[..i + 1]) == Spans(row[..i]) + row[i].span <= 3 && Spans(row[..i]) >= 0
  {
    assert row[..i + 1][..i] == row[..i];
    assert row[0..i + 1] == row[..i + 1] && row[0..|row|] == row && row[0..i] == row[..i] && row[0..0] == [];
    SpansOfPart(row, 0, 0, i + 1, |row|);
    SpansOfPart(row, 0, 0, 0, i);
  }

  /** Places one row at height `y`. */
  method PlaceCardRow(row: seq<Card>, index: nat, y: real, before: seq<Placed>) returns (placed: seq<Placed>, bottom: real)
    requires HasHeight(row) && IsRow(row)
    ensures placed == before + PlacedRow(row, index, y) && bottom == y + Tallest(row) as real + ROW_GAP
  {
    hide CardHeight, Spans, Tallest, HasHeight;
    NothingSpans();
    var h := RowHeight(row);
    var x := GRID_X;
    placed := before;
    assert row[..0] == [];
    for i := 0 to |row|
      invariant x == LeftEdge(Spans(row[..i]))
      invariant placed == before + PlacedRow(row, index, y)[..i]
    {
      var span := row[i].span;
      RoomForNext(row, i);
      NextEdge(Spans(row[..i]), span);
      var w := CardWidth(span);
      placed := placed + [Placed(row[i], Box(x, y, w, h as real), index)];
      x := x + w + GRID_GAP;
    }
    bottom := y + h as real + ROW_GAP;
  }

  datatype ZeroColumns = ZeroColumns(row: nat)

  /** The grid of the picture: on as few rows as any in-order filling can use every card stands where the rows
      before it and the spans to its left put it; the only failure is a stacked card with no columns. */
  method PlaceCards(cards: seq<Card>) returns (r: Result<seq<Placed>, ZeroColumns>, rows: seq<seq<Card>>, ghost cuts: seq<nat>)
    requires AllAccepted(cards)
    ensures r.Ok? <==> AllMeasurable(cards)
    ensures Valid(cuts, |cards|, RowFits(cards)) && rows == RowsOf(cards, cuts)
    ensures forall other | Valid(other, |cards|, RowFits(cards)) :: |rows| <= |other| - 1
    ensures AreRows(rows) && AllFull(rows)
    ensures r.Ok? ==> HaveHeights(rows) && r.value == Placement(rows, |rows|)
  {
    hide Spans, RowsOf, RowFits, RowIsFull, AllMeasurable, HasHeight, CardHeight, Tallest, IsRow, Placement, PlacedRow, RowTop;
    rows, cuts := FillRows(cards);
    var placed: seq<Placed> := [];
    var y := GRID_TOP;
    NothingYet(cards);
    FilledRows(cards, cuts);
    NextPlaced(rows[..0], 0);
    for i := 0 to |rows|
      invariant cuts[i] <= |cards| && AllMeasurable(cards[..cuts[i]]) && HaveHeights(rows[..i])
      invariant y == RowTop(rows[..i], i) && placed == Placement(rows[..i], i)
    {
      RowAt(cards, cuts, i);
      GroupsFitOnARow(cards, cuts, i);
      CardsOfRow(cards, cuts[i], cuts[i + 1]);
      RowIsRow(cards, cuts[i], cuts[i + 1]);
      if !AllMeasurable(rows[i]) {
        return Err(ZeroColumns(i)), rows, cuts;
      }
      OneRowMore(rows[..i], rows[i]);
      assert rows[..i + 1] == rows[..i] + [rows[i]];
      placed, y := PlaceCardRow(rows[i], i, y, placed);
    }
    assert cards[..|cards|] == cards && rows[..|rows|] == rows;
    r := Ok(placed);
  }

  lemma RowIsRow(cards: seq<Card>, start: nat, end: nat)
    requires start < end <= |cards| && AllAccepted(cards) && Spans(cards[start..end]) <= 3
    ensures IsRow(cards[start..end]) && (AllMeasurable(cards[start..end]) ==> HasHeight(cards[start..end]))
  {
    hide Spans;
  }

  lemma FilledRows(cards: seq<Card>, cuts: seq<nat>)
    requires AllAccepted(cards) && Valid(cuts, |cards|, RowFits(cards))
    ensures AreRows(RowsOf(cards, cuts))
  {
    hide Spans, RowsOf, RowFits, IsRow;
    forall i: nat | i < |cuts| - 1 ensures IsRow(RowsOf(cards, cuts)[i]) {
      RowAt(cards, cuts, i);
      GroupsFitOnARow(cards, cuts, i);
      RowIsRow(cards, cuts[i], cuts[i + 1]);
    }
  }

  lemma NothingYet(cards: seq<Card>)
    ensures AllMeasurable(cards[..0])
  {
  }

  lemma {:induction false} SameAbove(rows: seq<seq<Card>>, row: seq<Card>, n: nat)
    requires HaveHeights(rows) && HaveHeights(rows + [row]) && n <= |rows|
    ensures RowTop(rows + [row], n) == RowTop(rows, n) && Placement(rows + [row], n) == Placement(rows, n)
  {
    hide Tallest, HasHeight;
    if n > 0 {
      SameAbove(rows, row, n - 1);
    }
  }

  lemma OneRowMore(rows: seq<seq<Card>>, row: seq<Card>)
    requires HaveHeights(rows) && HasHeight(row)
    ensures HaveHeights(rows + [row])
    ensures RowTop(rows + [row], |rows| + 1) == RowTop(rows, |rows|) + Tallest(row) as real + ROW_GAP
    ensures Placement(rows + [row], |rows| + 1) == Placement(rows, |rows|) + PlacedRow(row, |rows|, RowTop(rows, |rows|))
  {
    hide Tallest, HasHeight;
    SameAbove(rows, row, |rows|);
  }

  lemma CardsOfRow(cards: seq<Card>, start: nat, end: nat)
    requires start < end <= |cards|
    ensures AllMeasurable(cards[..end]) <==> AllMeasurable(cards[..start]) && AllMeasurable(cards[start..end])
    ensures AllMeasurable(cards) ==> AllMeasurable(cards[..end])
    ensures AllDrawable(cards) ==> AllDrawable(cards[start..end])
    ensures AllAccepted(cards) ==> AllAccepted(cards[start..end])
  {
    hide Measurable, Drawable, Accepted;
    assert forall k | 0 <= k < end :: cards[..end][k] == cards[k];
    assert forall k | 0 <= k < start :: cards[..start][k] == cards[k];
    assert forall k | start <= k < end :: cards[start..end][k - start] == cards[k];
  }

  lemma GroupsFitOnARow(cards: seq<Card>, cuts: seq<nat>, i: nat)
    requires Valid(cuts, |cards|, RowFits(cards)) && i + 1 < |cuts| && cuts[i] < cuts[i + 1] <= |cards|
    ensures Spans(cards[cuts[i]..cuts[i + 1]]) <= 3
  {
    hide Spans;
    assert GroupFits(cuts, i, RowFits(cards));
  }

  /** The card at position i, on the row whose group holds that position. */
  predicate IsCardAt(p: Placed, cards: seq<Card>, cuts: seq<nat>, i: nat) {
    i < |cards| && p.card == cards[i] && p.row + 1 < |cuts| && cuts[p.row] <= i < cuts[p.row + 1]
  }

  lemma CardsOfOneRow(cards: seq<Card>, cuts: seq<nat>, r: nat, y: real)
    requires Within(cuts, |cards|) && r + 1 < |cuts|
    requires cuts[r] < cuts[r + 1] <= |cards| && HasHeight(cards[cuts[r]..cuts[r + 1]])
    ensures var block := PlacedRow(cards[cuts[r]..cuts[r + 1]], r, y);
            && |block| == cuts[r + 1] - cuts[r]
            && forall k: nat | k < |block| :: block[k].row == r && IsCardAt(block[k], cards, cuts, cuts[r] + k)
  {
    hide Tallest, HasHeight, Spans, CardWidth, LeftEdge;
    var row := cards[cuts[r]..cuts[r + 1]];
    forall k: nat | k < |row|
      ensures PlacedRow(row, r, y)[k].row == r && IsCardAt(PlacedRow(row, r, y)[k], cards, cuts, cuts[r] + k)
    {
      assert PlacedRow(row, r, y)[k] == PlaceOf(row, k, r, y) && row[k] == cards[cuts[r] + k];
    }
  }

  lemma CardsJoin(before: seq<Placed>, row: seq<Placed>, cards: seq<Card>, cuts: seq<nat>, n: nat)
    requires n > 0 && forall i: nat | i < |before| :: before[i].row < n - 1 && IsCardAt(before[i], cards, cuts, i)
    requires forall k: nat | k < |row| :: row[k].row == n - 1 && IsCardAt(row[k], cards, cuts, |before| + k)
    ensures forall i: nat | i < |before + row| :: (before + row)[i].row < n && IsCardAt((before + row)[i], cards, cuts, i)
  {
    hide IsCardAt;
  }

  lemma CutsAreWithin(cuts: seq<nat>, n: nat)
    requires Cuts(cuts, n)
    ensures Within(cuts, n) && cuts[0] == 0
  {
  }

  lemma RowHasHeight(rows: seq<seq<Card>>, r: nat)
    requires r < |rows| && HaveHeights(rows)
    ensures HasHeight(rows[r])
  {
  }

  /** The card at position i of the list stands on the row whose group holds position i. */
  lemma {:induction false} CardsInOrder(cards: seq<Card>, cuts: seq<nat>, n: nat)
    requires Cuts(cuts, |cards|) && n < |cuts| && HaveHeights(RowsOf(cards, cuts))
    ensures |Placement(RowsOf(cards, cuts), n)| == cuts[n] <= |cards|
    ensures forall i: nat | i < cuts[n] ::
              Placement(RowsOf(cards, cuts), n)[i].row < n && IsCardAt(Placement(RowsOf(cards, cuts), n)[i], cards, cuts, i)
  {
    hide *;
    CutsAreWithin(cuts, |cards|);
    var rows := RowsOf(cards, cuts);
    NextPlaced(rows, n);
    if n > 0 {
      RowHasHeight(rows, n - 1);
      CardsInOrder(cards, cuts, n - 1);
      RowAt(cards, cuts, n - 1);
      CardsOfOneRow(cards, cuts, n - 1, RowTop(rows, n - 1));
      CardsJoin(Placement(rows, n - 1), PlacedRow(rows[n - 1], n - 1, RowTop(rows, n - 1)), cards, cuts, n);
    }
  }

  // ----- when the cards are apart

  /** The first card ends before the second begins, on the same row, or its row ends before the row of the
      second begins. */
  predicate Apart(a: Placed, b: Placed) {
    if a.row == b.row then a.box.y == b.box.y && a.box.h == b.box.h && a.box.x + a.box.w + GRID_GAP <= b.box.x
    else a.row < b.row && a.box.y + a.box.h + ROW_GAP <= b.box.y
  }

  predicate InGrid(p: Placed) {
    && Accepted(p.card) && Measurable(p.card)
    && GRID_X <= p.box.x && p.box.x + p.box.w <= GRID_X + GRID_W && p.box.y >= GRID_TOP
    && p.box.w == CardWidth(p.card.span) && p.box.h >= CardHeight(p.card) as real
  }

  predicate WellPlaced(placed: seq<Placed>) {
    (forall i | 0 <= i < |placed| :: InGrid(placed[i])) &&
    forall i, j | 0 <= i < j < |placed| :: Apart(placed[i], placed[j])
  }

  lemma CardsAreDisjoint(placed: seq<Placed>, i: nat, j: nat)
    requires WellPlaced(placed) && i < j < |placed|
    ensures !Overlap(placed[i].box, placed[j].box)
  {
    assert Apart(placed[i], placed[j]);
  }

  /** Everything placed is on an earlier row and ends, with the gap below it, at `y` or above. */
  predicate Above(placed: seq<Placed>, index: nat, y: real) {
    forall i | 0 <= i < |placed| :: placed[i].row < index && placed[i].box.y + placed[i].box.h + ROW_GAP <= y
  }

  lemma InsideOneRow(row: seq<Card>, index: nat, y: real, j: nat, k: nat)
    requires HasHeight(row) && IsRow(row) && j < k < |row|
    ensures Apart(PlaceOf(row, j, index, y), PlaceOf(row, k, index, y))
  {
    hide CardHeight, Spans, Tallest;
    RoomForNext(row, j);
    RoomForNext(row, k);
    NextEdge(Spans(row[..j]), row[j].span);
    assert row[0..j + 1] == row[..j + 1] && row[0..k] == row[..k];
    SpansOfPart(row, 0, 0, j + 1, k);
  }

  lemma PlacedInGrid(row: seq<Card>, index: nat, y: real, k: nat)
    requires HasHeight(row) && IsRow(row) && k < |row| && y >= GRID_TOP
    ensures InGrid(PlaceOf(row, k, index, y))
  {
    hide CardHeight, Spans;
    assert Accepted(row[k]) && Measurable(row[k]) && CardHeight(row[k]) <= Tallest(row);
    RoomForNext(row, k);
    NextEdge(Spans(row[..k]), row[k].span);
  }

  lemma RowFollows(before: seq<Placed>, row: seq<Card>, index: nat, y: real)
    requires WellPlaced(before) && Above(before, index, y) && y >= GRID_TOP && HasHeight(row) && IsRow(row) && Tallest(row) >= 0
    ensures WellPlaced(before + PlacedRow(row, index, y))
    ensures Above(before + PlacedRow(row, index, y), index + 1, y + Tallest(row) as real + ROW_GAP)
  {
    hide CardHeight, Spans, HasHeight, IsRow, Tallest, InGrid, PlaceOf;
    var placed, n := before + PlacedRow(row, index, y), |before|;
    forall i | n <= i < |placed| ensures InGrid(placed[i]) && placed[i] == PlaceOf(row, i - n, index, y) {
      PlacedInGrid(row, index, y, i - n);
    }
    forall i, j | 0 <= i < j < |placed| ensures Apart(placed[i], placed[j]) {
      if i >= n {
        InsideOneRow(row, index, y, i - n, j - n);
      } else if j >= n {
        assert placed[i] == before[i];
      } else {
        assert placed[i] == before[i] && placed[j] == before[j];
      }
    }
  }

  /** Rows of heights that are not negative keep all cards inside the grid and apart. */
  lemma {:induction false} TallRowsAreWellPlaced(rows: seq<seq<Card>>, n: nat)
    requires n <= |rows| && HaveHeights(rows) && AreRows(rows) && forall r | 0 <= r < n :: Tallest(rows[r]) >= 0
    ensures WellPlaced(Placement(rows, n)) && Above(Placement(rows, n), n, RowTop(rows, n)) && RowTop(rows, n) >= GRID_TOP
  {
    hide HasHeight, IsRow, Tallest, WellPlaced, Above, Placement, RowTop, PlaceOf, PlacedRow;
    NextPlaced(rows, n);
    if n == 0 {
      NothingPlaced();
    } else {
      TallRowsAreWellPlaced(rows, n - 1);
      RowFollows(Placement(rows, n - 1), rows[n - 1], n - 1, RowTop(rows, n - 1));
    }
  }

  lemma NothingPlaced()
    ensures WellPlaced([]) && Above([], 0, GRID_TOP)
  {
  }

  lemma HeightIsPositive(c: Card)
    requires Drawable(c)
    ensures CardHeight(c) > 0
  {
    var n := |c.named|;
    assert CardStyle(c) == Stack ==> (-n) / c.columns <= -1;
  }

  /** With a positive number of columns on every stacked card no card overlaps another. */
  lemma DrawableCardsAreWellPlaced(rows: seq<seq<Card>>)
    requires HaveHeights(rows) && AreRows(rows) && forall r | 0 <= r < |rows| :: AllDrawable(rows[r])
    ensures WellPlaced(Placement(rows, |rows|))
  {
    hide CardHeight, Placement, WellPlaced, Spans;
    forall r | 0 <= r < |rows| ensures Tallest(rows[r]) >= 0 {
      assert HasHeight(rows[r]) && AllDrawable(rows[r]);
      HeightIsPositive(rows[r][0]);
    }
    TallRowsAreWellPlaced(rows, |rows|);
  }

  /** Something is written on every card: a text that is bound to it and has a size, as its title. */
  predicate AllWritten(placed: seq<Placed>, texts: seq<TextBox>) {
    forall i | 0 <= i < |placed| :: IsWritten(placed[i], texts)
  }

  predicate IsWritten(p: Placed, texts: seq<TextBox>) {
    exists t :: 0 <= t < |texts| && texts[t].bound == Some(p.box) && texts[t].top < texts[t].bottom
  }

  lemma WrittenHeight(p: Placed, texts: seq<TextBox>)
    requires IsWritten(p, texts) && forall t | 0 <= t < |texts| :: !LeavesCard(texts[t])
    ensures p.box.h > 0.0
  {
  }

  lemma {:induction false} FirstOfRow(rows: seq<seq<Card>>, n: nat, r: nat) returns (i: nat)
    requires r < n <= |rows| && HaveHeights(rows)
    ensures i < |Placement(rows, n)| && Placement(rows, n)[i].box.h == Tallest(rows[r]) as real
  {
    hide Tallest, PlaceOf, RowTop;
    assert HasHeight(rows[r]);
    if r == n - 1 {
      i := |Placement(rows, n - 1)|;
    } else {
      i := FirstOfRow(rows, n - 1, r);
    }
  }

  /** In every picture that is written, whatever the numbers of columns, no card overlaps another: what is
      written on a card could not stay inside a card without height. */
  lemma WrittenPicturesAreWellPlaced(rows: seq<seq<Card>>, texts: seq<TextBox>, width: real, height: real, margin: real)
    requires HaveHeights(rows) && AreRows(rows) && AllWritten(Placement(rows, |rows|), texts)
    requires forall p :: !IsProblem(texts, width, height, margin, p)
    ensures WellPlaced(Placement(rows, |rows|))
  {
    hide Tallest, Placement, WellPlaced, HasHeight, IsRow, IsWritten;
    forall t | 0 <= t < |texts| ensures !LeavesCard(texts[t]) {
      assert !IsProblem(texts, width, height, margin, OffCard(t));
    }
    forall r | 0 <= r < |rows| ensures Tallest(rows[r]) >= 0 {
      var i := FirstOfRow(rows, |rows|, r);
      WrittenHeight(Placement(rows, |rows|)[i], texts);
    }
    TallRowsAreWellPlaced(rows, |rows|);
  }

  // ----- a placement with cards on one another

  lemma {:induction false} WideCardsStandAlone(cards: seq<Card>, cuts: seq<nat>, k: nat)
    requires AllAccepted(cards) && Valid(cuts, |cards|, RowFits(cards)) && forall i | 0 <= i < |cards| :: cards[i].span == 3
    requires k < |cuts|
    ensures cuts[k] == k && (k < |cards| ==> k + 1 < |cuts|)
  {
    hide Spans;
    if k > 0 {
      WideCardsStandAlone(cards, cuts, k - 1);
      assert GroupFits(cuts, k - 1, RowFits(cards));
      assert k - 1 < cuts[k] <= |cards|;
      if cuts[k] > k {
        SpansOfNext(cards, k - 1, k - 1);
        SpansOfNext(cards, k - 1, k);
        SpansOfPart(cards, k - 1, k - 1, k + 1, cuts[k]);
        assert cards[k - 1..k - 1] == [];
        NothingSpans();
      }
    }
  }

  /** Three cards over the whole width; the stacked one divides five rows by -1. */
  function StackBetweenLists(): (cards: seq<Card>)
    ensures AllAccepted(cards) && AllMeasurable(cards) && |cards| == 3
  {
    [Card(3, 1, Some(List), [true]), Card(3, -1, Some(Stack), [true, true, true, true, true]), Card(3, 1, Some(List), [true])]
  }

  lemma HeightOfOne(card: Card)
    requires Measurable(card)
    ensures HasHeight([card]) && Tallest([card]) == CardHeight(card)
  {
  }

  lemma SampleHeights()
    ensures var cards := StackBetweenLists();
            CardHeight(cards[0]) == 111 && CardHeight(cards[1]) == -98 && CardHeight(cards[2]) == 111
  {
  }

  lemma OneCardRow(card: Card, index: nat, y: real)
    requires Measurable(card) && card.span == 3
    ensures HasHeight([card])
    ensures PlacedRow([card], index, y) == [Placed(card, Box(GRID_X, y, CardWidth(3), CardHeight(card) as real), index)]
  {
    hide CardHeight;
    HeightOfOne(card);
    assert [card][..0] == [];
  }

  /** A stacked card with a negative number of columns: the third card begins above the end of the first. */
  lemma NegativeColumnsOverlap(cuts: seq<nat>)
    requires Valid(cuts, 3, RowFits(StackBetweenLists()))
    ensures var rows := RowsOf(StackBetweenLists(), cuts);
            && |rows| == 3 && HaveHeights(rows) && |Placement(rows, 3)| == 3
            && Overlap(Placement(rows, 3)[0].box, Placement(rows, 3)[2].box)
  {
    hide CardHeight, Tallest, RowsOf, RowFits, PlacedRow, HasHeight, StackBetweenLists;
    var cards := StackBetweenLists();
    var rows := RowsOf(cards, cuts);
    RowsOfSample(cuts);
    OneCardRow(cards[0], 0, 200.0);
    OneCardRow(cards[1], 1, 341.0);
    OneCardRow(cards[2], 2, 273.0);
    SampleHeights();
    HeightOfOne(cards[0]);
    HeightOfOne(cards[1]);
    assert HaveHeights(rows);
    NextPlaced(rows, 0);
    NextPlaced(rows, 1);
    NextPlaced(rows, 2);
    NextPlaced(rows, 3);
  }

  lemma RowsOfSample(cuts: seq<nat>)
    requires Valid(cuts, 3, RowFits(StackBetweenLists()))
    ensures var cards := StackBetweenLists();
            && RowsOf(cards, cuts) == [[cards[0]], [cards[1]], [cards[2]]]
            && forall i | 0 <= i < 3 :: cards[i].span == 3 && Measurable(cards[i])
  {
    hide RowsOf, RowFits;
    var cards := StackBetweenLists();
    WideCardsStandAlone(cards, cuts, 0);
    WideCardsStandAlone(cards, cuts, 1);
    WideCardsStandAlone(cards, cuts, 2);
    WideCardsStandAlone(cards, cuts, 3);
    assert |cuts| == 4;
    RowAt(cards, cuts, 0);
    RowAt(cards, cuts, 1);
    RowAt(cards, cuts, 2);
    assert cards[0..1] == [cards[0]] && cards[1..2] == [cards[1]] && cards[2..3] == [cards[2]];
  }

  // ----- the rows of a stacked card

  datatype Cell = Cell(column: int, line: int)

  /** `divmod(i, per)` */
  function CellOf(c: Card, i: nat): Cell
    requires c.columns >= 1 && PerColumn(c) >= 1
  {
    Cell(i / PerColumn(c), i % PerColumn(c))
  }

  lemma WholeProductOrder(a: int, b: int, c: int)
    requires a <= b && c >= 0
    ensures a * c <= b * c
  {
    assert (b - a) * c >= 0;
  }

  lemma EnoughCells(n: int, columns: int)
    requires n >= 1 && columns >= 1
    ensures var per := -((-n) / columns); per >= 1 && per * columns >= n
  {
    var q := (-n) / columns;
    assert q * columns + (-n) % columns == -n;
    assert -q * columns >= n;
    if q >= 0 {
      WholeProductOrder(0, q, columns);
    }
  }

  lemma QuotientIsBelow(i: int, per: int, columns: int)
    requires 0 <= i < per * columns && per >= 1 && columns >= 1
    ensures 0 <= i / per < columns
  {
    assert i == i / per * per + i % per;
    if i / per >= columns {
      WholeProductOrder(columns, i / per, per);
    }
  }

  /** Every row of a stacked card is drawn in a column that exists and on a line that the height of the card
      was computed for, and no two rows share a cell. */
  lemma StackedRowsHaveCells(c: Card, i: nat, j: nat)
    requires Drawable(c) && CardStyle(c) == Stack && i < j < |c.named|
    ensures PerColumn(c) >= 1
    ensures 0 <= CellOf(c, i).column < c.columns && 0 <= CellOf(c, i).line < PerColumn(c)
    ensures 0 <= CellOf(c, j).column < c.columns && 0 <= CellOf(c, j).line < PerColumn(c)
    ensures CellOf(c, i) != CellOf(c, j)
  {
    EnoughCells(|c.named|, c.columns);
    var per := PerColumn(c);
    QuotientIsBelow(i, per, c.columns);
    QuotientIsBelow(j, per, c.columns);
    assert i == i / per * per + i % per && j == j / per * per + j % per;
  }

  /** Where the name of a row starts: the left edge and the base line. */
  function RowSpot(p: Placed, i: nat): (real, real)
    requires p.card.columns >= 1 && PerColumn(p.card) >= 1
  {
    var cell := CellOf(p.card, i);
    var columnWidth := (p.box.w - 54.0) / p.card.columns as real;
    (if p.card.columns > 1 then p.box.x + 32.0 + cell.column as real * columnWidth else p.box.x + 22.0,
     p.box.y + 76.0 + cell.line as real * 36.0)
  }

  lemma ColumnStart(column: int, columns: int, room: real)
    requires 0 <= column < columns && room >= 0.0
    ensures 0.0 <= column as real * (room / columns as real)
    ensures (column + 1) as real * (room / columns as real) <= room
  {
    var width := room / columns as real;
    assert width * columns as real == room;
    assert width >= 0.0;
    assert (columns - column - 1) as real * width >= 0.0;
  }

  /** A stacked row, with its description 16 pixels lower, stays between the top and the bottom of its card and
      starts inside its sides. */
  lemma StackedRowsStayInside(p: Placed, i: nat)
    requires InGrid(p) && Drawable(p.card) && CardStyle(p.card) == Stack && i < |p.card.named|
    ensures PerColumn(p.card) >= 1
    ensures var (x, y) := RowSpot(p, i);
            && p.box.x + 22.0 <= x <= p.box.x + p.box.w - 22.0
            && p.box.y + 76.0 <= y && y + 16.0 + 0.22 * 11.8 <= p.box.y + p.box.h
  {
    EnoughCells(|p.card.named|, p.card.columns);
    QuotientIsBelow(i, PerColumn(p.card), p.card.columns);
    var cell := CellOf(p.card, i);
    var room := p.box.w - 54.0;
    ColumnStart(cell.column, p.card.columns, room);
    var width := room / p.card.columns as real;
    assert (cell.column + 1) as real * width == cell.column as real * width + width;
    assert cell.line <= PerColumn(p.card) - 1;
  }
}
