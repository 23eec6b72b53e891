/** Where the cards of the structure picture stand, in pixels, and the rows that they fill. */
module GridSpots {
  import opened Wrappers
  import opened LineFilling
  import opened Boxes
  import opened Grid

  // ----- the rows

  /** The cards in order, in rows of at least one card and at most three columns. */
  predicate IsFilling(rows: seq<seq<Card>>, cards: seq<Card>) {
    Glued(rows) == cards && forall k | 0 <= k < |rows| :: rows[k] != [] && Spans(rows[k]) <= 3
  }

  lemma SpansOfCards(row: seq<Card>, card: Card)
    ensures Spans([]) == 0 && Spans(row + [card]) == Spans(row) + card.span
  {
    assert (row + [card])[..|row|] == row;
  }

  lemma {:induction false} RowsAreGlued(cards: seq<Card>, cuts: seq<nat>)
    requires Within(cuts, |cards|) && cuts[0] == 0
    ensures Glued(RowsOf(cards, cuts)) == cards[..cuts[|cuts| - 1]]
    decreases |cuts|
  {
    var m := |cuts| - 1;
    if m > 0 {
      RowsAreGlued(cards, cuts[..m]);
      assert cuts[m - 1] < cuts[m];
      assert RowsOf(cards, cuts)[..m - 1] == RowsOf(cards, cuts[..m]);
    }
  }

  lemma FillingIsValid(rows: seq<seq<Card>>, cards: seq<Card>)
    requires IsFilling(rows, cards)
    ensures Valid(Starts(rows), |cards|, RowFits(cards))
  {
    hide Spans;
    StartsAscend(rows);
    var cuts := Starts(rows);
    forall k: nat | k < |rows| ensures GroupFits(cuts, k, RowFits(cards)) {
      GroupLies(rows, k);
    }
  }

  /** The rows of `PlaceCards` hold the cards in order, and no other such rows are fewer. */
  lemma FewestRows(cards: seq<Card>, cuts: seq<nat>)
    requires AllAccepted(cards) && Valid(cuts, |cards|, RowFits(cards))
    requires forall other | Valid(other, |cards|, RowFits(cards)) :: |cuts| <= |other|
    ensures IsFilling(RowsOf(cards, cuts), cards)
    ensures forall rows | IsFilling(rows, cards) :: |RowsOf(cards, cuts)| <= |rows|
  {
    hide Spans, RowFits, RowsOf;
    RowsAreGlued(cards, cuts);
    FilledRows(cards, cuts);
    forall k: nat | k < |cuts| - 1 ensures RowsOf(cards, cuts)[k] != [] && Spans(RowsOf(cards, cuts)[k]) <= 3 {
      assert IsRow(RowsOf(cards, cuts)[k]);
      RowAt(cards, cuts, k);
    }
    assert cards[..|cards|] == cards;
    forall rows | IsFilling(rows, cards) ensures |RowsOf(cards, cuts)| <= |rows| {
      FillingIsValid(rows, cards);
    }
  }

  // ----- heights

  /** A style of its own wins; otherwise rows without any name are plain, and named rows are a list only on a card
      of at least two columns of the grid that does not ask for columns itself. */
  lemma StyleIff(c: Card)
    ensures c.style.Some? ==> Some(CardStyle(c)) == c.style
    ensures c.style.None? ==>
              var someName := exists i :: 0 <= i < |c.named| && c.named[i];
              && (CardStyle(c) == Plain <==> !someName)
              && (CardStyle(c) == List <==> someName && c.span != 1 && c.columns <= 1)
              && (CardStyle(c) == Stack <==> someName && (c.span == 1 || c.columns > 1))
  {
  }

  /** Rows of a list are 27 apart, plain ones 24, stacked ones 36. */
  lemma HeightOfACard(c: Card)
    requires Measurable(c)
    ensures CardStyle(c) == List ==> CardHeight(c) == 84 + 27 * |c.named|
    ensures CardStyle(c) == Plain ==> CardHeight(c) == 94 + 24 * |c.named|
    ensures CardStyle(c) == Stack ==> CardHeight(c) == 82 + 36 * PerColumn(c)
  {
  }

  /** A column of a stacked card holds as few rows as the number of columns allows. */
  lemma RowsOfAColumn(c: Card)
    requires c.columns >= 1 && c.named != []
    ensures PerColumn(c) >= 1 && PerColumn(c) * c.columns >= |c.named| > (PerColumn(c) - 1) * c.columns
  {
    var n, columns := |c.named|, c.columns;
    EnoughCells(n, columns);
    var q := (-n) / columns;
    assert q * columns + (-n) % columns == -n;
    assert (-q - 1) * columns == -(q * columns) - columns;
  }

  /** The lines of a list, with their descriptions and the rules below them, and those of a plain card end inside
      the card. */
  lemma RowsStayInside(c: Card, y: real, i: nat)
    requires Measurable(c) && i < |c.named|
    ensures CardStyle(c) == List ==> y + 80.0 + 27.0 * i as real + 8.0 <= y + CardHeight(c) as real - 23.0
    ensures CardStyle(c) == Plain ==> y + 80.0 + 24.0 * i as real + 0.22 * 13.5 <= y + CardHeight(c) as real - 35.0
  {
  }

  // ----- the places

  /** Three columns with a gap of 25 fill the 780 pixels of the grid; a card covers its columns and the gaps between. */
  lemma ColumnsFillTheGrid(before: int, span: int)
    ensures LeftEdge(0) == 360.0 && CardWidth(3) == 780.0
    ensures LeftEdge(before + 1) == LeftEdge(before) + CardWidth(1) + 25.0
    ensures CardWidth(span + 1) == CardWidth(span) + 25.0 + CardWidth(1)
    ensures LeftEdge(before) + CardWidth(span) + 25.0 == LeftEdge(before + span)
  {
  }

  /** The cards of a row stand side by side at one height, 25 apart, as high as the highest one. */
  predicate IsRowAt(row: seq<Card>, block: seq<Placed>, index: nat, y: real)
    requires HasHeight(row)
  {
    && |block| == |row|
    && block[0].box.x == 360.0
    && (forall k | 0 <= k < |row| ::
          && block[k].card == row[k] && block[k].row == index
          && block[k].box.w == row[k].span as real * CardWidth(1) + (row[k].span - 1) as real * 25.0
          && block[k].box.y == y && block[k].box.h == block[0].box.h && CardHeight(row[k]) as real <= block[k].box.h)
    && (forall k | 0 < k < |row| :: block[k].box.x == block[k - 1].box.x + block[k - 1].box.w + 25.0)
    && exists k :: 0 <= k < |row| && CardHeight(row[k]) as real == block[k].box.h
  }

  lemma SpansUpTo(row: seq<Card>, k: nat)
    requires k < |row|
    ensures Spans(row[..0]) == 0 && Spans(row[..k + 1]) == Spans(row[..k]) + row[k].span
  {
    assert row[..k + 1] == row[..k] + [row[k]];
    SpansOfCards(row[..k], row[k]);
  }

  lemma RowStandsAt(row: seq<Card>, index: nat, y: real)
    requires HasHeight(row)
    ensures IsRowAt(row, PlacedRow(row, index, y), index, y)
    ensures PlacedRow(row, index, y)[0].box.h == Tallest(row) as real
  {
    hide CardHeight, Spans, Tallest;
    var k :| 0 <= k < |row| && CardHeight(row[k]) == Tallest(row);
    var block := PlacedRow(row, index, y);
    SpansUpTo(row, 0);
    CardsAreSpaced(row, index, y);
    assert block[k].box.h == CardHeight(row[k]) as real;
  }

  lemma CardsAreSpaced(row: seq<Card>, index: nat, y: real)
    requires HasHeight(row)
    ensures var block := PlacedRow(row, index, y);
            forall k | 0 < k < |row| :: block[k].box.x == block[k - 1].box.x + block[k - 1].box.w + 25.0
  {
    hide CardHeight, Spans, Tallest, HasHeight;
    var block := PlacedRow(row, index, y);
    forall k | 0 < k < |row| ensures block[k].box.x == block[k - 1].box.x + block[k - 1].box.w + 25.0 {
      SpansUpTo(row, k - 1);
      assert block[k] == PlaceOf(row, k, index, y) && block[k - 1] == PlaceOf(row, k - 1, index, y);
    }
  }

  /** The first row begins at 200, every other one 30 below the end of the one before. */
  lemma NextRowOfTheGrid(rows: seq<seq<Card>>, row: seq<Card>)
    requires HaveHeights(rows) && HasHeight(row)
    ensures RowTop([], 0) == 200.0
    ensures HaveHeights(rows + [row])
    ensures var n := |rows|;
            var block := PlacedRow(row, n, RowTop(rows, n));
            && Placement(rows + [row], n + 1) == Placement(rows, n) + block
            && IsRowAt(row, block, n, RowTop(rows, n))
            && RowTop(rows + [row], n + 1) == RowTop(rows, n) + block[0].box.h + 30.0
  {
    hide Tallest, PlacedRow, IsRowAt, HasHeight;
    OneRowMore(rows, row);
    RowStandsAt(row, |rows|, RowTop(rows, |rows|));
  }

  // ----- the rows of a stacked card

  lemma NextQuotient(i: nat, per: int)
    requires per >= 1
    ensures (i + 1) % per == if i % per + 1 < per then i % per + 1 else 0
    ensures (i + 1) / per == if i % per + 1 < per then i / per else i / per + 1
  {
    var q, r := i / per, i % per;
    assert i + 1 == q * per + (r + 1);
    if r + 1 < per {
      QuotientOf(q, r + 1, per);
    } else {
      assert i + 1 == (q + 1) * per + 0;
      QuotientOf(q + 1, 0, per);
    }
  }

  lemma QuotientOf(q: int, r: int, per: int)
    requires 0 <= r < per
    ensures (q * per + r) / per == q && (q * per + r) % per == r
  {
    var n := q * per + r;
    var d := n / per - q;
    assert n == n / per * per + n % per;
    assert d * per == n / per * per - q * per;
    if d >= 1 {
      WholeProductOrder(1, d, per);
    } else if d <= -1 {
      WholeProductOrder(d, -1, per);
    }
  }

  /** The rows go down the first column, then down the next one: 36 further down, or at the top of the column to the
      right; the columns share the width of the card without 54. */
  lemma NextSpot(p: Placed, i: nat)
    requires p.card.columns >= 1 && PerColumn(p.card) >= 1
    ensures p.card.columns > 1 ==> RowSpot(p, 0).0 == p.box.x + 32.0
    ensures p.card.columns == 1 ==> RowSpot(p, i).0 == p.box.x + 22.0
    ensures RowSpot(p, 0).1 == p.box.y + 76.0
    ensures var per, columns := PerColumn(p.card), p.card.columns;
            var (x, y), (x', y') := RowSpot(p, i), RowSpot(p, i + 1);
            && (i % per + 1 < per ==> x' == x && y' == y + 36.0)
            && (i % per + 1 == per ==> y' == p.box.y + 76.0)
            && (i % per + 1 == per && columns > 1 ==> x' == x + (p.box.w - 54.0) / columns as real)
  {
    var per := PerColumn(p.card);
    NextQuotient(i, per);
    QuotientOf(0, 0, per);
    var width := (p.box.w - 54.0) / p.card.columns as real;
    var column := i / per;
    assert (column + 1) as real * width == column as real * width + width;
    assert 0 as real * width == 0.0;
  }
}
