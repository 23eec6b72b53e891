/** Where the boxes of the architecture picture stand, in pixels. */
module ArchitectureSpots {
  import opened Architecture
  import opened Boxes

  // ----- heights

  /** A box of up to one line is 72 high, every further line adds 18, and "untested" adds 12 for its bar. */
  lemma HeightOfABox(n: Node)
    ensures NodeHeight(n) == 72 + (if n.lines <= 1 then 0 else 18 * (n.lines - 1)) + (if n.untested then 12 else 0)
  {
  }

  /** The title and every line of text stay inside the box, and above the bar of an untested one. */
  lemma TextsStayInTheBox(n: Node, y: real, i: nat)
    requires i < n.lines
    ensures var bottom := y + 48.0 + 18.0 * i as real + 0.22 * 12.0;
            && bottom <= y + NodeHeight(n) as real
            && (n.untested ==> bottom <= y + NodeHeight(n) as real - 14.0)
    ensures y <= y + 26.0 - 0.78 * 15.0 && y + 26.0 + 0.22 * 15.0 <= y + 48.0 - 0.78 * 12.0
  {
  }

  // ----- the side columns

  /** The boxes of a side column start at 116 and stand 16 apart, in the order of the specification. */
  lemma {:induction false} SideIsSpaced(nodes: seq<Node>, x: real)
    ensures var side := SidePlaced(nodes, x);
            && |side| == |nodes|
            && (forall i | 0 <= i < |side| ::
                  && side[i].node == nodes[i] && side[i].box.x == x && side[i].box.w == 225.0
                  && side[i].box.h == NodeHeight(nodes[i]) as real
                  && (i == 0 ==> side[i].box.y == 116.0)
                  && (i > 0 ==> side[i].box.y == side[i - 1].box.y + side[i - 1].box.h + 16.0))
            && (nodes != [] ==>
                  (TOP + StackHeight(nodes, CARD_GAP)) as real == side[|side| - 1].box.y + side[|side| - 1].box.h + 16.0)
  {
    hide NodeHeight;
    if nodes != [] {
      SideIsSpaced(nodes[..|nodes| - 1], x);
    }
  }

  /** A side column fits exactly when its last box ends at 530 or above. */
  lemma SideFitsIff(nodes: seq<Node>, column: int, x: real)
    ensures var side := SidePlaced(InColumn(nodes, column), x);
            SideFits(nodes, column) <==> side == [] || side[|side| - 1].box.y + side[|side| - 1].box.h <= 530.0
  {
    hide InColumn, NodeHeight;
    SideIsSpaced(InColumn(nodes, column), x);
  }

  // ----- the frame

  /** The frame takes the room between the margins that the side columns and their gaps leave. */
  lemma SidesOfTheFrame(nodes: seq<Node>)
    ensures FrameLeft(nodes) == if exists n :: n in nodes && n.column == 0 then 345.0 else 30.0
    ensures FrameRight(nodes) == if exists n :: n in nodes && n.column == 2 then 855.0 else 1170.0
  {
    if n :| n in nodes && n.column == 0 {
      var i :| 0 <= i < |nodes| && nodes[i] == n;
    }
    if n :| n in nodes && n.column == 2 {
      var i :| 0 <= i < |nodes| && nodes[i] == n;
    }
  }

  /** Up to three boxes of the repository stand in one column, up to eight in two, more in three. */
  lemma ColumnsByCount(count: nat)
    ensures SubColumns(count) == 1 <==> count <= 3
    ensures SubColumns(count) == 2 <==> 4 <= count <= 8
    ensures SubColumns(count) == 3 <==> 9 <= count
  {
  }

  /** The rows are filled one after the other: only the last one may be shorter. */
  lemma {:induction false} RowsAreFull(inner: seq<Node>, sub: int)
    requires sub >= 1
    ensures var rows := Chunks(inner, sub);
            Flatten(rows) == inner && (forall r | 0 <= r < |rows| - 1 :: |rows[r]| == sub)
            && (rows != [] ==> 1 <= |rows[|rows| - 1]| <= sub)
    decreases |inner|
  {
    ChunksHoldEverything(inner, sub);
    if |inner| > sub {
      RowsAreFull(inner[sub..], sub);
    }
  }

  /** The boxes of a full row begin 20 inside the frame, stand 16 apart and end 20 inside it. */
  lemma SlotsFillTheRow(left: real, width: real, sub: int, j: int)
    requires 1 <= sub <= 3
    ensures var w := CardWidth(width, sub);
            && Slot(left, w, 0) == left + 20.0
            && Slot(left, w, j + 1) == Slot(left, w, j) + w + 16.0
            && Slot(left, w, sub - 1) + w + 20.0 == left + width
  {
    var w := CardWidth(width, sub);
    if sub == 1 {
      assert w == width - 40.0;
    } else if sub == 2 {
      assert w == (width - 56.0) / 2.0;
    } else {
      assert w == (width - 72.0) / 3.0;
    }
    NextSlot(left, w, j);
  }

  lemma NextSlot(left: real, w: real, j: int)
    ensures Slot(left, w, j + 1) == Slot(left, w, j) + w + 16.0
  {
    var unit := w + 16.0;
    assert (j + 1) as real * unit == j as real * unit + unit;
  }

  /** The boxes of a row, from the left on at one height. */
  predicate IsRowAt(row: seq<Node>, block: seq<Placed>, left: real, cardWidth: real, y: real) {
    && |block| == |row| >= 1
    && (forall j | 0 <= j < |row| ::
          && block[j].node == row[j] && block[j].box.x == Slot(left, cardWidth, j) && block[j].box.w == cardWidth
          && block[j].box.y == y && block[j].box.h == block[0].box.h && NodeHeight(row[j]) as real <= block[j].box.h)
    && exists j :: 0 <= j < |row| && NodeHeight(row[j]) as real == block[j].box.h
  }

  lemma RowStandsAt(row: seq<Node>, left: real, cardWidth: real, y: int)
    requires row != []
    ensures IsRowAt(row, PlacedRow(row, left, cardWidth, y), left, cardWidth, y as real)
    ensures PlacedRow(row, left, cardWidth, y)[0].box.h == Tallest(row) as real
  {
    hide NodeHeight, Tallest, Slot;
    var k :| 0 <= k < |row| && NodeHeight(row[k]) == Tallest(row);
    var block := PlacedRow(row, left, cardWidth, y);
    assert NodeHeight(row[k]) as real == block[k].box.h;
  }

  /** Where the next row of the frame begins. */
  function Top(rows: seq<seq<Node>>): int
    requires forall r | 0 <= r < |rows| :: rows[r] != []
  {
    TOP + PAD + RowsHeight(rows)
  }

  /** The first row begins at 136, every other one 20 below the one before; each box of a row is as high as its
      tallest one. */
  lemma NextRowOfTheFrame(rows: seq<seq<Node>>, row: seq<Node>, left: real, cardWidth: real)
    requires row != [] && forall r | 0 <= r < |rows| :: rows[r] != []
    ensures Top([]) == 136
    ensures var block := PlacedRow(row, left, cardWidth, Top(rows));
            && RowsPlaced(rows + [row], left, cardWidth) == RowsPlaced(rows, left, cardWidth) + block
            && IsRowAt(row, block, left, cardWidth, Top(rows) as real)
            && Top(rows + [row]) as real == Top(rows) as real + block[0].box.h + 20.0
  {
    hide Tallest, PlacedRow, IsRowAt, RowsHeight, RowsPlaced, Flatten;
    NoRows(left, cardWidth);
    HeightStep(rows, row);
    PlacedStep(rows, row, left, cardWidth);
    RowStandsAt(row, left, cardWidth, Top(rows));
  }

  /** The repository fits exactly when its last row ends at 518 or above. */
  lemma FrameFitsIff(nodes: seq<Node>)
    ensures var inner := InColumn(nodes, 1);
            FrameFits(nodes) <==> Top(Chunks(inner, SubColumns(|inner|))) - 20 <= 518
    ensures var inner := InColumn(nodes, 1);
            TOP + FrameHeight(nodes) == Top(Chunks(inner, SubColumns(|inner|)))
  {
    hide InColumn, Chunks, RowsHeight;
  }
}
