/** The boxes of the architecture picture: two side columns and the frame of the repository between them. */
module Architecture {
  import opened Wrappers
  import opened Boxes

  const WIDTH := 1200.0
  const HEIGHT := 640.0
  const MARGIN := 30.0
  const SIDE_W := 225.0
  const GAP := 90.0
  const TOP := 116
  const BOTTOM := 530
  const PAD := 20
  const CARD_GAP := 16

  /** `lines` is how many lines of text the box holds, `untested` whether its level is "untested". */
  datatype Node = Node(id: string, column: int, lines: nat, untested: bool)

  datatype LayoutError = ColumnTooTall(column: int) | RepositoryTooTall

  datatype Placed = Placed(node: Node, box: Box)

  /** The boxes in the order in which they enter the dictionary; distinct ids mean that none replaces another. */
  datatype Layout = Layout(frame: Box, boxes: seq<Placed>)

  /** What `validate_spec` makes sure of. */
  predicate ValidNodes(nodes: seq<Node>) {
    (forall i | 0 <= i < |nodes| :: nodes[i].column in {0, 1, 2}) &&
    (forall i, j | 0 <= i < j < |nodes| :: nodes[i].id != nodes[j].id) &&
    exists i :: 0 <= i < |nodes| && nodes[i].column == 1
  }

  function NodeHeight(n: Node): (h: int)
    ensures h >= 72
  {
    48 + 18 * ((if n.lines < 1 then 1 else n.lines) - 1) + 24 + if n.untested then 12 else 0
  }

  function InColumn(nodes: seq<Node>, column: int): (own: seq<Node>)
    ensures forall i | 0 <= i < |own| :: own[i] in nodes && own[i].column == column
    ensures forall n | n in nodes && n.column == column :: n in own
  {
    if nodes == [] then []
    else
      var last := nodes[|nodes| - 1];
      InColumn(nodes[..|nodes| - 1], column) + if last.column == column then [last] else []
  }

  predicate DistinctIds(nodes: seq<Node>) {
    forall i, j | 0 <= i < j < |nodes| :: nodes[i].id != nodes[j].id
  }

  lemma {:induction false} ColumnKeepsIdsApart(nodes: seq<Node>, column: int)
    requires DistinctIds(nodes)
    ensures DistinctIds(InColumn(nodes, column))
  {
    if nodes != [] {
      ColumnKeepsIdsApart(nodes[..|nodes| - 1], column);
    }
  }

  /** Height of a stack of boxes with `gap` below each. */
  function StackHeight(nodes: seq<Node>, gap: int): int {
    if nodes == [] then 0 else StackHeight(nodes[..|nodes| - 1], gap) + NodeHeight(nodes[|nodes| - 1]) + gap
  }

  predicate SideFits(nodes: seq<Node>, column: int) {
    TOP + StackHeight(InColumn(nodes, column), CARD_GAP) - CARD_GAP <= BOTTOM
  }

  function SubColumns(count: nat): int {
    if count <= 3 then 1 else if count <= 8 then 2 else 3
  }

  /** `inner[i:i + sub]` for every multiple i of sub. */
  function Chunks(inner: seq<Node>, sub: int): (rows: seq<seq<Node>>)
    requires sub >= 1
    ensures forall r | 0 <= r < |rows| :: 1 <= |rows[r]| <= sub
    decreases |inner|
  {
    if inner == [] then []
    else if |inner| <= sub then [inner]
    else [inner[..sub]] + Chunks(inner[sub..], sub)
  }

  function Tallest(row: seq<Node>): (h: int)
    requires row != []
    ensures forall i | 0 <= i < |row| :: NodeHeight(row[i]) <= h
    ensures exists i :: 0 <= i < |row| && NodeHeight(row[i]) == h
  {
    if |row| == 1 then NodeHeight(row[0])
    else
      var n := |row| - 1;
      var h := Tallest(row[..n]);
      if NodeHeight(row[n]) > h then NodeHeight(row[n]) else
        assert forall i | 0 <= i < n :: row[..n][i] == row[i];
        h
  }

  /** Height of the rows with 20 below each. */
  function RowsHeight(rows: seq<seq<Node>>): int
    requires forall r | 0 <= r < |rows| :: rows[r] != []
  {
    if rows == [] then 0 else RowsHeight(rows[..|rows| - 1]) + Tallest(rows[|rows| - 1]) + 20
  }

  function FrameHeight(nodes: seq<Node>): int {
    var inner := InColumn(nodes, 1);
    PAD + RowsHeight(Chunks(inner, SubColumns(|inner|))) - 20 + PAD
  }

  predicate FrameFits(nodes: seq<Node>) {
    TOP + FrameHeight(nodes) <= BOTTOM + 8
  }

  predicate HasColumn(nodes: seq<Node>, column: int) {
    exists i :: 0 <= i < |nodes| && nodes[i].column == column
  }

  function FrameLeft(nodes: seq<Node>): real {
    MARGIN + if HasColumn(nodes, 0) then SIDE_W + GAP else 0.0
  }

  function FrameRight(nodes: seq<Node>): real {
    WIDTH - MARGIN - if HasColumn(nodes, 2) then SIDE_W + GAP else 0.0
  }

  // ----- what a good layout is

  predicate SameNodes(placed: seq<Placed>, nodes: seq<Node>) {
    |placed| == |nodes| && forall i | 0 <= i < |nodes| :: placed[i].node == nodes[i]
  }

  /** Boxes of one side column, each above the next and all above `bottom`. */
  predicate Stacked(placed: seq<Placed>, x: real, bottom: int) {
    (forall i | 0 <= i < |placed| :: placed[i].box.x == x && placed[i].box.w == SIDE_W && placed[i].box.y >= TOP as real
        && placed[i].box.h == NodeHeight(placed[i].node) as real && placed[i].box.y + placed[i].box.h + CARD_GAP as real <= bottom as real) &&
    forall i, j | 0 <= i < j < |placed| :: placed[i].box.y + placed[i].box.h + CARD_GAP as real <= placed[j].box.y
  }

  /** The boxes of one side column, each below the ones before it. */
  function SidePlaced(nodes: seq<Node>, x: real): (placed: seq<Placed>)
    ensures |placed| == |nodes|
  {
    if nodes == [] then []
    else
      var front, last := nodes[..|nodes| - 1], nodes[|nodes| - 1];
      SidePlaced(front, x) + [Placed(last, Box(x, (TOP + StackHeight(front, CARD_GAP)) as real, SIDE_W, NodeHeight(last) as real))]
  }

  lemma SideStep(nodes: seq<Node>, i: nat, x: real)
    requires i < |nodes|
    ensures StackHeight(nodes[..i + 1], CARD_GAP) == StackHeight(nodes[..i], CARD_GAP) + NodeHeight(nodes[i]) + CARD_GAP
    ensures SidePlaced(nodes[..i + 1], x)
            == SidePlaced(nodes[..i], x)
               + [Placed(nodes[i], Box(x, (TOP + StackHeight(nodes[..i], CARD_GAP)) as real, SIDE_W, NodeHeight(nodes[i]) as real))]
  {
    assert nodes[..i + 1][..i] == nodes[..i];
  }

  lemma NothingStacked(x: real)
    ensures StackHeight([], CARD_GAP) == 0 && SidePlaced([], x) == []
  {
  }

  /** One side column: its boxes from the top down. */
  method PlaceSide(nodes: seq<Node>, x: real) returns (placed: seq<Placed>, y: int)
    ensures y == TOP + StackHeight(nodes, CARD_GAP)
    ensures SameNodes(placed, nodes) && Stacked(placed, x, y) && placed == SidePlaced(nodes, x)
  {
    hide StackHeight, SidePlaced, NodeHeight;
    placed := [];
    y := TOP;
    assert nodes[..0] == [];
    NothingStacked(x);
    for i := 0 to |nodes|
      invariant y == TOP + StackHeight(nodes[..i], CARD_GAP) && y >= TOP
      invariant SameNodes(placed, nodes[..i]) && Stacked(placed, x, y) && placed == SidePlaced(nodes[..i], x)
    {
      SideStep(nodes, i, x);
      var h := NodeHeight(nodes[i]);
      placed := placed + [Placed(nodes[i], Box(x, y as real, SIDE_W, h as real))];
      y := y + h + CARD_GAP;
    }
    assert nodes[..|nodes|] == nodes;
  }

  // ----- the rows inside the frame

  function CardWidth(width: real, sub: int): real
    requires 1 <= sub <= 3
  {
    (width - 2.0 * 20.0 - (sub - 1) as real * 16.0) / sub as real
  }

  /** The left edge of the j-th box of a row. */
  function Slot(left: real, cardWidth: real, j: int): real {
    left + 20.0 + j as real * (cardWidth + 16.0)
  }

  lemma SlotsAreApart(left: real, width: real, sub: int, j: int, k: int)
    requires 1 <= sub <= 3 && 0 <= j <= k < sub && width >= 100.0
    ensures var w := CardWidth(width, sub);
            && w > 0.0
            && left + 20.0 <= Slot(left, w, j) && Slot(left, w, k) + w + 20.0 <= left + width
            && (j < k ==> Slot(left, w, j) + w + 16.0 <= Slot(left, w, k))
  {
    var w := CardWidth(width, sub);
    if sub == 1 {
      assert w == width - 40.0;
    } else if sub == 2 {
      assert w == (width - 56.0) / 2.0;
    } else {
      assert w == (width - 72.0) / 3.0;
    }
    var unit := w + 16.0;
    assert 0 as real * unit == 0.0 && 1 as real * unit == unit && 2 as real * unit == unit + unit;
    assert j in {0, 1, 2} && k in {0, 1, 2};
  }

  /** Apart in the frame: side by side on one row, or on rows one below the other. */
  predicate Apart(a: Box, b: Box) {
    (a.y == b.y && a.h == b.h && a.x + a.w + 16.0 <= b.x) || a.y + a.h + 20.0 <= b.y
  }

  predicate InFrame(b: Box, left: real, width: real, bottom: int) {
    left + 20.0 <= b.x && b.x + b.w + 20.0 <= left + width && (TOP + PAD) as real <= b.y && b.y + b.h + 20.0 <= bottom as real
  }

  predicate Framed(placed: seq<Placed>, left: real, width: real, bottom: int) {
    (forall i | 0 <= i < |placed| :: InFrame(placed[i].box, left, width, bottom) && placed[i].box.h >= NodeHeight(placed[i].node) as real) &&
    forall i, j | 0 <= i < j < |placed| :: Apart(placed[i].box, placed[j].box)
  }

  predicate OnRow(placed: seq<Placed>, from: nat, y: real, h: real, left: real, cardWidth: real) {
    forall k | from <= k < |placed| ::
      placed[k].box.y == y && placed[k].box.h == h && placed[k].box.w == cardWidth && placed[k].box.x == Slot(left, cardWidth, k - from)
  }

  predicate AllAbove(placed: seq<Placed>, y: int) {
    forall i | 0 <= i < |placed| :: placed[i].box.y + placed[i].box.h + 20.0 <= y as real
  }

  lemma StartOfRow(before: seq<Placed>, left: real, width: real, y: int, h: int, cardWidth: real)
    requires Framed(before, left, width, y) && h >= 0
    ensures Framed(before, left, width, y + h + 20) && AllAbove(before[..|before|], y)
    ensures OnRow(before, |before|, y as real, h as real, left, cardWidth)
  {
  }

  lemma NextOnTheRow(placed: seq<Placed>, from: nat, next: Placed, left: real, width: real, sub: int, y: int, h: int)
    requires 1 <= sub <= 3 && from <= |placed| < from + sub && width >= 100.0 && y >= TOP + PAD
    requires Framed(placed, left, width, y + h + 20) && AllAbove(placed[..from], y) && NodeHeight(next.node) <= h
    requires OnRow(placed, from, y as real, h as real, left, CardWidth(width, sub))
    requires next.box == Box(Slot(left, CardWidth(width, sub), |placed| - from), y as real, CardWidth(width, sub), h as real)
    ensures Framed(placed + [next], left, width, y + h + 20)
    ensures OnRow(placed + [next], from, y as real, h as real, left, CardWidth(width, sub))
  {
    hide CardWidth, Slot, NodeHeight;
    var j := |placed| - from;
    SlotsAreApart(left, width, sub, j, j);
    forall k | 0 <= k < |placed| ensures Apart(placed[k].box, next.box) {
      if k < from {
        assert placed[k] == placed[..from][k];
      } else {
        SlotsAreApart(left, width, sub, k - from, j);
      }
    }
  }

  function PlacedRow(row: seq<Node>, left: real, cardWidth: real, y: int): (placed: seq<Placed>)
    requires row != []
    ensures |placed| == |row|
    ensures forall j | 0 <= j < |row| :: placed[j] == Placed(row[j], Box(Slot(left, cardWidth, j), y as real, cardWidth, Tallest(row) as real))
  {
    seq(|row|, j requires 0 <= j < |row| => Placed(row[j], Box(Slot(left, cardWidth, j), y as real, cardWidth, Tallest(row) as real)))
  }

  /** The rows of the frame, one below the other. */
  function RowsPlaced(rows: seq<seq<Node>>, left: real, cardWidth: real): seq<Placed>
    requires forall r | 0 <= r < |rows| :: rows[r] != []
  {
    if rows == [] then []
    else
      var front := rows[..|rows| - 1];
      RowsPlaced(front, left, cardWidth) + PlacedRow(rows[|rows| - 1], left, cardWidth, TOP + PAD + RowsHeight(front))
  }

  method PlaceRow(row: seq<Node>, left: real, width: real, sub: int, y: int, before: seq<Placed>) returns (placed: seq<Placed>, bottom: int)
    requires 1 <= |row| <= sub <= 3 && width >= 100.0 && y >= TOP + PAD
    requires Framed(before, left, width, y)
    ensures bottom == y + Tallest(row) + 20
    ensures before <= placed && SameNodes(placed[|before|..], row) && Framed(placed, left, width, bottom)
    ensures placed == before + PlacedRow(row, left, CardWidth(width, sub), y)
  {
    hide Tallest, CardWidth, Slot, Framed, OnRow, AllAbove;
    var h := Tallest(row);
    var cardWidth := CardWidth(width, sub);
    assert NodeHeight(row[0]) <= h;
    bottom := y + h + 20;
    placed := before;
    StartOfRow(before, left, width, y, h, cardWidth);
    for j := 0 to |row|
      invariant before <= placed && |placed| == |before| + j
      invariant SameNodes(placed[|before|..], row[..j])
      invariant placed == before + PlacedRow(row, left, cardWidth, y)[..j]
      invariant OnRow(placed, |before|, y as real, h as real, left, cardWidth)
      invariant Framed(placed, left, width, bottom) && AllAbove(placed[..|before|], y)
    {
      var next := Placed(row[j], Box(Slot(left, cardWidth, j), y as real, cardWidth, h as real));
      NextOnTheRow(placed, |before|, next, left, width, sub, y, h);
      ghost var was := placed;
      placed := placed + [next];
      assert placed[|before|..] == was[|before|..] + [next];
      assert row[..j + 1] == row[..j] + [row[j]];
      assert placed[..|before|] == was[..|before|];
    }
    assert row[..|row|] == row;
  }

  function Flatten(rows: seq<seq<Node>>): seq<Node> {
    if rows == [] then [] else Flatten(rows[..|rows| - 1]) + rows[|rows| - 1]
  }

  lemma {:induction false} FlattenFromTheFront(row: seq<Node>, rest: seq<seq<Node>>)
    ensures Flatten([row] + rest) == row + Flatten(rest)
  {
    if rest == [] {
      assert ([row] + rest)[..0] == [] && ([row] + rest)[0] == row;
    } else {
      var n := |rest| - 1;
      FlattenFromTheFront(row, rest[..n]);
      assert ([row] + rest)[..n + 1] == [row] + rest[..n];
    }
  }

  lemma {:induction false} ChunksHoldEverything(inner: seq<Node>, sub: int)
    requires sub >= 1
    ensures Flatten(Chunks(inner, sub)) == inner
    decreases |inner|
  {
    if inner == [] {
    } else if |inner| <= sub {
      FlattenFromTheFront(inner, []);
      assert [inner] + [] == [inner];
    } else {
      ChunksHoldEverything(inner[sub..], sub);
      FlattenFromTheFront(inner[..sub], Chunks(inner[sub..], sub));
      assert inner[..sub] + inner[sub..] == inner;
    }
  }

  lemma NothingFramed(left: real, width: real)
    ensures Framed([], left, width, TOP + PAD)
  {
  }

  lemma HeightStep(rows: seq<seq<Node>>, row: seq<Node>)
    requires row != [] && forall k | 0 <= k < |rows| :: rows[k] != []
    ensures RowsHeight(rows + [row]) == RowsHeight(rows) + Tallest(row) + 20
    ensures Flatten(rows + [row]) == Flatten(rows) + row
  {
    hide Tallest;
    assert (rows + [row])[..|rows|] == rows;
  }

  lemma PlacedStep(rows: seq<seq<Node>>, row: seq<Node>, left: real, cardWidth: real)
    requires row != [] && forall k | 0 <= k < |rows| :: rows[k] != []
    ensures RowsPlaced(rows + [row], left, cardWidth)
            == RowsPlaced(rows, left, cardWidth) + PlacedRow(row, left, cardWidth, TOP + PAD + RowsHeight(rows))
  {
    hide Tallest, PlacedRow, RowsHeight;
    assert (rows + [row])[..|rows|] == rows;
  }

  lemma RowsStep(rows: seq<seq<Node>>, r: nat, left: real, cardWidth: real)
    requires r < |rows| && forall k | 0 <= k < |rows| :: rows[k] != []
    ensures RowsHeight(rows[..r + 1]) == RowsHeight(rows[..r]) + Tallest(rows[r]) + 20
    ensures RowsPlaced(rows[..r + 1], left, cardWidth)
            == RowsPlaced(rows[..r], left, cardWidth) + PlacedRow(rows[r], left, cardWidth, TOP + PAD + RowsHeight(rows[..r]))
    ensures Flatten(rows[..r + 1]) == Flatten(rows[..r]) + rows[r]
  {
    hide Tallest, PlacedRow, RowsHeight, RowsPlaced, Flatten;
    assert rows[..r + 1] == rows[..r] + [rows[r]];
    HeightStep(rows[..r], rows[r]);
    PlacedStep(rows[..r], rows[r], left, cardWidth);
  }

  lemma NoRows(left: real, cardWidth: real)
    ensures RowsHeight([]) == 0 && RowsPlaced([], left, cardWidth) == [] && Flatten([]) == []
  {
  }

  /** The boxes of the repository, row after row. */
  method PlaceInner(inner: seq<Node>, left: real, width: real) returns (placed: seq<Placed>, bottom: int)
    requires width >= 100.0
    ensures SameNodes(placed, inner) && Framed(placed, left, width, bottom)
    ensures bottom == TOP + PAD + RowsHeight(Chunks(inner, SubColumns(|inner|)))
    ensures var sub := SubColumns(|inner|); placed == RowsPlaced(Chunks(inner, sub), left, CardWidth(width, sub))
  {
    hide Framed, Chunks, Tallest, CardWidth, PlacedRow, RowsHeight, RowsPlaced, Flatten;
    var sub := SubColumns(|inner|);
    var rows := Chunks(inner, sub);
    NothingFramed(left, width);
    placed := [];
    bottom := TOP + PAD;
    assert rows[..0] == [];
    NoRows(left, CardWidth(width, sub));
    for r := 0 to |rows|
      invariant SameNodes(placed, Flatten(rows[..r])) && Framed(placed, left, width, bottom)
      invariant bottom == TOP + PAD + RowsHeight(rows[..r]) && bottom >= TOP + PAD
      invariant placed == RowsPlaced(rows[..r], left, CardWidth(width, sub))
    {
      ghost var was := placed;
      RowsStep(rows, r, left, CardWidth(width, sub));
      assert NodeHeight(rows[r][0]) <= Tallest(rows[r]);
      placed, bottom := PlaceRow(rows[r], left, width, sub, bottom, placed);
      assert placed == was + placed[|was|..];
    }
    assert rows[..|rows|] == rows;
    ChunksHoldEverything(inner, sub);
  }

  // ----- the whole layout

  predicate Picture(l: Layout, nodes: seq<Node>) {
    && SameNodes(l.boxes, InColumn(nodes, 0) + InColumn(nodes, 2) + InColumn(nodes, 1))
    && (forall i, j | 0 <= i < j < |l.boxes| :: l.boxes[i].node.id != l.boxes[j].node.id && !Overlap(l.boxes[i].box, l.boxes[j].box))
    && (forall i | 0 <= i < |l.boxes| ::
          && (l.boxes[i].node.column == 1 ==> Inside(l.boxes[i].box, l.frame))
          && (l.boxes[i].node.column != 1 ==> !Overlap(l.boxes[i].box, l.frame))
          && Inside(l.boxes[i].box, Box(MARGIN, 0.0, WIDTH - 2.0 * MARGIN, HEIGHT)))
  }

  lemma SideBoxesAreApart(side: seq<Placed>, x: real, bottom: int, i: nat, j: nat)
    requires Stacked(side, x, bottom) && i < j < |side|
    ensures !Overlap(side[i].box, side[j].box)
  {
  }

  /** Where the boxes of each column are: the left ones end before the frame begins, the right ones begin
      after it ends. */
  predicate InZone(p: Placed, l: Layout) {
    match p.node.column
    case 0 => p.box.x == MARGIN && p.box.w == SIDE_W && p.box.x + p.box.w < l.frame.x
    case 2 => p.box.x == WIDTH - MARGIN - SIDE_W && p.box.w == SIDE_W && l.frame.x + l.frame.w < p.box.x
    case _ => Inside(p.box, l.frame)
  }

  predicate InPicture(b: Box) {
    Inside(b, Box(MARGIN, 0.0, WIDTH - 2.0 * MARGIN, HEIGHT))
  }

  lemma ZonesAreApart(a: Placed, b: Placed, l: Layout)
    requires a.node.column in {0, 1, 2} && b.node.column in {0, 1, 2} && a.node.column != b.node.column
    requires InZone(a, l) && InZone(b, l) && l.frame.x <= l.frame.x + l.frame.w
    ensures !Overlap(a.box, b.box)
  {
  }

  lemma IdNamesTheNode(nodes: seq<Node>, a: Node, b: Node)
    requires DistinctIds(nodes) && a in nodes && b in nodes && a != b
    ensures a.id != b.id
  {
    var i :| 0 <= i < |nodes| && nodes[i] == a;
    var j :| 0 <= j < |nodes| && nodes[j] == b;
    assert i != j;
  }

  predicate Drawn(placed: seq<Placed>, nodes: seq<Node>, l: Layout) {
    forall i | 0 <= i < |placed| :: placed[i].node in nodes && InZone(placed[i], l) && InPicture(placed[i].box)
  }

  predicate AllApart(placed: seq<Placed>) {
    forall i, j | 0 <= i < j < |placed| :: placed[i].node.id != placed[j].node.id && !Overlap(placed[i].box, placed[j].box)
  }

  lemma JoinColumns(a: seq<Placed>, b: seq<Placed>, nodes: seq<Node>, l: Layout)
    requires ValidNodes(nodes) && l.frame.w >= 0.0
    requires Drawn(a, nodes, l) && Drawn(b, nodes, l) && AllApart(a) && AllApart(b)
    requires forall i, j | 0 <= i < |a| && 0 <= j < |b| :: a[i].node.column != b[j].node.column
    ensures Drawn(a + b, nodes, l) && AllApart(a + b)
  {
    forall i, j | 0 <= i < |a| && 0 <= j < |b| ensures a[i].node.id != b[j].node.id && !Overlap(a[i].box, b[j].box) {
      ZonesAreApart(a[i], b[j], l);
      assert a[i].node.column != b[j].node.column;
      IdNamesTheNode(nodes, a[i].node, b[j].node);
    }
  }

  lemma SideIsDrawn(nodes: seq<Node>, side: seq<Placed>, column: int, x: real, y: int, l: Layout)
    requires ValidNodes(nodes) && column in {0, 2} && SameNodes(side, InColumn(nodes, column)) && Stacked(side, x, y)
    requires x == (if column == 0 then MARGIN else WIDTH - MARGIN - SIDE_W) && y - CARD_GAP <= BOTTOM
    requires l.frame.x == FrameLeft(nodes) && l.frame.x + l.frame.w == FrameRight(nodes)
    ensures Drawn(side, nodes, l) && AllApart(side)
  {
    ColumnKeepsIdsApart(nodes, column);
    forall i | 0 <= i < |side| ensures side[i].node in nodes && InZone(side[i], l) && InPicture(side[i].box) {
      assert side[i].node == InColumn(nodes, column)[i];
      var k :| 0 <= k < |nodes| && nodes[k] == side[i].node;
      assert HasColumn(nodes, column);
    }
    forall i, j | 0 <= i < j < |side| ensures side[i].node.id != side[j].node.id && !Overlap(side[i].box, side[j].box) {
      assert InColumn(nodes, column)[i].id != InColumn(nodes, column)[j].id;
      SideBoxesAreApart(side, x, y, i, j);
    }
  }

  lemma InnerIsDrawn(nodes: seq<Node>, inner: seq<Placed>, bottom: int, l: Layout)
    requires ValidNodes(nodes) && SameNodes(inner, InColumn(nodes, 1)) && Framed(inner, l.frame.x, l.frame.w, bottom)
    requires l.frame.y == TOP as real && l.frame.h == (bottom - TOP) as real && bottom <= BOTTOM + 8
    requires MARGIN <= l.frame.x && l.frame.x + l.frame.w <= WIDTH - MARGIN
    ensures Drawn(inner, nodes, l) && AllApart(inner)
  {
    ColumnKeepsIdsApart(nodes, 1);
    forall i | 0 <= i < |inner| ensures inner[i].node in nodes && InZone(inner[i], l) && InPicture(inner[i].box) {
      assert inner[i].node == InColumn(nodes, 1)[i];
      assert InFrame(inner[i].box, l.frame.x, l.frame.w, bottom);
    }
    forall i, j | 0 <= i < j < |inner| ensures inner[i].node.id != inner[j].node.id && !Overlap(inner[i].box, inner[j].box) {
      assert InColumn(nodes, 1)[i].id != InColumn(nodes, 1)[j].id;
      assert Apart(inner[i].box, inner[j].box);
      assert inner[j].box.h >= NodeHeight(inner[j].node) as real;
    }
  }

  lemma Composed(nodes: seq<Node>, left: seq<Placed>, right: seq<Placed>, inner: seq<Placed>, frame: Box)
    requires ValidNodes(nodes) && frame.w >= 0.0
    requires SameNodes(left, InColumn(nodes, 0)) && SameNodes(right, InColumn(nodes, 2)) && SameNodes(inner, InColumn(nodes, 1))
    requires var l := Layout(frame, left + right + inner);
             && Drawn(left, nodes, l) && Drawn(right, nodes, l) && Drawn(inner, nodes, l)
             && AllApart(left) && AllApart(right) && AllApart(inner)
    ensures Picture(Layout(frame, left + right + inner), nodes)
  {
    hide InColumn, InZone, Inside, Overlap;
    var l := Layout(frame, left + right + inner);
    assert forall i | 0 <= i < |left| :: left[i].node == InColumn(nodes, 0)[i];
    assert forall i | 0 <= i < |right| :: right[i].node == InColumn(nodes, 2)[i];
    assert forall i | 0 <= i < |inner| :: inner[i].node == InColumn(nodes, 1)[i];
    JoinColumns(left, right, nodes, l);
    JoinColumns(left + right, inner, nodes, l);
    forall i | 0 <= i < |l.boxes|
      ensures l.boxes[i].node.column == 1 ==> Inside(l.boxes[i].box, l.frame)
      ensures l.boxes[i].node.column != 1 ==> !Overlap(l.boxes[i].box, l.frame)
      ensures InPicture(l.boxes[i].box)
    {
      ZonesAndFrame(l.boxes[i], l);
    }
  }

  lemma ZonesAndFrame(p: Placed, l: Layout)
    requires InZone(p, l) && p.node.column in {0, 1, 2}
    ensures if p.node.column == 1 then Inside(p.box, l.frame) else !Overlap(p.box, l.frame)
  {
  }

  /** The left column, the right one and the rows of the frame. */
  function BoxesOf(nodes: seq<Node>): seq<Placed> {
    var inner := InColumn(nodes, 1);
    var sub := SubColumns(|inner|);
    SidePlaced(InColumn(nodes, 0), MARGIN) + SidePlaced(InColumn(nodes, 2), WIDTH - MARGIN - SIDE_W)
      + RowsPlaced(Chunks(inner, sub), FrameLeft(nodes), CardWidth(FrameRight(nodes) - FrameLeft(nodes), sub))
  }

  /** The layout is accepted exactly when both side columns end by 530 and the frame by 538; an accepted one
      shows every box of the specification once, no two boxes overlap, the boxes of the repository are inside
      the frame, the others are clear of it, and nothing leaves the picture. */
  method LayOut(nodes: seq<Node>) returns (r: Result<Layout, LayoutError>)
    requires ValidNodes(nodes)
    ensures r.Ok? <==> SideFits(nodes, 0) && SideFits(nodes, 2) && FrameFits(nodes)
    ensures r.Err? ==>
              r.error == if !SideFits(nodes, 0) then ColumnTooTall(0)
                         else if !SideFits(nodes, 2) then ColumnTooTall(2) else RepositoryTooTall
    ensures r.Ok? ==> Picture(r.value, nodes)
    ensures r.Ok? ==>
              r.value.frame == Box(FrameLeft(nodes), TOP as real, FrameRight(nodes) - FrameLeft(nodes), FrameHeight(nodes) as real)
    ensures r.Ok? ==> r.value.boxes == BoxesOf(nodes)
  {
    var x := FrameLeft(nodes);
    var width := FrameRight(nodes) - x;
    var left, y := PlaceSide(InColumn(nodes, 0), MARGIN);
    if y - CARD_GAP > BOTTOM {
      return Err(ColumnTooTall(0));
    }
    ghost var leftEnd := y;
    var right;
    right, y := PlaceSide(InColumn(nodes, 2), WIDTH - MARGIN - SIDE_W);
    if y - CARD_GAP > BOTTOM {
      return Err(ColumnTooTall(2));
    }
    ghost var rightEnd := y;
    var inner;
    inner, y := PlaceInner(InColumn(nodes, 1), x, width);
    var height := y - 20 + PAD - TOP;
    if TOP + height > BOTTOM + 8 {
      return Err(RepositoryTooTall);
    }
    var frame := Box(x, TOP as real, width, height as real);
    ghost var l := Layout(frame, left + right + inner);
    SideIsDrawn(nodes, left, 0, MARGIN, leftEnd, l);
    SideIsDrawn(nodes, right, 2, WIDTH - MARGIN - SIDE_W, rightEnd, l);
    InnerIsDrawn(nodes, inner, y, l);
    Composed(nodes, left, right, inner, frame);
    r := Ok(Layout(frame, left + right + inner));
  }

  /** The three columns together are the nodes of the specification, each as often as there. */
  lemma {:induction false} ColumnsPartitionTheNodes(nodes: seq<Node>)
    requires forall i | 0 <= i < |nodes| :: nodes[i].column in {0, 1, 2}
    ensures multiset(InColumn(nodes, 0) + InColumn(nodes, 2) + InColumn(nodes, 1)) == multiset(nodes)
  {
    hide InColumn;
    if nodes == [] {
      NoColumns();
    } else {
      var front, last := nodes[..|nodes| - 1], nodes[|nodes| - 1];
      ColumnsPartitionTheNodes(front);
      ColumnStep(nodes, 0);
      ColumnStep(nodes, 1);
      ColumnStep(nodes, 2);
      assert nodes == front + [last];
    }
  }

  lemma NoColumns()
    ensures forall c :: InColumn([], c) == []
  {
  }

  lemma ColumnStep(nodes: seq<Node>, column: int)
    requires nodes != []
    ensures var last := nodes[|nodes| - 1];
            multiset(InColumn(nodes, column))
            == multiset(InColumn(nodes[..|nodes| - 1], column)) + if last.column == column then multiset{last} else multiset{}
  {
  }
}
