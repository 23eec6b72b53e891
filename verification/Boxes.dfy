/** Rectangles, and the rule of the canvas about texts and their cards. */
module Boxes {
  import opened Wrappers

  datatype Box = Box(x: real, y: real, w: real, h: real)

  /** The insides of two rectangles meet. */
  predicate Overlap(a: Box, b: Box) {
    a.x < b.x + b.w && b.x < a.x + a.w && a.y < b.y + b.h && b.y < a.y + a.h
  }

  predicate Inside(inner: Box, outer: Box) {
    outer.x <= inner.x && inner.x + inner.w <= outer.x + outer.w && outer.y <= inner.y && inner.y + inner.h <= outer.y + outer.h
  }

  /** A text on the canvas: its extent, and the card it has to stay inside, if any. */
  datatype TextBox = TextBox(left: real, top: real, right: real, bottom: real, bound: Option<Box>)

  predicate LeavesPicture(t: TextBox, width: real, height: real, margin: real) {
    t.left < margin || t.right > width - margin || t.top < 0.0 || t.bottom > height
  }

  predicate LeavesCard(t: TextBox) {
    t.bound.Some? &&
    var b := t.bound.value;
    t.left < b.x + 6.0 || t.right > b.x + b.w - 6.0 || t.top < b.y || t.bottom > b.y + b.h
  }

  predicate TextsOverlap(a: TextBox, b: TextBox) {
    a.left < b.right - 0.5 && b.left < a.right - 0.5 && a.top < b.bottom - 0.5 && b.top < a.bottom - 0.5
  }

  datatype Problem = OffPicture(text: nat) | OffCard(text: nat) | Overlapping(first: nat, second: nat)

  /** What `Canvas.problems` is to find. */
  ghost predicate IsProblem(texts: seq<TextBox>, width: real, height: real, margin: real, p: Problem) {
    match p
    case OffPicture(i) => i < |texts| && LeavesPicture(texts[i], width, height, margin)
    case OffCard(i) => i < |texts| && LeavesCard(texts[i])
    case Overlapping(i, j) => i < j < |texts| && TextsOverlap(texts[i], texts[j])
  }

  /** `Canvas.problems`: finds every problem and nothing else. */
  method Problems(texts: seq<TextBox>, width: real, height: real, margin: real) returns (found: seq<Problem>)
    ensures forall p :: p in found <==> IsProblem(texts, width, height, margin, p)
  {
    found := [];
    for i := 0 to |texts|
      invariant forall p :: p in found <==>
        !p.Overlapping? && p.text < i && IsProblem(texts, width, height, margin, p)
    {
      if LeavesPicture(texts[i], width, height, margin) {
        found := found + [OffPicture(i)];
      }
      if LeavesCard(texts[i]) {
        found := found + [OffCard(i)];
      }
    }
    for i := 0 to |texts|
      invariant forall p :: p in found <==>
        IsProblem(texts, width, height, margin, p) && (p.Overlapping? ==> p.first < i)
    {
      for j := i + 1 to |texts|
        invariant forall p :: p in found <==>
          IsProblem(texts, width, height, margin, p) && (p.Overlapping? ==> p.first < i || (p.first == i && p.second < j))
      {
        if TextsOverlap(texts[i], texts[j]) {
          found := found + [Overlapping(i, j)];
        }
      }
    }
  }

  /** Texts that stay inside disjoint cards never lie on one another. */
  lemma TextsOfDisjointCards(a: TextBox, b: TextBox)
    requires a.bound.Some? && b.bound.Some? && !Overlap(a.bound.value, b.bound.value)
    requires !LeavesCard(a) && !LeavesCard(b)
    ensures !TextsOverlap(a, b)
  {
  }
}
