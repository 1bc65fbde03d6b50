/**
 * Bounding boxes of the two detectors and the helmet-zone test that the
 * rider counter applies to one (bike, helmet) pair.
 *
 * Image coordinates: x grows to the right, y grows downward. A box is the
 * tuple (x1, y1, x2, y2) exactly as the detector produced it, with the
 * corners not guaranteed to be in order.
 */
module Geometry {

  datatype Box = Box(x1: int, y1: int, x2: int, y2: int)

  /** The default tolerance of the helmet zone, 0.30, held exactly. */
  const DefaultExpandingFactor: real := 0.3

  function Min(a: int, b: int): (m: int) { if a <= b then a else b }
  function Max(a: int, b: int): (m: int) { if a <= b then b else a }

  /** Puts the corners of a box in order: the smaller x first, the smaller y first. */
  function Normalize(b: Box): (n: Box)
  {
    Box(Min(b.x1, b.x2), Min(b.y1, b.y2), Max(b.x1, b.x2), Max(b.y1, b.y2))
  }

  /**
   * A normalised box is well formed and, on each axis, holds the two input
   * coordinates, possibly exchanged.
   */
  lemma NormalizeOrdersCorners(b: Box)
    ensures Normalize(b).x1 <= Normalize(b).x2 && Normalize(b).y1 <= Normalize(b).y2
    ensures (Normalize(b).x1 == b.x1 && Normalize(b).x2 == b.x2) || (Normalize(b).x1 == b.x2 && Normalize(b).x2 == b.x1)
    ensures (Normalize(b).y1 == b.y1 && Normalize(b).y2 == b.y2) || (Normalize(b).y1 == b.y2 && Normalize(b).y2 == b.y1)
  {
  }

  /** The same box written with its two x coordinates exchanged. */
  function SwapX(b: Box): (s: Box) { Box(b.x2, b.y1, b.x1, b.y2) }

  /** The same box written with its two y coordinates exchanged. */
  function SwapY(b: Box): (s: Box) { Box(b.x1, b.y2, b.x2, b.y1) }

  /** Two tuples that describe the same rectangle. */
  predicate SameRect(a: Box, b: Box) { Normalize(a) == Normalize(b) }

  /** The tolerance added to each side of the zone: a length times the expanding factor. */
  function Slack(length: int, ef: real): (slack: real) { length as real * ef }

  /**
   * The horizontal rejection test of the counting loop, on normalised boxes:
   * the helmet reaches past the bike's left or right edge by more than the
   * slack.
   */
  predicate OutsideHorizontally(b: Box, h: Box, ef: real)
  {
    var width := b.x2 - b.x1;
    h.x1 as real < b.x1 as real - Slack(width, ef) || h.x2 as real > b.x2 as real + Slack(width, ef)
  }

  /**
   * The vertical rejection test of the counting loop, on normalised boxes.
   * The window is anchored at the bike's BOTTOM edge `y2`: it starts the
   * slack above that edge and ends one bike height plus the slack below it.
   */
  predicate OutsideVertically(b: Box, h: Box, ef: real)
  {
    var height := b.y2 - b.y1;
    h.y1 as real < b.y2 as real - Slack(height, ef) || h.y2 as real > (b.y2 + height) as real + Slack(height, ef)
  }

  /** The helmet-zone test: both boxes normalised, neither rejection test fires. */
  predicate Matches(bike: Box, helmet: Box, ef: real)
  {
    var b := Normalize(bike);
    var h := Normalize(helmet);
    !OutsideHorizontally(b, h, ef) && !OutsideVertically(b, h, ef)
  }

  /**
   * The zone as a window: with both boxes normalised, `w` and `h` the bike's
   * width and height, the helmet matches exactly when
   * `hx1 >= bx1 - w*ef`, `hx2 <= bx2 + w*ef`, `hy1 >= by2 - h*ef` and
   * `hy2 <= by2 + h + h*ef`.
   */
  lemma MatchesWindow(bike: Box, helmet: Box, ef: real)
    ensures var b, h := Normalize(bike), Normalize(helmet);
            var w, ht := (b.x2 - b.x1) as real, (b.y2 - b.y1) as real;
            Matches(bike, helmet, ef)
            <==> && h.x1 as real >= b.x1 as real - w * ef
                 && h.x2 as real <= b.x2 as real + w * ef
                 && h.y1 as real >= b.y2 as real - ht * ef
                 && h.y2 as real <= b.y2 as real + ht + ht * ef
  {
  }

  lemma NormalizeIdempotent(b: Box)
    ensures Normalize(Normalize(b)) == Normalize(b)
  {
  }

  /** Normalising forgets the order in which each pair of corners was given. */
  lemma NormalizeIgnoresCornerOrder(b: Box)
    ensures Normalize(SwapX(b)) == Normalize(b)
    ensures Normalize(SwapY(b)) == Normalize(b)
    ensures Normalize(Box(b.x2, b.y2, b.x1, b.y1)) == Normalize(b)
  {
  }

  /** The zone test only sees the rectangles, not how their corners were written. */
  lemma MatchesDependsOnlyOnRects(bike: Box, bike': Box, helmet: Box, helmet': Box, ef: real)
    requires SameRect(bike, bike') && SameRect(helmet, helmet')
    ensures Matches(bike, helmet, ef) == Matches(bike', helmet', ef)
  {
  }

  lemma MatchesIgnoresCornerOrder(bike: Box, helmet: Box, ef: real)
    ensures Matches(SwapX(bike), helmet, ef) == Matches(bike, helmet, ef)
    ensures Matches(SwapY(bike), helmet, ef) == Matches(bike, helmet, ef)
    ensures Matches(bike, SwapX(helmet), ef) == Matches(bike, helmet, ef)
    ensures Matches(bike, SwapY(helmet), ef) == Matches(bike, helmet, ef)
  {
    NormalizeIgnoresCornerOrder(bike);
    NormalizeIgnoresCornerOrder(helmet);
    MatchesDependsOnlyOnRects(SwapX(bike), bike, helmet, helmet, ef);
    MatchesDependsOnlyOnRects(SwapY(bike), bike, helmet, helmet, ef);
    MatchesDependsOnlyOnRects(bike, bike, SwapX(helmet), helmet, ef);
    MatchesDependsOnlyOnRects(bike, bike, SwapY(helmet), helmet, ef);
  }

  /**
   * The zone lies at and below the bike's bottom edge: with a tolerance of
   * zero, a matching helmet starts no higher than the bottom edge of the bike.
   */
  lemma ZoneStartsAtBottomEdge(bike: Box, helmet: Box)
    requires Matches(bike, helmet, 0.0)
    ensures Normalize(helmet).y1 >= Normalize(bike).y2
  {
  }
}
