/** Where the drop-down of a picker is placed next to its input: a preferred side (`align`) with a
    fallback when the popup does not fit on that side. Rectangles are integer records in the
    viewport's coordinates (y grows downwards). */
module Placement {

  /** The `align` prop. */
  datatype Align = Bottom | Top | Left | Right | Center

  /** The input's bounding rectangle, as far as the placement reads it. */
  datatype InputRect = InputRect(top: int, bottom: int, left: int, right: int, width: int)

  /** The document's bounding rectangle and the popup's height. */
  datatype Geometry = Geometry(input: InputRect, screenWidth: int, screenHeight: int, contentHeight: int)

  /** The `position` state: the popup's top-left corner and its width. */
  datatype Position = Position(x: int, y: int, width: int)

  /** The gap kept between the input and the popup. */
  const Gap: int := 4

  /** `Math.ceil(h / 2)`. */
  function CeilHalf(h: int): (r: int)
    ensures 2 * r >= h && 2 * (r - 1) < h
  {
    (h + 1) / 2
  }

  /** The room left below the input once the popup is placed there (gap not counted). */
  function ScreenBottom(g: Geometry): int {
    g.screenHeight - g.input.bottom - g.contentHeight
  }

  /** The top of the popup placed above the input with the gap. */
  function ScreenTop(g: Geometry): int {
    g.input.top - g.contentHeight - Gap
  }

  /** The left edge of an input-wide popup placed to the left of the input with the gap. */
  function ScreenLeft(g: Geometry): int {
    g.input.left - g.input.width - Gap
  }

  /** The room left to the right of the input once an input-wide popup is placed there. */
  function ScreenRight(g: Geometry): int {
    g.screenWidth - g.input.right - g.input.width
  }

  /** The popup centred vertically on the input's top edge. */
  function CentredY(g: Geometry): int {
    g.input.top - CeilHalf(g.contentHeight)
  }

  /** The placement rule of the hooks' `handleSetPosition`. The requested side is used when it has
      room, otherwise the opposite side, otherwise the popup is centred on the input. Placing the
      popup below after `top` was requested uses the input's bottom edge without the gap. */
  function HookPlacement(align: Align, g: Geometry): (r: Position)
    ensures r.width == g.input.width
    ensures align.Left? || align.Right? ==> r.y == g.input.top
    ensures !align.Left? && !align.Right? ==> r.x == g.input.left
  {
    var y :=
      match align
      case Bottom =>
        if ScreenBottom(g) > 0 then g.input.bottom + Gap
        else if ScreenTop(g) > 0 then ScreenTop(g)
        else CentredY(g)
      case Top =>
        if ScreenTop(g) > 0 then ScreenTop(g)
        else if ScreenBottom(g) > 0 then g.input.bottom
        else CentredY(g)
      case Center => CentredY(g)
      case _ => g.input.top;
    var x :=
      match align
      case Left => if ScreenLeft(g) > 0 then ScreenLeft(g) else g.input.right + Gap
      case Right => if ScreenRight(g) > 0 then g.input.right + Gap else ScreenLeft(g)
      case _ => g.input.left;
    Position(x, y, g.input.width)
  }

  /** Whether the document is at least as wide as the input and as tall as the popup. */
  predicate IsEnoughSpace(g: Geometry) {
    g.screenWidth >= g.input.width && g.screenHeight >= g.contentHeight
  }

  /** The placement rule of the standalone `TimePicker`: the hooks' rule when there is enough
      space, and otherwise the requested side with no fallback. */
  function StandalonePlacement(align: Align, g: Geometry): (r: Position)
    ensures r.width == g.input.width
    ensures align.Left? || align.Right? ==> r.y == g.input.top
    ensures !align.Left? && !align.Right? ==> r.x == g.input.left
  {
    if IsEnoughSpace(g) then HookPlacement(align, g)
    else
      match align
      case Bottom => Position(g.input.left, g.input.bottom + Gap, g.input.width)
      case Top => Position(g.input.left, ScreenTop(g), g.input.width)
      case Left => Position(ScreenLeft(g), g.input.top, g.input.width)
      case Right => Position(g.input.right + Gap, g.input.top, g.input.width)
      case Center => Position(g.input.left, CentredY(g), g.input.width)
  }

  /** `handleSetPosition` of the hooks: start from the input's corner and move one coordinate. */
  method SetPositionHook(align: Align, g: Geometry) returns (p: Position)
    ensures p == HookPlacement(align, g)
  {
    var contentHalfHeight := CeilHalf(g.contentHeight);
    var screenBottom := g.screenHeight - g.input.bottom - g.contentHeight;
    var screenTop := g.input.top - g.contentHeight - 4;
    var screenLeft := g.input.left - g.input.width - 4;
    var screenRight := g.screenWidth - g.input.right - g.input.width;
    var positionY := g.input.top;
    var positionX := g.input.left;
    if align == Bottom {
      positionY := if screenBottom > 0 then g.input.bottom + 4
                   else if screenTop > 0 then screenTop
                   else g.input.top - contentHalfHeight;
    } else if align == Top {
      positionY := if screenTop > 0 then screenTop
                   else if screenBottom > 0 then g.input.bottom
                   else g.input.top - contentHalfHeight;
    } else if align == Left {
      positionX := if screenLeft > 0 then screenLeft else g.input.right + 4;
    } else if align == Right {
      positionX := if screenRight > 0 then g.input.right + 4 else screenLeft;
    } else {
      positionY := g.input.top - contentHalfHeight;
      positionX := g.input.left;
    }
    p := Position(positionX, positionY, g.input.width);
  }

  /** `handleSetPosition` of the standalone picker, with its extra branch for a cramped document. */
  method SetPositionStandalone(align: Align, g: Geometry) returns (p: Position)
    ensures p == StandalonePlacement(align, g)
  {
    var contentHalfHeight := CeilHalf(g.contentHeight);
    var screenTop := g.input.top - g.contentHeight - 4;
    var screenLeft := g.input.left - g.input.width - 4;
    var isEnoughSpace := g.screenWidth >= g.input.width && g.screenHeight >= g.contentHeight;
    if !isEnoughSpace {
      var positionY := g.input.top;
      var positionX := g.input.left;
      if align == Bottom {
        positionY := g.input.bottom + 4;
      } else if align == Top {
        positionY := screenTop;
      } else if align == Left {
        positionX := screenLeft;
      } else if align == Right {
        positionX := g.input.right + 4;
      } else {
        positionY := g.input.top - contentHalfHeight;
        positionX := g.input.left;
      }
      p := Position(positionX, positionY, g.input.width);
    } else {
      p := SetPositionHook(align, g);
    }
  }

  // ---------------------------------------------------------------------------
  // What the placement guarantees

  /** Requesting `bottom`: when there is room below, the popup starts the gap below the input and
      ends at most the gap past the document's bottom; otherwise, with room above, it lies wholly
      on screen and ends the gap above the input; otherwise it is centred on the input's top. */
  lemma BottomPlacement(g: Geometry)
    ensures var p := HookPlacement(Bottom, g);
      (ScreenBottom(g) > 0 ==>
         p.y == g.input.bottom + Gap && p.y + g.contentHeight < g.screenHeight + Gap) &&
      (ScreenBottom(g) <= 0 && ScreenTop(g) > 0 ==>
         p.y > 0 && p.y + g.contentHeight + Gap == g.input.top) &&
      (ScreenBottom(g) <= 0 && ScreenTop(g) <= 0 ==>
         g.contentHeight <= 2 * (g.input.top - p.y) <= g.contentHeight + 1)
  {
  }

  /** Requesting `top`: with room above, the popup is on screen and ends the gap above the input;
      otherwise, with room below, it starts at the input's bottom edge with no gap and ends inside
      the document; otherwise it is centred on the input's top. */
  lemma TopPlacement(g: Geometry)
    ensures var p := HookPlacement(Top, g);
      (ScreenTop(g) > 0 ==> p.y > 0 && p.y + g.contentHeight + Gap == g.input.top) &&
      (ScreenTop(g) <= 0 && ScreenBottom(g) > 0 ==>
         p.y == g.input.bottom && p.y + g.contentHeight < g.screenHeight) &&
      (ScreenTop(g) <= 0 && ScreenBottom(g) <= 0 ==> p.y == CentredY(g))
  {
  }

  /** Requesting `left`: with room on the left, an input-wide popup ends the gap before the input
      and starts on screen; otherwise it starts the gap after the input. */
  lemma LeftPlacement(g: Geometry)
    ensures var p := HookPlacement(Left, g);
      (ScreenLeft(g) > 0 ==> p.x > 0 && p.x + p.width + Gap == g.input.left) &&
      (ScreenLeft(g) <= 0 ==> p.x == g.input.right + Gap)
  {
  }

  /** Requesting `right`: with room on the right, the popup starts the gap after the input and ends
      at most the gap past the document's right edge; otherwise it goes to the left of the input. */
  lemma RightPlacement(g: Geometry)
    ensures var p := HookPlacement(Right, g);
      (ScreenRight(g) > 0 ==> p.x == g.input.right + Gap && p.x + p.width < g.screenWidth + Gap) &&
      (ScreenRight(g) <= 0 ==> p.x + p.width + Gap == g.input.left)
  {
  }

  /** Requesting `center` always centres the popup on the input's top edge, whatever the room. */
  lemma CenterPlacement(g: Geometry)
    ensures HookPlacement(Center, g) == StandalonePlacement(Center, g)
    ensures HookPlacement(Center, g).y == CentredY(g)
  {
  }

  /** In a cramped document the standalone picker keeps the requested side: below and to the right
      with the gap, above and to the left exactly the gap away from the input. */
  lemma CrampedPlacement(align: Align, g: Geometry)
    requires !IsEnoughSpace(g)
    ensures var p := StandalonePlacement(align, g);
      (align.Bottom? ==> p.y == g.input.bottom + Gap) &&
      (align.Top? ==> p.y + g.contentHeight + Gap == g.input.top) &&
      (align.Left? ==> p.x + p.width + Gap == g.input.left) &&
      (align.Right? ==> p.x == g.input.right + Gap)
  {
  }

  /** With enough space both rules agree; when they differ the document is cramped and the hooks
      had fallen back to another side. */
  lemma PlacementsAgree(align: Align, g: Geometry)
    ensures IsEnoughSpace(g) ==> StandalonePlacement(align, g) == HookPlacement(align, g)
    ensures StandalonePlacement(align, g) != HookPlacement(align, g) ==>
      !IsEnoughSpace(g) && !align.Center?
  {
  }

  /** A popup of odd height is centred one pixel high (the half height is rounded up). */
  lemma CentredOddHeight(g: Geometry)
    requires g.contentHeight % 2 == 1
    ensures CentredY(g) == g.input.top - (g.contentHeight + 1) / 2
    ensures 2 * (g.input.top - CentredY(g)) == g.contentHeight + 1
  {
  }
}
