/** `calculatePosition` (app/components/LinkPreview/LinkPreview.tsx): where
    the preview popover goes when the browser cannot anchor it by CSS. The
    link's bounding box and the viewport size are parameters; `None` for
    the box is a link that is not mounted. */
module LinkPreview {
  import opened Options

  const PopoverWidth: real := 320.0
  const PopoverHeightEstimate: real := 220.0

  /** The space between the link and the popover. */
  const Gap: real := 12.0

  /** The smallest distance kept from a viewport edge. */
  const Margin: real := 10.0

  datatype Rect = Rect(top: real, left: real, width: real, bottom: real)
  datatype Position = Position(top: real, left: real)

  /** Above the link when the popover's top stays at least 10 from the
      viewport top, else below it. */
  function PopoverTop(rect: Rect): (top: real)
    ensures rect.top - PopoverHeightEstimate - Gap >= Margin ==>
              top >= Margin && top + PopoverHeightEstimate + Gap == rect.top
    ensures rect.top - PopoverHeightEstimate - Gap < Margin ==> top == rect.bottom + Gap
  {
    var above := rect.top - PopoverHeightEstimate - Gap;
    if above < Margin then rect.bottom + Gap else above
  }

  /** Centred on the link, then pushed back inside the viewport: the left
      edge first, the right edge only when the left one is clear. In a
      viewport wide enough for the popover and both margins it lies wholly
      inside, at least 10 from each side. */
  function PopoverLeft(rect: Rect, viewportWidth: real): (left: real)
    ensures var centred := rect.left + rect.width / 2.0 - PopoverWidth / 2.0;
      && (Margin <= centred && centred + PopoverWidth <= viewportWidth - Margin ==> left == centred)
      && (centred < Margin ==> left == Margin)
      && (Margin <= centred && centred + PopoverWidth > viewportWidth - Margin ==>
            left + PopoverWidth == viewportWidth - Margin)
    ensures left >= Margin || left + PopoverWidth == viewportWidth - Margin
    ensures viewportWidth >= PopoverWidth + 2.0 * Margin ==>
              Margin <= left && left + PopoverWidth <= viewportWidth - Margin
  {
    var centred := rect.left + rect.width / 2.0 - PopoverWidth / 2.0;
    if centred < Margin then Margin
    else if centred + PopoverWidth > viewportWidth - Margin then viewportWidth - PopoverWidth - Margin
    else centred
  }

  /** No popover without a link, nor when it would fit neither below the
      top margin nor above the bottom one. */
  function CalculatePosition(link: Option<Rect>, viewportWidth: real, viewportHeight: real): (r: Option<Position>)
    ensures link.None? ==> r.None?
    ensures link.Some? ==>
              var top := PopoverTop(link.value);
              (r.None? <==> top < Margin && top + PopoverHeightEstimate > viewportHeight - Margin)
    ensures r.Some? ==> r.value.top == PopoverTop(link.value) && r.value.left == PopoverLeft(link.value, viewportWidth)
    ensures r.Some? ==> r.value.top >= Margin || r.value.top + PopoverHeightEstimate <= viewportHeight - Margin
  {
    match link
    case None => None
    case Some(rect) =>
      var top := PopoverTop(rect);
      var left := PopoverLeft(rect, viewportWidth);
      if top + PopoverHeightEstimate > viewportHeight - Margin && top < Margin then None
      else Some(Position(top, left))
  }
}
