/** Viewport classification by width. */
module Sizing {

  datatype ScreenType = Mobile | Desktop | Widescreen

  /** `mobileWidth`: narrower viewports are phones. */
  const MobileWidth: real := 640.0
  /** `desktopWidth`: narrower viewports (and not phones) are desktops. */
  const DesktopWidth: real := 1280.0

  /** `getScreenType`: the first threshold the width falls below decides. */
  function GetScreenType(width: real): (t: ScreenType)
    ensures t == Mobile <==> width < MobileWidth
    ensures t == Desktop <==> MobileWidth <= width < DesktopWidth
    ensures t == Widescreen <==> DesktopWidth <= width
  {
    if width < MobileWidth then Mobile
    else if width < DesktopWidth then Desktop
    else Widescreen
  }

  /** The order of the categories: Mobile < Desktop < Widescreen. */
  function Rank(t: ScreenType): (n: nat)
  {
    match t
    case Mobile => 0
    case Desktop => 1
    case Widescreen => 2
  }

  /** A wider viewport never falls in a smaller category. */
  lemma GetScreenTypeMonotone(w1: real, w2: real)
    requires w1 <= w2
    ensures Rank(GetScreenType(w1)) <= Rank(GetScreenType(w2))
  {
  }
}
