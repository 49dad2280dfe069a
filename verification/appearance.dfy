/**
 Stand-ins for the UIKit values the checklist screen assigns: the colours it
 paints cells and segments with, and the two SF Symbol images of the comment
 button. UIKit's own types are not modelled; only which of these few values
 is in place matters to the rules of the screen.
 */
module Appearance {

  /** A value that may be absent: a property the code never assigned. */
  datatype Option<+T> = None | Some(value: T)

  /** The system and fixed colours the screen uses. */
  datatype Color =
    | SystemGreen   // "Acceptable" segment, and the completed header row
    | SystemRed     // "Unacceptable" segment
    | SystemGray    // "N/A" segment
    | SystemPink    // fallback for a segment index without its own colour
    | LightGray     // even rows
    | White         // odd rows

  /** The two images the comment button shows. */
  datatype SymbolImage =
    | PlusBubble    // "plus.bubble": comment field closed
    | XMark         // "xmark": comment field open
}
