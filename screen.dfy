/**
  What every screen of the viewer shares: the terminal's size, the way a menu's size
  falls back to it, and the key names (as the terminal library reports them) that the
  screens bind to the same actions.
 */
module Screen {
  import opened Viewport

  /** The terminal's size in columns and rows. */
  datatype Size = Size(width: int, height: int)

  /** `Math.max(1, given || fallback)`: a size the caller gives (0 stands for none)
      or else the one derived from the terminal, and never below one. */
  function Dimension(given: int, fallback: int): (r: nat)
    ensures r >= 1
    ensures given >= 1 ==> r == given
    ensures given == 0 ==> r == Max(1, fallback)
    ensures given < 0 ==> r == 1
  {
    Max(1, if given != 0 then given else fallback)
  }

  predicate IsQuitKey(key: string)
  {
    key == "q" || key == "Q"
  }

  predicate IsSubmitKey(key: string)
  {
    key == "ENTER" || key == "KP_ENTER"
  }

  predicate IsUpKey(key: string)
  {
    key == "UP" || key == "k" || key == "K"
  }

  predicate IsDownKey(key: string)
  {
    key == "DOWN" || key == "j" || key == "J"
  }

  predicate IsPageUpKey(key: string)
  {
    key == "PAGE_UP" || key == "u" || key == "CTRL_U"
  }

  predicate IsPageDownKey(key: string)
  {
    key == "PAGE_DOWN" || key == "d" || key == "CTRL_D"
  }

  predicate IsHomeKey(key: string)
  {
    key == "HOME" || key == "g"
  }

  predicate IsEndKey(key: string)
  {
    key == "END" || key == "G"
  }
}
