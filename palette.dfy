/** The colours the two front ends choose between (ratatui styles and the `colored` crate). */
module Palette {

  datatype Colour = LightRed | LightGreen | LightYellow | Green | Red

  /** Both front ends show a zero exit code in green and any other in red. */
  function ExitColour(code: int): (c: Colour)
    ensures c == Green <==> code == 0
    ensures c == Red <==> code != 0
  {
    if code == 0 then Green else Red
  }
}
