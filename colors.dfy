/** The eight terminal colour codes a block can have (Color.py). */
module Colors {

  const BLACK: int := 30
  const RED: int := 31
  const GREEN: int := 32
  const YELLOW: int := 33
  const BLUE: int := 34
  const MAGENTA: int := 35
  const CYAN: int := 36
  const WHITE: int := 37

  const ALL_COLORS: seq<int> := [BLACK, RED, GREEN, YELLOW, BLUE, MAGENTA, CYAN, WHITE]

  predicate IsProperColor(c: int) {
    c in ALL_COLORS
  }

  /** The proper colours are exactly the eight consecutive codes 30..37, all different. */
  lemma ProperColorsAreCodes(c: int)
    ensures IsProperColor(c) <==> 30 <= c <= 37
    ensures |ALL_COLORS| == 8
    ensures forall i, j :: 0 <= i < j < |ALL_COLORS| ==> ALL_COLORS[i] != ALL_COLORS[j]
  {
  }

  /** The name of a colour; the source asserts that the colour is proper. */
  function ColorName(c: int): (name: string)
    requires IsProperColor(c)
    ensures name in ["black", "red", "green", "yellow", "blue", "magenta", "cyan", "white"]
    ensures name == ["black", "red", "green", "yellow", "blue", "magenta", "cyan", "white"][c - BLACK]
  {
    if c == BLACK then "black"
    else if c == RED then "red"
    else if c == GREEN then "green"
    else if c == YELLOW then "yellow"
    else if c == BLUE then "blue"
    else if c == MAGENTA then "magenta"
    else if c == CYAN then "cyan"
    else "white"
  }

  /** Different colours have different names. */
  lemma ColorNamesDistinct(c1: int, c2: int)
    requires IsProperColor(c1) && IsProperColor(c2) && c1 != c2
    ensures ColorName(c1) != ColorName(c2)
  {
  }
}
