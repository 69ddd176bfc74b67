/** The one-byte map codes of client.c: plain block types, and the recoded types
    of walls whose low bits say which sides are drawn as blue lines. */
module MapCodes {
  import BlockMap

  const SETUP_SPACE: bv8 := 0
  const SETUP_FILLED: bv8 := 1
  const SETUP_FILLED_NO_DRAW: bv8 := 2
  const SETUP_FUEL: bv8 := 3
  const SETUP_REC_RU: bv8 := 4
  const SETUP_REC_RD: bv8 := 5
  const SETUP_REC_LU: bv8 := 6
  const SETUP_REC_LD: bv8 := 7
  const SETUP_SPACE_DOT: bv8 := 19
  const SETUP_DECOR_FILLED: bv8 := 111
  const SETUP_DECOR_RU: bv8 := 112
  const SETUP_DECOR_RD: bv8 := 113
  const SETUP_DECOR_LU: bv8 := 114
  const SETUP_DECOR_LD: bv8 := 115
  const SETUP_DECOR_DOT_FILLED: bv8 := 116
  const SETUP_DECOR_DOT_RU: bv8 := 117
  const SETUP_DECOR_DOT_RD: bv8 := 118
  const SETUP_DECOR_DOT_LU: bv8 := 119
  const SETUP_DECOR_DOT_LD: bv8 := 120

  const BLUE_UP: bv8 := 0x01
  const BLUE_RIGHT: bv8 := 0x02
  const BLUE_DOWN: bv8 := 0x04
  const BLUE_LEFT: bv8 := 0x08
  const BLUE_OPEN: bv8 := 0x10
  const BLUE_CLOSED: bv8 := 0x20
  const BLUE_FUEL: bv8 := 0x30
  const BLUE_BELOW: bv8 := 0x40
  const BLUE_BIT: bv8 := 0x80

  // The sides of a block that are solid: the table blue[] of Map_blue.
  function Blue(t: bv8): bv8 {
    if t == SETUP_FILLED || t == SETUP_FILLED_NO_DRAW || t == SETUP_FUEL then
      BLUE_LEFT | BLUE_UP | BLUE_RIGHT | BLUE_DOWN
    else if t == SETUP_REC_RU then BLUE_RIGHT | BLUE_UP
    else if t == SETUP_REC_RD then BLUE_RIGHT | BLUE_DOWN
    else if t == SETUP_REC_LU then BLUE_LEFT | BLUE_UP
    else if t == SETUP_REC_LD then BLUE_LEFT | BLUE_DOWN
    else if t & BLUE_BIT == 0 then 0
    else if t & BLUE_FUEL == BLUE_FUEL || t & (BLUE_OPEN | BLUE_CLOSED) == 0 then
      BLUE_LEFT | BLUE_UP | BLUE_RIGHT | BLUE_DOWN
    else if t & BLUE_OPEN != 0 && t & BLUE_BELOW == 0 && t & (BLUE_RIGHT | BLUE_DOWN) == 0 then BLUE_LEFT | BLUE_UP
    else if t & BLUE_OPEN != 0 && t & BLUE_BELOW != 0 && t & (BLUE_LEFT | BLUE_UP) == 0 then BLUE_RIGHT | BLUE_DOWN
    else if t & BLUE_CLOSED != 0 && t & BLUE_BELOW == 0 && t & (BLUE_LEFT | BLUE_DOWN) == 0 then BLUE_RIGHT | BLUE_UP
    else if t & BLUE_CLOSED != 0 && t & BLUE_BELOW != 0 && t & (BLUE_RIGHT | BLUE_UP) == 0 then BLUE_LEFT | BLUE_DOWN
    else 0
  }

  // The type that a wall of the map file is received as.
  predicate IsReceivedAs(t: bv8, c: char) {
    || (c == 'x' && t == SETUP_FILLED) || (c == '#' && t == SETUP_FUEL)
    || (c == 'a' && t == SETUP_REC_RU) || (c == 'q' && t == SETUP_REC_RD)
    || (c == 's' && t == SETUP_REC_LU) || (c == 'w' && t == SETUP_REC_LD)
  }

  // The table holds the sides along which the wall of the file is solid.
  lemma BlueIsSolid(t: bv8, c: char)
    requires IsReceivedAs(t, c)
    ensures Blue(t) & BLUE_LEFT != 0 <==> BlockMap.SolidLeft(c)
    ensures Blue(t) & BLUE_UP != 0 <==> BlockMap.SolidTop(c)
    ensures Blue(t) & BLUE_RIGHT != 0 <==> BlockMap.SolidRight(c)
    ensures Blue(t) & BLUE_DOWN != 0 <==> BlockMap.SolidBottom(c)
  {
  }

  // Which of its sides a block is to draw.
  datatype Sides = Sides(left: bool, up: bool, right: bool, down: bool)

  function Bit(on: bool, bit: bv8): bv8 { if on then bit else 0 }

  // A wall type with the bits of the sides it draws; other types are left alone.
  function Recode(t: bv8, s: Sides): bv8 {
    if t == SETUP_FILLED || t == SETUP_FILLED_NO_DRAW || t == SETUP_FUEL then
      var code := BLUE_BIT | Bit(t == SETUP_FUEL, BLUE_FUEL) | Bit(s.left, BLUE_LEFT) | Bit(s.down, BLUE_DOWN)
                  | Bit(s.right, BLUE_RIGHT) | Bit(s.up, BLUE_UP);
      if code == BLUE_BIT then SETUP_FILLED_NO_DRAW else code
    else if t == SETUP_REC_LU then BLUE_BIT | BLUE_OPEN | Bit(s.left, BLUE_LEFT) | Bit(s.up, BLUE_UP)
    else if t == SETUP_REC_RU then BLUE_BIT | BLUE_CLOSED | Bit(s.right, BLUE_RIGHT) | Bit(s.up, BLUE_UP)
    else if t == SETUP_REC_LD then
      BLUE_BIT | BLUE_BELOW | BLUE_CLOSED | Bit(s.left, BLUE_LEFT) | Bit(s.down, BLUE_DOWN)
    else if t == SETUP_REC_RD then
      BLUE_BIT | BLUE_BELOW | BLUE_OPEN | Bit(s.right, BLUE_RIGHT) | Bit(s.down, BLUE_DOWN)
    else t
  }

  // The plain type of a recoded wall.
  function Restore(t: bv8): bv8 {
    if t & BLUE_BIT == 0 then
      if t == SETUP_FILLED_NO_DRAW then SETUP_FILLED else t
    else if t & BLUE_FUEL == BLUE_FUEL then SETUP_FUEL
    else if t & BLUE_OPEN != 0 then
      if t & BLUE_BELOW != 0 then SETUP_REC_RD else SETUP_REC_LU
    else if t & BLUE_CLOSED != 0 then
      if t & BLUE_BELOW != 0 then SETUP_REC_LD else SETUP_REC_RU
    else SETUP_FILLED
  }

  // Recoding a block does not change which of its sides are solid, so neighbours
  // that are recoded later see the same as neighbours recoded earlier.
  lemma RecodingKeepsBlue(t: bv8, s: Sides)
    ensures Blue(Recode(t, s)) == Blue(t)
  {
  }

  lemma RecodingTwice(t: bv8, s: Sides)
    ensures Recode(Recode(t, s), s) == Recode(t, s)
  {
  }

  lemma RestoreUndoesRecode(t: bv8, s: Sides)
    ensures Restore(Recode(t, s)) == Restore(t)
  {
  }

  lemma RestoringTwice(t: bv8)
    ensures Restore(Restore(t)) == Restore(t)
  {
  }

  // A recoded block draws a side.
  predicate Draws(t: bv8, side: bv8) { t & BLUE_BIT != 0 && t & side != 0 }

  lemma RecodedDraws(t: bv8, s: Sides)
    requires t & BLUE_BIT == 0
    ensures Draws(Recode(t, s), BLUE_LEFT) <==> s.left && Blue(t) & BLUE_LEFT != 0
    ensures Draws(Recode(t, s), BLUE_UP) <==> s.up && Blue(t) & BLUE_UP != 0
    ensures Draws(Recode(t, s), BLUE_RIGHT) <==> s.right && Blue(t) & BLUE_RIGHT != 0
    ensures Draws(Recode(t, s), BLUE_DOWN) <==> s.down && Blue(t) & BLUE_DOWN != 0
  {
  }

  predicate IsPlainWall(t: bv8) { t == SETUP_FILLED || SETUP_FUEL <= t <= SETUP_REC_LD }

  // No wall is left as a plain one, and a block without a side to draw is one that is not
  // drawn, unless it is a fuel station or a half block.
  lemma RecodedIsNotPlain(t: bv8, s: Sides)
    ensures !IsPlainWall(Recode(t, s))
    ensures Recode(t, s) == SETUP_FILLED_NO_DRAW <==>
      (t == SETUP_FILLED || t == SETUP_FILLED_NO_DRAW) && !s.left && !s.up && !s.right && !s.down
  {
  }

  // ---- Dots ----

  function MakeDot(t: bv8): bv8 {
    if t == SETUP_SPACE then SETUP_SPACE_DOT
    else if t == SETUP_DECOR_FILLED then SETUP_DECOR_DOT_FILLED
    else if t == SETUP_DECOR_RU then SETUP_DECOR_DOT_RU
    else if t == SETUP_DECOR_RD then SETUP_DECOR_DOT_RD
    else if t == SETUP_DECOR_LU then SETUP_DECOR_DOT_LU
    else if t == SETUP_DECOR_LD then SETUP_DECOR_DOT_LD
    else t
  }

  function RemoveDot(t: bv8): bv8 {
    if t == SETUP_SPACE_DOT then SETUP_SPACE
    else if t == SETUP_DECOR_DOT_FILLED then SETUP_DECOR_FILLED
    else if t == SETUP_DECOR_DOT_RU then SETUP_DECOR_RU
    else if t == SETUP_DECOR_DOT_RD then SETUP_DECOR_RD
    else if t == SETUP_DECOR_DOT_LU then SETUP_DECOR_LU
    else if t == SETUP_DECOR_DOT_LD then SETUP_DECOR_LD
    else t
  }

  // The types that may become dots: space, and decorations when they are not shown.
  predicate CanBeDot(t: bv8, showDecor: bool) {
    || t == SETUP_SPACE
    || (!showDecor && (t == SETUP_DECOR_FILLED || t == SETUP_DECOR_RU || t == SETUP_DECOR_RD
                       || t == SETUP_DECOR_LU || t == SETUP_DECOR_LD))
  }

  predicate IsDecor(t: bv8) { SETUP_DECOR_FILLED <= t <= SETUP_DECOR_LD }

  predicate IsDot(t: bv8) { t == SETUP_SPACE_DOT || SETUP_DECOR_DOT_FILLED <= t <= SETUP_DECOR_DOT_LD }

  // The type a block was received as, whatever has been done to it since.
  function Normal(t: bv8): bv8 { RemoveDot(Restore(t)) }

  lemma NormalIsKept(t: bv8, s: Sides)
    ensures Normal(Recode(t, s)) == Normal(t)
    ensures Normal(Restore(t)) == Normal(t)
    ensures Normal(RemoveDot(t)) == Normal(t)
    ensures Normal(MakeDot(t)) == Normal(t)
  {
    RestoreUndoesRecode(t, s);
  }
}
