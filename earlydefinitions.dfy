/**
 * The earlier revision of the shared definitions: only the 2x2 (quadrant)
 * and 3x2 (sextant) block modes, their fill codes and code-to-glyph maps,
 * a shorter colour enumeration without the 256-colour palette, and the
 * same string_contains.
 */
module EarlyDefinitions {
  import opened CppLib
  import opened Definitions

  /** ascii_2x2 of the earlier revision. */
  const EarlyGlyphs2x2: seq<string> := [
    "▖", "▗", "▄", "▌", "▐", "▙", "▟", "█"
  ]

  /** ascii_3x2 of the earlier revision: sixteen slots, fifteen initialised. */
  const EarlyGlyphs3x2: seq<string> := [
    "🬏", "🬞", "🬭", "🬱", "🬵", "🬹", "🬓", "🬦", "▌", "▐", "🬲", "🬷", "🬺", "🬻", "█",
    ""
  ]

  /** ascii_map_2x2 of the earlier revision, from BLOCKS_code_2x2 to BLOCKS_2x2. */
  const EarlyAsciiMap2x2: map<int, int> := map[
    0x00 := 8,  // C_VOID -> a_VOID
    0x08 := 0,  // C_LOWER_LEFT
    0x04 := 1,  // C_LOWER_RIGHT
    0x0C := 2,  // C_LOWER_HALF
    0x0A := 3,  // C_LEFT_HALF
    0x05 := 4,  // C_RIGHT_HALF
    0x0E := 5,  // C_STAIRS_LEFT
    0x0D := 6,  // C_STAIRS_RIGHT
    0x0F := 7   // C_FULL_BLOCK
  ]

  /** ascii_map_3x2 of the earlier revision, from BLOCKS_code_3x2 to BLOCKS_3x2. */
  const EarlyAsciiMap3x2: map<int, int> := map[
    0x00 := 15, // EC_VOID -> A_VOID
    0x20 := 0,  // EC_LOWER_LEFT
    0x10 := 1,  // EC_LOWER_RIGHT
    0x30 := 2,  // EC_LOWER_SLAB
    0x38 := 3,  // EC_STAIRS_L
    0x34 := 4,  // EC_STAIRS_R
    0x3C := 5,  // EC_SMALL_BLOCK
    0x28 := 6,  // EC_LEFT_PILLAR
    0x14 := 7,  // EC_RIGHT_PILLAR
    0x2A := 8,  // EC_LEFT_WALL
    0x15 := 9,  // EC_RIGHT_WALL
    0x3A := 10, // EC_STEEP_L
    0x35 := 11, // EC_STEEP_R
    0x3E := 12, // EC_BSTAIR_L
    0x3D := 13, // EC_BSTAIR_R
    0x3F := 14  // EC_FULL_BLOCK
  ]

  /** The colour enumeration of the earlier revision. */
  const EarlyBlue := 1
  const EarlyGreen := 2
  const EarlyRed := 3
  const EarlyWhite := 4
  const EarlyYellow := 5
  const EarlyWhiteOnBlue := 6
  const EarlyWhiteblue := 7
  const EarlyGrayscaleStart := 8
  const EarlyGrayscaleEnd := EarlyGrayscaleStart + 26

  /** The two block modes of the earlier revision. */
  predicate IsEarlyMode(mode: int) { mode == 2 || mode == 3 }

  /**
   * The glyph a fill code is drawn with: ascii_NxM[ascii_map_NxM.at(code)].
   * None stands for the out_of_range that `at` throws for a code outside the
   * map, and for an index past the glyph array.
   */
  function EarlyGlyph(mode: int, code: int): (g: Option<string>)
    requires IsEarlyMode(mode)
    ensures mode == 2 ==> (g.Some? <==> code in EarlyAsciiMap2x2 && code != 0)
    ensures mode == 3 ==> (g.Some? <==> code in EarlyAsciiMap3x2)
    ensures mode == 3 && code == 0 ==> g == Some("")
    ensures g.Some? && code != 0 ==> g.value != ""
  {
    var table := if mode == 2 then EarlyAsciiMap2x2 else EarlyAsciiMap3x2;
    var glyphs := if mode == 2 then EarlyGlyphs2x2 else EarlyGlyphs3x2;
    if code in table && 0 <= table[code] < |glyphs| then Some(glyphs[table[code]]) else None
  }

  /** The earlier tables are the ones the current revision keeps for these two modes. */
  lemma EarlyTablesAreCurrent()
    ensures EarlyAsciiMap2x2 == AsciiMap2x2 && EarlyAsciiMap3x2 == AsciiMap3x2
    ensures EarlyGlyphs2x2 == Glyphs2x2 && EarlyGlyphs3x2 == Glyphs3x2
  {
  }

  /**
   * Every fill pattern of the two early modes has a code in the map; the
   * empty pattern is the only code without a visible glyph (in 2x2 the
   * lookup of a_VOID runs past the array, in 3x2 it finds the empty slot).
   */
  lemma EarlyFillCodeHasGlyph(mode: int, left: nat, right: nat)
    requires IsEarlyMode(mode) && left <= mode && right <= mode
    ensures var code := FillCode(mode, left, right);
      (mode == 2 ==> code in EarlyAsciiMap2x2) && (mode == 3 ==> code in EarlyAsciiMap3x2) &&
      (EarlyGlyph(mode, code).Some? && EarlyGlyph(mode, code) != Some("") <==> left != 0 || right != 0)
  {
    EarlyTablesAreCurrent();
    FillCodeHasGlyph(mode, left, right);
    var code := FillCode(mode, left, right);
    if left != 0 || right != 0 {
      VoidCodeOnly(mode, code);
    } else {
      RampPositive(mode, left);
      RampPositive(mode, right);
    }
  }

  /**
   * The early colours: seven UI colours, then the 26 grey levels at once,
   * which is where the current revision starts its 215-colour palette.
   */
  lemma EarlyColourLayout()
    ensures EarlyBlue < EarlyGreen < EarlyRed < EarlyWhite < EarlyYellow < EarlyWhiteOnBlue < EarlyWhiteblue < EarlyGrayscaleStart
    ensures EarlyGrayscaleEnd - EarlyGrayscaleStart == ColGrayscaleEnd - ColGrayscaleStart == 26
    ensures EarlyGrayscaleStart == ColStartPalette && EarlyWhiteblue == ColWhiteblue
  {
  }
}
