/**
 * Shared definitions of the file browser: the sub-character glyph tables
 * used to draw histograms with 2x2, 3x2 (sextant) and 4x2 (braille) pixels
 * per terminal cell, the code that says which of those pixels are filled,
 * the colour-pair layout, string_contains, and the superscript writer
 * used for exponent labels.
 */
module Definitions {
  import opened CppLib

  // ---------------------------------------------------------------------
  // string_contains
  // ---------------------------------------------------------------------

  /** x occurs in str starting at index i. */
  predicate OccursAt(str: string, x: string, i: int) {
    0 <= i && i + |x| <= |str| && str[i..i + |x|] == x
  }

  /** The first index at or after `from` where x occurs (std::string::find). */
  function FindFrom(str: string, x: string, from: nat): (r: Option<nat>)
    ensures r.Some? ==> from <= r.value && OccursAt(str, x, r.value)
    ensures r.Some? ==> forall k :: from <= k < r.value ==> !OccursAt(str, x, k)
    ensures r.None? ==> forall k :: from <= k ==> !OccursAt(str, x, k)
    decreases |str| - from
  {
    if from + |x| > |str| then None
    else if str[from..from + |x|] == x then Some(from)
    else FindFrom(str, x, from + 1)
  }

  /** string_contains(str, x): str.find(x) != npos. */
  function StringContains(str: string, x: string): (r: bool)
    ensures r <==> exists i :: OccursAt(str, x, i)
  {
    FindFrom(str, x, 0).Some?
  }

  // ---------------------------------------------------------------------
  // Glyph tables (ascii_2x2, ascii_3x2, ascii_4x2)
  // ---------------------------------------------------------------------

  /** Quadrant blocks, indexed by BLOCKS_2x2. */
  const Glyphs2x2: seq<string> := [
    "▖", "▗", "▄", "▌", "▐", "▙", "▟", "█"
  ]

  /** Sextant blocks, indexed by BLOCKS_3x2; sixteen slots of which fifteen
      are initialised, so the last one (a2_VOID) holds the empty string. */
  const Glyphs3x2: seq<string> := [
    "🬏", "🬞", "🬭", "🬱", "🬵", "🬹", "🬓", "🬦", "▌", "▐", "🬲", "🬷", "🬺", "🬻", "█",
    ""
  ]

  /** Braille patterns, indexed by BLOCKS_4x2. */
  const Glyphs4x2: seq<string> := [
    "⡀", "⢀", "⡄", "⢠", "⡆", "⢰", "⡇", "⢸", "⣀", "⣤", "⣶", "⣿", "⣄", "⣠", "⣆",
    "⣰", "⣇", "⣸", "⣦", "⣴", "⣧", "⣼", "⣷", "⣾"
  ]

  // ---------------------------------------------------------------------
  // Fill codes and the maps from code to glyph index
  // ---------------------------------------------------------------------

  /** ascii_map_2x2: fill code (BLOCKS_code_2x2) to glyph index (BLOCKS_2x2). */
  const AsciiMap2x2: map<int, int> := map[
    0x00 := 8,  // C_VOID = 0b0000
    0x08 := 0,  // C_LOWER_LEFT = 0b1000
    0x04 := 1,  // C_LOWER_RIGHT = 0b0100
    0x0C := 2,  // C_LOWER_HALF = 0b1100
    0x0A := 3,  // C_LEFT_HALF = 0b1010
    0x05 := 4,  // C_RIGHT_HALF = 0b0101
    0x0E := 5,  // C_STAIRS_LEFT = 0b1110
    0x0D := 6,  // C_STAIRS_RIGHT = 0b1101
    0x0F := 7   // C_FULL_BLOCK = 0b1111
  ]

  /** ascii_map_3x2: fill code (BLOCKS_code_3x2) to glyph index (BLOCKS_3x2). */
  const AsciiMap3x2: map<int, int> := map[
    0x00 := 15, // EC_VOID = 0b000000
    0x20 := 0,  // EC_LOWER_LEFT = 0b100000
    0x10 := 1,  // EC_LOWER_RIGHT = 0b010000
    0x30 := 2,  // EC_LOWER_SLAB = 0b110000
    0x38 := 3,  // EC_STAIRS_L = 0b111000
    0x34 := 4,  // EC_STAIRS_R = 0b110100
    0x3C := 5,  // EC_SMALL_BLOCK = 0b111100
    0x28 := 6,  // EC_LEFT_PILLAR = 0b101000
    0x14 := 7,  // EC_RIGHT_PILLAR = 0b010100
    0x2A := 8,  // EC_LEFT_WALL = 0b101010
    0x15 := 9,  // EC_RIGHT_WALL = 0b010101
    0x3A := 10, // EC_STEEP_L = 0b111010
    0x35 := 11, // EC_STEEP_R = 0b110101
    0x3E := 12, // EC_BSTAIR_L = 0b111110
    0x3D := 13, // EC_BSTAIR_R = 0b111101
    0x3F := 14  // EC_FULL_BLOCK = 0b111111
  ]

  /** ascii_map_4x2: fill code (BLOCKS_code_4x2) to glyph index (BLOCKS_4x2). */
  const AsciiMap4x2: map<int, int> := map[
    0x80 := 0,  // BC_L1 = 0b10000000
    0x40 := 1,  // BC_R1 = 0b01000000
    0xA0 := 2,  // BC_L2 = 0b10100000
    0x50 := 3,  // BC_R2 = 0b01010000
    0xA8 := 4,  // BC_L3 = 0b10101000
    0x54 := 5,  // BC_R3 = 0b01010100
    0xAA := 6,  // BC_L4 = 0b10101010
    0x55 := 7,  // BC_R4 = 0b01010101
    0xC0 := 8,  // BC_1 = 0b11000000
    0xF0 := 9,  // BC_2 = 0b11110000
    0xFC := 10, // BC_3 = 0b11111100
    0xFF := 11, // BC_4 = 0b11111111
    0xE0 := 12, // BC_LS1 = 0b11100000
    0xD0 := 13, // BC_RS1 = 0b11010000
    0xE8 := 14, // BC_LS2 = 0b11101000
    0xD4 := 15, // BC_RS2 = 0b11010100
    0xEA := 16, // BC_LS3 = 0b11101010
    0xD5 := 17, // BC_RS3 = 0b11010101
    0xF8 := 18, // BC_LS4 = 0b11111000
    0xF4 := 19, // BC_RS4 = 0b11110100
    0xFA := 20, // BC_LS5 = 0b11111010
    0xF5 := 21, // BC_RS5 = 0b11110101
    0xFE := 22, // BC_LS6 = 0b11111110
    0xFD := 23, // BC_RS6 = 0b11111101
    0x00 := 24  // BC_VOID = 0b00000000
  ]

  /** The histogram block modes: pixel rows per cell. */
  predicate IsBlockMode(mode: int) { mode == 2 || mode == 3 || mode == 4 }

  function GlyphTable(mode: int): seq<string>
    requires IsBlockMode(mode)
  {
    if mode == 2 then Glyphs2x2 else if mode == 3 then Glyphs3x2 else Glyphs4x2
  }

  function CodeTable(mode: int): map<int, int>
    requires IsBlockMode(mode)
  {
    if mode == 2 then AsciiMap2x2 else if mode == 3 then AsciiMap3x2 else AsciiMap4x2
  }

  /** The glyph index of the empty cell (a_VOID, a2_VOID, B_VOID). */
  function VoidIndex(mode: int): int
    requires IsBlockMode(mode)
  {
    if mode == 2 then 8 else if mode == 3 then 15 else 24
  }

  function Pow4(e: nat): (r: nat)
    ensures r >= 1
  {
    if e == 0 then 1 else 4 * Pow4(e - 1)
  }

  /**
   * The code bits of one side of a cell when its n lowest pixel rows are
   * filled.  Pixel row k (0 is the bottom) of a cell `mode` rows high owns
   * the bit pair 2(mode-1-k)+1 (left) and 2(mode-1-k) (right); this is the
   * right-hand bit of each pair, the left-hand bit is twice it.
   */
  function Ramp(mode: nat, n: nat): (r: nat)
    requires n <= mode
    decreases n
  {
    if n == 0 then 0 else Ramp(mode, n - 1) + Pow4(mode - n)
  }

  /** The code of a cell whose left column has `left` and whose right
      column has `right` lowest pixels filled. */
  function FillCode(mode: nat, left: nat, right: nat): (code: nat)
    requires left <= mode && right <= mode
  {
    2 * Ramp(mode, left) + Ramp(mode, right)
  }

  lemma RampValues(mode: int, n: nat)
    requires IsBlockMode(mode) && n <= mode
    ensures mode == 2 ==> Ramp(mode, n) == [0, 4, 5][n]
    ensures mode == 3 ==> Ramp(mode, n) == [0, 16, 20, 21][n]
    ensures mode == 4 ==> Ramp(mode, n) == [0, 64, 80, 84, 85][n]
  {
  }

  /**
   * Every fill pattern, in every block mode, has its code in the map, and the
   * code maps to the empty-cell index exactly when nothing is filled and to
   * a glyph of the mode's table otherwise.
   */
  lemma FillCodeHasGlyph(mode: int, left: nat, right: nat)
    requires IsBlockMode(mode) && left <= mode && right <= mode
    ensures FillCode(mode, left, right) in CodeTable(mode)
    ensures CodeTable(mode)[FillCode(mode, left, right)] == VoidIndex(mode) <==> left == 0 && right == 0
    ensures left != 0 || right != 0 ==>
      0 <= CodeTable(mode)[FillCode(mode, left, right)] < |GlyphTable(mode)|
  {
    FillCodeInTable(mode, left, right);
    VoidCodeOnly(mode, FillCode(mode, left, right));
    RampPositive(mode, left);
    RampPositive(mode, right);
  }

  lemma RampPositive(mode: nat, n: nat)
    requires n <= mode
    ensures Ramp(mode, n) == 0 <==> n == 0
  {
    if n > 0 {
      assert Ramp(mode, n) >= Pow4(mode - n);
    }
  }

  lemma FillCodeInTable(mode: int, left: nat, right: nat)
    requires IsBlockMode(mode) && left <= mode && right <= mode
    ensures FillCode(mode, left, right) in CodeTable(mode)
  {
    if mode == 2 {
      FillCodeIn2x2(left, right);
    } else if mode == 3 {
      FillCodeIn3x2(left, right);
    } else {
      FillCodeIn4x2(left, right);
    }
  }

  lemma FillCodeIn2x2(left: nat, right: nat)
    requires left <= 2 && right <= 2
    ensures FillCode(2, left, right) in AsciiMap2x2
  {
    RampValues(2, left);
    RampValues(2, right);
  }

  lemma FillCodeIn3x2(left: nat, right: nat)
    requires left <= 3 && right <= 3
    ensures FillCode(3, left, right) in AsciiMap3x2
  {
    RampValues(3, left);
    RampValues(3, right);
  }

  lemma FillCodeIn4x2(left: nat, right: nat)
    requires left <= 4 && right <= 4
    ensures FillCode(4, left, right) in AsciiMap4x2
  {
    RampValues(4, left);
    RampValues(4, right);
  }

  /** Only the empty code maps to the empty-cell index; every other code
      indexes the mode's glyph table. */
  lemma VoidCodeOnly(mode: int, code: int)
    requires IsBlockMode(mode) && code in CodeTable(mode)
    ensures CodeTable(mode)[code] == VoidIndex(mode) <==> code == 0
    ensures code != 0 ==> 0 <= CodeTable(mode)[code] < |GlyphTable(mode)|
  {
  }

  /** Every code in the map is the code of some fill pattern. */
  lemma CodeIsFillCode(mode: int, code: int)
    requires IsBlockMode(mode) && code in CodeTable(mode)
    ensures exists left: nat, right: nat :: left <= mode && right <= mode && FillCode(mode, left, right) == code
  {
    if mode == 2 {
      CodeIsFillCode2(code);
    } else if mode == 3 {
      CodeIsFillCode3(code);
    } else {
      CodeIsFillCode4(code);
    }
  }

  lemma CodeIsFillCode2(code: int)
    requires code in AsciiMap2x2
    ensures exists left: nat, right: nat :: left <= 2 && right <= 2 && FillCode(2, left, right) == code
  {
    if code == 0x08 {
      assert FillCode(2, 1, 0) == code;
    } else if code == 0x04 {
      assert FillCode(2, 0, 1) == code;
    } else if code == 0x0C {
      assert FillCode(2, 1, 1) == code;
    } else if code == 0x0A {
      assert FillCode(2, 2, 0) == code;
    } else if code == 0x05 {
      assert FillCode(2, 0, 2) == code;
    } else if code == 0x0E {
      assert FillCode(2, 2, 1) == code;
    } else if code == 0x0D {
      assert FillCode(2, 1, 2) == code;
    } else if code == 0x0F {
      assert FillCode(2, 2, 2) == code;
    } else {
      assert FillCode(2, 0, 0) == code;
    }
  }

  lemma CodeIsFillCode3(code: int)
    requires code in AsciiMap3x2
    ensures exists left: nat, right: nat :: left <= 3 && right <= 3 && FillCode(3, left, right) == code
  {
    if code == 0x20 {
      assert FillCode(3, 1, 0) == code;
    } else if code == 0x10 {
      assert FillCode(3, 0, 1) == code;
    } else if code == 0x30 {
      assert FillCode(3, 1, 1) == code;
    } else if code == 0x38 {
      assert FillCode(3, 2, 1) == code;
    } else if code == 0x34 {
      assert FillCode(3, 1, 2) == code;
    } else if code == 0x3C {
      assert FillCode(3, 2, 2) == code;
    } else if code == 0x28 {
      assert FillCode(3, 2, 0) == code;
    } else if code == 0x14 {
      assert FillCode(3, 0, 2) == code;
    } else if code == 0x2A {
      assert FillCode(3, 3, 0) == code;
    } else if code == 0x15 {
      assert FillCode(3, 0, 3) == code;
    } else if code == 0x3A {
      assert FillCode(3, 3, 1) == code;
    } else if code == 0x35 {
      assert FillCode(3, 1, 3) == code;
    } else if code == 0x3E {
      assert FillCode(3, 3, 2) == code;
    } else if code == 0x3D {
      assert FillCode(3, 2, 3) == code;
    } else if code == 0x3F {
      assert FillCode(3, 3, 3) == code;
    } else {
      assert FillCode(3, 0, 0) == code;
    }
  }

  lemma CodeIsFillCode4(code: int)
    requires code in AsciiMap4x2
    ensures exists left: nat, right: nat :: left <= 4 && right <= 4 && FillCode(4, left, right) == code
  {
    if code < 0xE0 {
      CodeIsFillCode4Low(code);
    } else {
      CodeIsFillCode4High(code);
    }
  }

  /** CodeIsFillCode4 for the codes below 0xE0. */
  lemma CodeIsFillCode4Low(code: int)
    requires code in AsciiMap4x2 && code < 0xE0
    ensures exists left: nat, right: nat :: left <= 4 && right <= 4 && FillCode(4, left, right) == code
  {
    if code == 0x80 {
      assert FillCode(4, 1, 0) == code;
    } else if code == 0x40 {
      assert FillCode(4, 0, 1) == code;
    } else if code == 0xA0 {
      assert FillCode(4, 2, 0) == code;
    } else if code == 0x50 {
      assert FillCode(4, 0, 2) == code;
    } else if code == 0xA8 {
      assert FillCode(4, 3, 0) == code;
    } else if code == 0x54 {
      assert FillCode(4, 0, 3) == code;
    } else if code == 0xAA {
      assert FillCode(4, 4, 0) == code;
    } else if code == 0x55 {
      assert FillCode(4, 0, 4) == code;
    } else if code == 0xC0 {
      assert FillCode(4, 1, 1) == code;
    } else if code == 0xD0 {
      assert FillCode(4, 1, 2) == code;
    } else if code == 0xD4 {
      assert FillCode(4, 1, 3) == code;
    } else if code == 0xD5 {
      assert FillCode(4, 1, 4) == code;
    } else {
      assert FillCode(4, 0, 0) == code;
    }
  }

  /** CodeIsFillCode4 for the codes from 0xE0 on. */
  lemma CodeIsFillCode4High(code: int)
    requires code in AsciiMap4x2 && code >= 0xE0
    ensures exists left: nat, right: nat :: left <= 4 && right <= 4 && FillCode(4, left, right) == code
  {
    if code == 0xF0 {
      assert FillCode(4, 2, 2) == code;
    } else if code == 0xFC {
      assert FillCode(4, 3, 3) == code;
    } else if code == 0xFF {
      assert FillCode(4, 4, 4) == code;
    } else if code == 0xE0 {
      assert FillCode(4, 2, 1) == code;
    } else if code == 0xE8 {
      assert FillCode(4, 3, 1) == code;
    } else if code == 0xEA {
      assert FillCode(4, 4, 1) == code;
    } else if code == 0xF8 {
      assert FillCode(4, 3, 2) == code;
    } else if code == 0xF4 {
      assert FillCode(4, 2, 3) == code;
    } else if code == 0xFA {
      assert FillCode(4, 4, 2) == code;
    } else if code == 0xF5 {
      assert FillCode(4, 2, 4) == code;
    } else if code == 0xFE {
      assert FillCode(4, 4, 3) == code;
    } else {
      assert code == 0xFD;
      assert FillCode(4, 3, 4) == code;
    }
  }

  /** Different codes show different glyphs. */
  lemma CodeTableInjective(mode: int, a: int, b: int)
    requires IsBlockMode(mode)
    requires a in CodeTable(mode) && b in CodeTable(mode)
    requires CodeTable(mode)[a] == CodeTable(mode)[b]
    ensures a == b
  {
    if mode == 2 {
      AsciiMap2x2Injective(a, b);
    } else if mode == 3 {
      AsciiMap3x2Injective(a, b);
    } else {
      AsciiMap4x2Injective(a, b);
    }
  }

  lemma AsciiMap2x2Injective(a: int, b: int)
    requires a in AsciiMap2x2 && b in AsciiMap2x2 && AsciiMap2x2[a] == AsciiMap2x2[b]
    ensures a == b
  {
  }

  lemma AsciiMap3x2Injective(a: int, b: int)
    requires a in AsciiMap3x2 && b in AsciiMap3x2 && AsciiMap3x2[a] == AsciiMap3x2[b]
    ensures a == b
  {
  }

  lemma AsciiMap4x2Injective(a: int, b: int)
    requires a in AsciiMap4x2 && b in AsciiMap4x2 && AsciiMap4x2[a] == AsciiMap4x2[b]
    ensures a == b
  {
  }

  // ---------------------------------------------------------------------
  // Colour pairs (TermColor)
  // ---------------------------------------------------------------------

  const ColBlue := 1
  const ColGreen := 2
  const ColRed := 3
  const ColWhite := 4
  const ColYellow := 5
  const ColWinBkg := 6
  const ColWhiteblue := 7
  const ColStartPalette := 8
  const ColEndPalette := ColStartPalette + (231 - 17)
  const ColGrayscaleStart := ColEndPalette + 1
  const ColGrayscaleEnd := ColGrayscaleStart + 26

  // ---------------------------------------------------------------------
  // Superscript exponents
  // ---------------------------------------------------------------------

  const SupDigits: seq<char> := ['⁰', '¹', '²', '³', '⁴', '⁵', '⁶', '⁷', '⁸', '⁹']

  /** ASCII_SUP_MINUS in the Unicode build. */
  const SupMinus: char := '⁻'

  /** The superscript form of one character of std::to_string. */
  function SuperChar(c: char): char
    requires IsDigit(c) || c == '-'
  {
    if c == '-' then SupMinus else SupDigits[DigitValue(c)]
  }

  function Superscript(s: string): (r: string)
    requires forall k :: 0 <= k < |s| ==> IsDigit(s[k]) || s[k] == '-'
    ensures |r| == |s|
    ensures forall k :: 0 <= k < |s| ==> r[k] == SuperChar(s[k])
  {
    if |s| == 0 then [] else [SuperChar(s[0])] + Superscript(s[1..])
  }

  /** make_superscript(n): std::to_string(n) with every character raised. */
  function MakeSuperscript(n: int): (r: string)
    ensures |r| == |IntToString(n)|
    ensures forall k :: 0 <= k < |r| ==> r[k] == SuperChar(IntToString(n)[k])
  {
    Superscript(IntToString(n))
  }

  /** Reading a superscript character back. */
  function UnSuperChar(c: char): (r: Option<char>)
  {
    if c == SupMinus then Some('-')
    else if exists d :: 0 <= d < 10 && SupDigits[d] == c then
      var d :| 0 <= d < 10 && SupDigits[d] == c; Some(DigitChar(d))
    else None
  }

  function UnSuperscript(s: string): (r: Option<string>)
  {
    if |s| == 0 then Some([])
    else match (UnSuperChar(s[0]), UnSuperscript(s[1..]))
      case (Some(c), Some(rest)) => Some([c] + rest)
      case _ => None
  }

  /** The superscript form of an exponent reads back as its decimal form. */
  lemma {:induction false} SuperscriptRoundTrip(s: string)
    requires forall k :: 0 <= k < |s| ==> IsDigit(s[k]) || s[k] == '-'
    ensures UnSuperscript(Superscript(s)) == Some(s)
  {
    if |s| > 0 {
      var c := s[0];
      if c != '-' {
        var d := DigitValue(c);
        assert SupDigits[d] == SuperChar(c);
        assert forall e :: 0 <= e < 10 && SupDigits[e] == SuperChar(c) ==> e == d;
      }
      assert Superscript(s)[1..] == Superscript(s[1..]);
      SuperscriptRoundTrip(s[1..]);
      assert [c] + s[1..] == s;
    }
  }

  lemma MakeSuperscriptRoundTrip(n: int)
    ensures UnSuperscript(MakeSuperscript(n)) == Some(IntToString(n))
  {
    var s := IntToString(n);
    assert forall k :: 0 <= k < |s| ==> IsDigit(s[k]) || s[k] == '-' by {
      forall k | 0 <= k < |s| ensures IsDigit(s[k]) || s[k] == '-' {
        if n < 0 && k > 0 {
          assert s[k] == s[1..][k - 1];
        }
      }
    }
    SuperscriptRoundTrip(s);
  }
}
