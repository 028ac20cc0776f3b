/** The 3x7 bitmap font of the clock: one glyph per character '0'..'9' and ':'.
    A glyph is a list of rows; each row is a bitmask read most-significant bit first,
    so within a glyph of width w, column c is lit iff bit (w - 1 - c) of the row is set. */
module Font {

  /** Number of rows of every glyph. */
  const GlyphHeight: nat := 7

  /** DIGIT_FONT: the rows of each supported character (0b111 == 7, 0b101 == 5, ...). */
  const DigitFont: map<char, seq<nat>> := map[
    '0' := [7, 5, 5, 5, 5, 5, 7],
    '1' := [2, 6, 2, 2, 2, 2, 7],
    '2' := [7, 1, 1, 7, 4, 4, 7],
    '3' := [7, 1, 1, 7, 1, 1, 7],
    '4' := [5, 5, 5, 7, 1, 1, 1],
    '5' := [7, 4, 4, 7, 1, 1, 7],
    '6' := [7, 4, 4, 7, 5, 5, 7],
    '7' := [7, 1, 1, 1, 1, 1, 1],
    '8' := [7, 5, 5, 7, 5, 5, 7],
    '9' := [7, 5, 5, 7, 1, 1, 7],
    ':' := [0, 0, 1, 0, 1, 0, 0]
  ]

  /** Python's str.isdigit, restricted to what matters here: the ASCII digits. */
  predicate IsDigit(c: char) {
    '0' <= c <= '9'
  }

  /** The advance width draw_char returns: 3 for a digit, 1 for any other font
      character (the colon), 0 for a character the font does not have. */
  function Advance(c: char): (w: nat)
    ensures w > 0 <==> c in DigitFont
    ensures c in DigitFont ==> forall i :: 0 <= i < |DigitFont[c]| ==> DigitFont[c][i] < Pow2(w)
  {
    if c !in DigitFont then 0
    else if IsDigit(c) then 3
    else 1
  }

  function Pow2(k: nat): (p: nat)
    ensures p >= 1
  {
    if k == 0 then 1 else 2 * Pow2(k - 1)
  }

  /** `row & (1 << k) != 0`: bit k of row is set, read by shifting right k times. */
  predicate Bit(row: nat, k: nat) {
    if k == 0 then row % 2 == 1 else Bit(row / 2, k - 1)
  }

  /** Pixel (px, py) is lit by glyph c drawn with its top-left corner at (x, y). */
  predicate GlyphLit(c: char, x: int, y: int, px: int, py: int) {
    c in DigitFont &&
    x <= px < x + Advance(c) &&
    y <= py < y + |DigitFont[c]| &&
    Bit(DigitFont[c][py - y], Advance(c) - 1 - (px - x))
  }

  /** The font covers exactly the ten digits and the colon; every glyph has seven rows,
      and every row fits the glyph's width (below 8 for a digit, below 2 for the colon). */
  lemma FontShape(c: char)
    ensures c in DigitFont <==> IsDigit(c) || c == ':'
    ensures c in DigitFont ==> |DigitFont[c]| == GlyphHeight
    ensures c in DigitFont && IsDigit(c) ==> Advance(c) == 3 && forall i :: 0 <= i < GlyphHeight ==> DigitFont[c][i] < 8
    ensures c in DigitFont && !IsDigit(c) ==> Advance(c) == 1 && forall i :: 0 <= i < GlyphHeight ==> DigitFont[c][i] < 2
  {
  }

  /** A row below 2^w has no bit set at or beyond position w. */
  lemma {:induction false} NoBitBeyondWidth(row: nat, w: nat, k: nat)
    requires row < Pow2(w) && w <= k
    ensures !Bit(row, k)
  {
    if w == 0 {
      assert row == 0;
      ZeroHasNoBits(k);
    } else {
      NoBitBeyondWidth(row / 2, w - 1, k - 1);
    }
  }

  lemma {:induction false} ZeroHasNoBits(k: nat)
    ensures !Bit(0, k)
  {
    if k > 0 {
      ZeroHasNoBits(k - 1);
    }
  }

  /** No set bit of a glyph row is lost: reading `width` columns covers every bit, so
      each set bit k of row i is drawn at column width - 1 - k. */
  lemma {:induction false} GlyphColumnsCoverRows(c: char, i: nat, k: nat)
    requires c in DigitFont && i < |DigitFont[c]|
    requires Bit(DigitFont[c][i], k)
    ensures k < Advance(c)
    ensures GlyphLit(c, 0, 0, Advance(c) - 1 - k, i)
  {
    FontShape(c);
    if Advance(c) <= k {
      assert DigitFont[c][i] < Pow2(Advance(c)) by {
        assert Pow2(1) == 2 && Pow2(2) == 4 && Pow2(3) == 8;
      }
      NoBitBeyondWidth(DigitFont[c][i], Advance(c), k);
    }
  }
}
