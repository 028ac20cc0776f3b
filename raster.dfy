/** draw_char and draw_time_string: glyphs blitted into a monochrome frame, indexed
    frame[x, y] with frame.Length0 the width and frame.Length1 the height. */
module Raster {
  import opened Font
  import opened TimeFormat

  /** draw_time_string starts drawing at this column. */
  const LeftMargin: int := 2

  predicate InFrame(frame: array2<bool>, px: int, py: int) {
    0 <= px < frame.Length0 && 0 <= py < frame.Length1
  }

  /** draw.point: light one pixel; a point outside the frame is ignored. */
  method Point(frame: array2<bool>, px: int, py: int)
    modifies frame
    ensures forall qx, qy :: InFrame(frame, qx, qy) ==>
      frame[qx, qy] == (old(frame[qx, qy]) || (qx == px && qy == py))
  {
    if 0 <= px < frame.Length0 && 0 <= py < frame.Length1 {
      frame[px, py] := true;
    }
  }

  /** draw_char: lights the pixels of glyph c with its top-left corner at (x, y) and
      returns its advance width. Pixels are only ever set, never cleared. */
  method DrawChar(frame: array2<bool>, x: int, y: int, c: char) returns (width: nat)
    modifies frame
    ensures width == Advance(c)
    ensures forall px, py :: InFrame(frame, px, py) ==>
      frame[px, py] == (old(frame[px, py]) || GlyphLit(c, x, y, px, py))
  {
    if c !in DigitFont {
      return 0;
    }
    var pattern := DigitFont[c];
    width := if IsDigit(c) then 3 else 1;
    for rowIdx := 0 to |pattern|
      invariant forall px, py :: InFrame(frame, px, py) ==>
        frame[px, py] == (old(frame[px, py]) || (GlyphLit(c, x, y, px, py) && py < y + rowIdx))
    {
      for colIdx := 0 to width
        invariant forall px, py :: InFrame(frame, px, py) ==>
          frame[px, py] == (old(frame[px, py]) ||
            (GlyphLit(c, x, y, px, py) && (py < y + rowIdx || (py == y + rowIdx && px < x + colIdx))))
      {
        var bitPos := width - 1 - colIdx;
        if Bit(pattern[rowIdx], bitPos) {
          Point(frame, x + colIdx, y + rowIdx);
        }
      }
    }
  }

  /** How far draw_time_string moves its cursor for character c: the glyph's width
      plus one pixel of spacing, or nothing at all for a character the font lacks. */
  function Step(c: char): (n: nat)
    ensures n > 0 <==> c in DigitFont
    ensures n == 0 || n == 2 || n == 4
  {
    if c in DigitFont then Advance(c) + 1 else 0
  }

  /** The cursor of draw_time_string after the characters of s. */
  function Cursor(s: string): (x: int)
    ensures LeftMargin <= x <= LeftMargin + 4 * |s|
  {
    if s == [] then LeftMargin else Cursor(s[..|s| - 1]) + Step(s[|s| - 1])
  }

  /** Pixel (px, py) is lit by draw_time_string(s, y): some character of s, drawn at
      the cursor reached by the characters before it, lights it. */
  predicate TextLit(s: string, y: int, px: int, py: int) {
    s != [] &&
    (TextLit(s[..|s| - 1], y, px, py) || GlyphLit(s[|s| - 1], Cursor(s[..|s| - 1]), y, px, py))
  }

  /** draw_time_string: draws the characters of s left to right from LeftMargin,
      adding exactly the pixels TextLit names and clearing none. */
  method DrawTimeString(frame: array2<bool>, s: string, yOffset: int)
    modifies frame
    ensures forall px, py :: InFrame(frame, px, py) ==>
      frame[px, py] == (old(frame[px, py]) || TextLit(s, yOffset, px, py))
  {
    var x := LeftMargin;
    for i := 0 to |s|
      invariant x == Cursor(s[..i])
      invariant forall px, py :: InFrame(frame, px, py) ==>
        frame[px, py] == (old(frame[px, py]) || TextLit(s[..i], yOffset, px, py))
    {
      var c := s[i];
      assert s[..i + 1][..i] == s[..i];
      if c in DigitFont {
        var width := DrawChar(frame, x, yOffset, c);
        x := x + width + 1;
      }
    }
    assert s[..|s|] == s;
  }

  // ----- Layout properties -----

  lemma PrefixStep(s: string, k: nat)
    requires k < |s|
    ensures Cursor(s[..k + 1]) == Cursor(s[..k]) + Step(s[k])
  {
    assert s[..k + 1][..k] == s[..k];
  }

  /** The number of digits and of colons in s. */
  function Digits(s: string): nat {
    if s == [] then 0 else Digits(s[..|s| - 1]) + (if IsDigit(s[|s| - 1]) then 1 else 0)
  }

  function Colons(s: string): nat {
    if s == [] then 0 else Colons(s[..|s| - 1]) + (if s[|s| - 1] == ':' then 1 else 0)
  }

  /** Each digit moves the cursor by 4, each colon by 2, anything else by nothing. */
  lemma {:induction false} CursorCounts(s: string)
    ensures Cursor(s) == LeftMargin + 4 * Digits(s) + 2 * Colons(s)
  {
    if s != [] {
      CursorCounts(s[..|s| - 1]);
      FontShape(s[|s| - 1]);
    }
  }

  /** Every pixel draw_time_string lights lies to the right of the margin, left of the
      one-pixel gap before the final cursor, and within the seven glyph rows. */
  lemma {:induction false} TextLitBounds(s: string, y: int, px: int, py: int)
    requires TextLit(s, y, px, py)
    ensures LeftMargin <= px < Cursor(s) - 1
    ensures y <= py < y + GlyphHeight
  {
    var p := s[..|s| - 1];
    var c := s[|s| - 1];
    if TextLit(p, y, px, py) {
      TextLitBounds(p, y, px, py);
    } else {
      FontShape(c);
    }
  }

  /** The characters of s that the font has, in order. */
  function Known(s: string): (k: string)
    ensures forall i :: 0 <= i < |k| ==> k[i] in DigitFont
  {
    if s == [] then []
    else Known(s[..|s| - 1]) + (if s[|s| - 1] in DigitFont then [s[|s| - 1]] else [])
  }

  /** Characters missing from the font are skipped entirely: dropping them changes
      neither the final cursor nor any pixel. */
  lemma {:induction false} UnknownSkipped(s: string, y: int, px: int, py: int)
    ensures Cursor(Known(s)) == Cursor(s)
    ensures TextLit(Known(s), y, px, py) == TextLit(s, y, px, py)
  {
    if s != [] {
      var p := s[..|s| - 1];
      var c := s[|s| - 1];
      UnknownSkipped(p, y, px, py);
      if c in DigitFont {
        var k := Known(s);
        assert k[..|k| - 1] == Known(p);
        assert k[|k| - 1] == c;
      } else {
        assert Known(s) == Known(p);
      }
    }
  }

  /** Every character of a time string is in the font. */
  lemma TimeStringInFont(s: string)
    requires IsTimeString(s)
    ensures forall i :: 0 <= i < |s| ==> s[i] in DigitFont
  {
    forall i | 0 <= i < |s|
      ensures s[i] in DigitFont
    {
      FontShape(s[i]);
    }
  }

  /** Glyph left edges of an "HH:MM:SS" string, e.g. "12:34:56". */
  const TimeEdges: seq<int> := [2, 6, 10, 12, 16, 20, 22, 26]

  /** For any time string the k-th glyph is drawn at TimeEdges[k] and the cursor ends
      at 30, so the 27 lit columns 2..28 fit the 32-pixel display. */
  lemma TimeLayout(s: string)
    requires IsTimeString(s)
    ensures forall k :: 0 <= k < 8 ==> Cursor(s[..k]) == TimeEdges[k]
    ensures Cursor(s) == 30
  {
    assert s[..0] == [];
    forall k | 0 <= k < 8
      ensures Step(s[k]) == if k == 2 || k == 5 then 2 else 4
    {
      FontShape(s[k]);
    }
    PrefixStep(s, 0);
    PrefixStep(s, 1);
    PrefixStep(s, 2);
    PrefixStep(s, 3);
    PrefixStep(s, 4);
    PrefixStep(s, 5);
    PrefixStep(s, 6);
    PrefixStep(s, 7);
    assert s[..8] == s;
  }

  /** A rendered time lights only columns 2..28 and rows y..y+6. */
  lemma TimeFits(s: string, y: int, px: int, py: int)
    requires IsTimeString(s) && TextLit(s, y, px, py)
    ensures 2 <= px <= 28 && y <= py < y + GlyphHeight
  {
    TimeLayout(s);
    TextLitBounds(s, y, px, py);
  }

  /** The layout of "12:34:56" worked through. */
  lemma TwelveThirtyFourFiftySix()
    ensures forall k :: 0 <= k < 8 ==> Cursor("12:34:56"[..k]) == TimeEdges[k]
    ensures Cursor("12:34:56") == 30
  {
    TimeLayout("12:34:56");
  }
}
