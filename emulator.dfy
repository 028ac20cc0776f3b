/** TkinterEmulator, abstracted to its state: the running flag, the count of window
    teardowns, the LED colour and the fill colour of every LED (leds[y, x]). */
module Emulator {

  /** Fill of an LED that is off. */
  const OffColor: string := "#2a2a2a"

  class TkinterEmulator {
    const width: nat
    const height: nat
    /** Fill colour of each LED, row by row: leds[y, x]. */
    const leds: array2<string>
    var ledColor: string
    var running: bool
    /** How many times the window has been destroyed (root.destroy()). */
    var destroyCount: nat

    /** The LED grid matches the display size, and the window has been destroyed
        once exactly when the emulator no longer runs. */
    ghost predicate Valid()
      reads this
    {
      leds.Length0 == height && leds.Length1 == width &&
      destroyCount == (if running then 0 else 1)
    }

    /** The fill an LED gets for a lit or an unlit pixel. */
    function Fill(lit: bool): string
      reads this
    {
      if lit then ledColor else OffColor
    }

    /** Every LED shows its pixel of frame (frame[x, y], as PIL indexes it). */
    ghost predicate Shows(frame: array2<bool>)
      reads this, leds, frame
      requires Valid() && frame.Length0 == width && frame.Length1 == height
    {
      forall y, x :: 0 <= y < height && 0 <= x < width ==> leds[y, x] == Fill(frame[x, y])
    }

    /** A fresh emulator: running, every LED off. */
    constructor (width: nat, height: nat, ledColor: string)
      ensures Valid() && running && fresh(leds)
      ensures this.width == width && this.height == height && this.ledColor == ledColor
      ensures forall y, x :: 0 <= y < height && 0 <= x < width ==> leds[y, x] == OffColor
    {
      this.width := width;
      this.height := height;
      this.ledColor := ledColor;
      leds := new string[height, width]((y, x) => OffColor);
      running := true;
      destroyCount := 0;
    }

    /** _on_close: the user closed the window. Tk delivers this only while the window
        exists, that is while the emulator runs. */
    method OnClose()
      requires Valid() && running
      modifies this`running, this`destroyCount
      ensures Valid() && !running && destroyCount == 1
    {
      running := false;
      destroyCount := destroyCount + 1;
    }

    /** cleanup: stops the emulator and destroys the window if that has not happened
        yet; a second call changes nothing. */
    method Cleanup()
      requires Valid()
      modifies this`running, this`destroyCount
      ensures Valid() && !running && destroyCount == 1
      ensures !old(running) ==> unchanged(this)
    {
      if running {
        running := false;
        destroyCount := destroyCount + 1;
      }
    }

    /** display: fails (the "Window closed" interrupt) once the emulator has stopped;
        otherwise gives each LED the LED colour if its pixel is lit and the off colour
        if not. */
    method Display(frame: array2<bool>) returns (ok: bool)
      requires Valid() && frame.Length0 == width && frame.Length1 == height
      modifies leds
      ensures ok == running
      ensures ok ==> Shows(frame)
      ensures !ok ==> unchanged(leds)
    {
      if !running {
        return false;
      }
      for y := 0 to height
        invariant forall yy, x :: 0 <= yy < y && 0 <= x < width ==> leds[yy, x] == Fill(frame[x, yy])
      {
        for x := 0 to width
          invariant forall yy, xx :: 0 <= yy < y && 0 <= xx < width ==> leds[yy, xx] == Fill(frame[xx, yy])
          invariant forall xx :: 0 <= xx < x ==> leds[y, xx] == Fill(frame[xx, y])
        {
          if frame[x, y] {
            leds[y, x] := ledColor;
          } else {
            leds[y, x] := OffColor;
          }
        }
      }
      ok := true;
    }
  }
}
