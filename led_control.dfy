// The LED strip: a fixed buffer of NUM_LEDS RGBW pixels, the palette index
// that `changeColor` cycles, and the frame last pushed to the LEDs by show().
module LedControl {
  import opened Config

  /** One pixel: red, green, blue and white channels. */
  datatype Rgbw = Rgbw(r: byte, g: byte, b: byte, w: byte)

  const OFF: Rgbw := Rgbw(0, 0, 0, 0)
  const WHITE: Rgbw := Rgbw(0, 0, 0, 255)

  /** Number of entries in the fixed palette that `changeColor` cycles through. */
  const PALETTE_SIZE: nat := 5

  type PaletteIndex = i: int | 0 <= i < PALETTE_SIZE

  /** The four channels of a pixel in RGBW order. */
  function Channels(c: Rgbw): (channels: seq<byte>)
  {
    [c.r, c.g, c.b, c.w]
  }

  /** The fixed palette: entries 0 to 3 light one channel (red, green, blue, white) at
      full intensity and leave the other three dark; entry 4 is off. */
  function Palette(i: PaletteIndex): (c: Rgbw)
    ensures i < 4 ==> forall k :: 0 <= k < 4 ==> Channels(c)[k] == (if k == i then 255 else 0)
    ensures i == 4 ==> c == OFF
  {
    match i
    case 0 => Rgbw(255, 0, 0, 0)
    case 1 => Rgbw(0, 255, 0, 0)
    case 2 => Rgbw(0, 0, 255, 0)
    case 3 => WHITE
    case 4 => OFF
  }

  /** Every palette entry is a different colour, so the strip shows which index is current. */
  lemma PaletteInjective(i: PaletteIndex, j: PaletteIndex)
    ensures Palette(i) == Palette(j) <==> i == j
  {
  }

  /** The whole strip showing one colour. */
  function Filled(c: Rgbw): (s: seq<Rgbw>)
    ensures |s| == NUM_LEDS
    ensures forall k :: 0 <= k < |s| ==> s[k] == c
  {
    seq(NUM_LEDS, _ => c)
  }

  /** The part of the strip state that `changeColor` reads and writes. */
  datatype StripView = StripView(colorIndex: PaletteIndex, pixels: seq<Rgbw>)

  /** The strip state after one `changeColor`: the index moves one step round the
      palette (from 4 back to 0) and the old pixels are entirely replaced by its colour. */
  function AfterChangeColor(v: StripView): (r: StripView)
    ensures (r.colorIndex - v.colorIndex) % PALETTE_SIZE == 1
    ensures r.colorIndex == 0 <==> v.colorIndex == PALETTE_SIZE - 1
    ensures r.pixels == Filled(Palette(r.colorIndex))
  {
    var next := (v.colorIndex + 1) % PALETTE_SIZE;
    StripView(next, Filled(Palette(next)))
  }

  /** The strip state after `n` consecutive `changeColor` calls. */
  function AfterChanges(v: StripView, n: nat): (r: StripView)
    decreases n
  {
    if n == 0 then v else AfterChanges(AfterChangeColor(v), n - 1)
  }

  /** After n calls the index has advanced by n modulo 5, and (for n > 0) the
      strip shows the palette colour of that index. */
  lemma {:induction false} AfterChangesIndex(v: StripView, n: nat)
    ensures AfterChanges(v, n).colorIndex == (v.colorIndex + n) % PALETTE_SIZE
    ensures n > 0 ==> AfterChanges(v, n).pixels == Filled(Palette(AfterChanges(v, n).colorIndex))
    ensures n == 0 ==> AfterChanges(v, n) == v
    decreases n
  {
    if n > 0 {
      AfterChangesIndex(AfterChangeColor(v), n - 1);
    }
  }

  /** Five consecutive calls bring back the starting index and, when the strip
      already showed the palette colour of that index, the starting pixels. */
  lemma FiveChangesRestore(v: StripView)
    ensures AfterChanges(v, 5).colorIndex == v.colorIndex
    ensures v.pixels == Filled(Palette(v.colorIndex)) ==> AfterChanges(v, 5) == v
  {
    AfterChangesIndex(v, 5);
  }

  /** From the first call on, the strip state repeats with period five. */
  lemma ChangeColorPeriodic(v: StripView, n: nat)
    requires n > 0
    ensures AfterChanges(v, n + 5) == AfterChanges(v, n)
  {
    AfterChangesIndex(v, n);
    AfterChangesIndex(v, n + 5);
  }

  /** The colours shown by the first five calls of `changeColor` after power-on and `initLEDs`
      (index 0, strip white): green, blue, white, off, then red. */
  lemma ColorsAfterInit()
    ensures var v := StripView(0, Filled(WHITE));
      && AfterChanges(v, 1).pixels == Filled(Rgbw(0, 255, 0, 0))
      && AfterChanges(v, 2).pixels == Filled(Rgbw(0, 0, 255, 0))
      && AfterChanges(v, 3).pixels == Filled(WHITE)
      && AfterChanges(v, 4).pixels == Filled(OFF)
      && AfterChanges(v, 5).pixels == Filled(Rgbw(255, 0, 0, 0))
  {
  }

  /** The strip object and the global palette index of led_control.cpp. */
  class Strip {
    /** The pixel buffer written by setPixelColor. */
    const pixels: array<Rgbw>
    /** The global `colorIndex`. */
    var colorIndex: int
    /** The frame last latched onto the LEDs by show(); empty before the first show(). */
    var shown: seq<Rgbw>

    ghost predicate Valid()
      reads this
    {
      pixels.Length == NUM_LEDS && 0 <= colorIndex < PALETTE_SIZE
    }

    function View(): StripView
      reads this, pixels
      requires Valid()
    {
      StripView(colorIndex, pixels[..])
    }

    /** The strip before setup: a cleared buffer, index 0, nothing shown. */
    constructor ()
      ensures Valid() && fresh(pixels)
      ensures colorIndex == 0 && pixels[..] == Filled(OFF) && shown == []
    {
      pixels := new Rgbw[NUM_LEDS](_ => OFF);
      colorIndex := 0;
      shown := [];
    }

    /** Writes `c` into every pixel of the buffer. */
    method FillPixels(c: Rgbw)
      requires Valid()
      modifies pixels
      ensures pixels[..] == Filled(c)
    {
      for i := 0 to NUM_LEDS
        invariant forall k :: 0 <= k < i ==> pixels[k] == c
      {
        pixels[i] := c;
      }
    }

    /** Latches the buffer onto the LEDs. */
    method Show()
      modifies this`shown
      ensures shown == pixels[..]
    {
      shown := pixels[..];
    }

    /** `initLEDs`: every pixel white, then shown. */
    method InitLEDs()
      requires Valid()
      modifies pixels, this`shown
      ensures Valid() && colorIndex == old(colorIndex)
      ensures pixels[..] == Filled(WHITE) && shown == pixels[..]
    {
      FillPixels(WHITE);
      Show();
    }

    /** `changeColor`: advance the index modulo 5 and show that palette colour everywhere. */
    method ChangeColor()
      requires Valid()
      modifies pixels, this`colorIndex, this`shown
      ensures Valid()
      ensures View() == AfterChangeColor(old(View()))
      ensures shown == pixels[..]
    {
      colorIndex := (colorIndex + 1) % PALETTE_SIZE;
      var color := Palette(colorIndex);
      FillPixels(color);
      Show();
    }

    /** `setColorFromHex`: exactly four bytes paint every pixel with that RGBW
        colour; any other length turns every pixel off. The index is untouched. */
    method SetColorFromHex(hex: seq<byte>)
      requires Valid()
      modifies pixels, this`shown
      ensures Valid() && colorIndex == old(colorIndex)
      ensures |hex| == 4 ==> pixels[..] == Filled(Rgbw(hex[0], hex[1], hex[2], hex[3]))
      ensures |hex| != 4 ==> pixels[..] == Filled(OFF)
      ensures shown == pixels[..]
    {
      if |hex| != 4 {
        FillPixels(OFF);
        Show();
        return;
      }
      var r, g, b, w := hex[0], hex[1], hex[2], hex[3];
      FillPixels(Rgbw(r, g, b, w));
      Show();
    }
  }
}
