/**
 * The pixel buffer of `Strip` (pirate/strip.h) and its colour wheel.
 *
 * `Strip<len, pin>` keeps `len` colours in an array that FastLED sends to
 * the LEDs; here the array is the whole object, and the template parameter
 * `len` is a constant fixed at construction. The pin and everything FastLED
 * does with the array are not modelled.
 */
module LedStrip {

  type byte = x: int | 0 <= x < 256

  /** Storing an `int` into a `uint8_t`: keeps the low 8 bits. */
  function ToByte(x: int): (b: byte)
    ensures 0 <= x < 256 ==> b == x
  {
    x % 256
  }

  /** FastLED's `CRGB`, one byte per channel. */
  datatype CRGB = CRGB(r: byte, g: byte, b: byte)

  /** `CRGB(w, w, w)`: a grey level. */
  function Grey(w: byte): CRGB
  {
    CRGB(w, w, w)
  }

  /**
   * `wheel(pos)`: the rainbow of the "Rainbow Cycle" animation, in three
   * segments of 85 positions (green to red, red to blue, blue to green).
   * The channels always add up to full scale, and one of them is off.
   */
  function Wheel(pos: byte): (c: CRGB)
    ensures c.r + c.g + c.b == 255
    ensures c.r == 0 || c.g == 0 || c.b == 0
  {
    if pos < 85 then
      CRGB(ToByte(pos * 3), ToByte(255 - pos * 3), 0)
    else if pos < 170 then
      var p := pos - 85;
      CRGB(ToByte(255 - p * 3), 0, ToByte(p * 3))
    else
      var p := pos - 170;
      CRGB(0, ToByte(p * 3), ToByte(255 - p * 3))
  }

  /** The position a colour of the wheel comes from: `Wheel`'s inverse on `[0, 255)`. */
  function WheelPosition(c: CRGB): (pos: int)
    ensures 0 <= pos < 256
  {
    if c.b == 0 && c.r < 255 then c.r / 3
    else if c.g == 0 && c.b < 255 then 85 + c.b / 3
    else 170 + c.g / 3
  }

  /** Each of the 255 positions `0..254` has its own colour, and `WheelPosition` recovers it. */
  lemma WheelRoundTrip(pos: byte)
    requires pos < 255
    ensures WheelPosition(Wheel(pos)) == pos
  {
    WheelExact(pos);
  }

  /** The wheel closes on itself: the last position shows the colour of the first. */
  lemma WheelWrapsAround()
    ensures Wheel(255) == Wheel(0)
  {
  }

  /** One colour at each segment boundary: green, red, blue. */
  lemma WheelBoundaries()
    ensures Wheel(0) == CRGB(0, 255, 0)
    ensures Wheel(85) == CRGB(255, 0, 0)
    ensures Wheel(170) == CRGB(0, 0, 255)
  {
  }

  /** No channel computation wraps a byte: every `uint8_t` store keeps the exact value. */
  lemma WheelExact(pos: byte)
    ensures pos < 85 ==> Wheel(pos) == CRGB(pos * 3, 255 - pos * 3, 0)
    ensures 85 <= pos < 170 ==> Wheel(pos) == CRGB(255 - (pos - 85) * 3, 0, (pos - 85) * 3)
    ensures 170 <= pos ==> Wheel(pos) == CRGB(0, (pos - 170) * 3, 255 - (pos - 170) * 3)
  {
  }

  class Strip {

    const len: nat                // the template parameter `len`
    const leds: array<CRGB>       // leds[len]

    ghost predicate Valid()
      reads this
    {
      leds.Length == len
    }

    /** A strip of `n` pixels, all off. */
    constructor (n: nat)
      ensures Valid() && fresh(leds) && len == n
      ensures forall i :: 0 <= i < n ==> leds[i] == CRGB(0, 0, 0)
    {
      len := n;
      leds := new CRGB[n](_ => CRGB(0, 0, 0));
    }

    /** `getLength()` */
    method GetLength() returns (n: int)
      requires Valid()
      ensures n == len && n == leds.Length
    {
      n := len;
    }

    /** `setPixel(index, color)`: an index outside `[0, len)` is ignored. */
    method SetPixel(index: int, color: CRGB)
      requires Valid()
      modifies leds
      ensures 0 <= index < len ==> leds[..] == old(leds[..])[index := color]
      ensures !(0 <= index < len) ==> leds[..] == old(leds[..])
    {
      if index >= 0 && index < len {
        leds[index] := color;
      }
    }

    /** `setPixel(index, r, g, b)` */
    method SetPixelRgb(index: int, r: byte, g: byte, b: byte)
      requires Valid()
      modifies leds
      ensures 0 <= index < len ==> leds[..] == old(leds[..])[index := CRGB(r, g, b)]
      ensures !(0 <= index < len) ==> leds[..] == old(leds[..])
    {
      SetPixel(index, CRGB(r, g, b));
    }

    /** `setPixel(index, w)` */
    method SetPixelWhite(index: int, w: byte)
      requires Valid()
      modifies leds
      ensures 0 <= index < len ==> leds[..] == old(leds[..])[index := Grey(w)]
      ensures !(0 <= index < len) ==> leds[..] == old(leds[..])
    {
      SetPixel(index, Grey(w));
    }

    /** `setAll(color)`: every pixel takes `color`. */
    method SetAll(color: CRGB)
      requires Valid()
      modifies leds
      ensures forall j :: 0 <= j < len ==> leds[j] == color
    {
      var i := 0;
      while i < len
        invariant 0 <= i <= len
        invariant forall j :: 0 <= j < i ==> leds[j] == color
      {
        SetPixel(i, color);
        i := i + 1;
      }
    }

    /** `setAll(r, g, b)` */
    method SetAllRgb(r: byte, g: byte, b: byte)
      requires Valid()
      modifies leds
      ensures forall j :: 0 <= j < len ==> leds[j] == CRGB(r, g, b)
    {
      SetAll(CRGB(r, g, b));
    }

    /** `setAll(w)` */
    method SetAllWhite(w: byte)
      requires Valid()
      modifies leds
      ensures forall j :: 0 <= j < len ==> leds[j] == Grey(w)
    {
      SetAll(Grey(w));
    }
  }
}
