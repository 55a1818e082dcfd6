/** How a tape cell is shown: the byte is read as `RRRGGGBB` and each channel is
    widened to 8 bits by repeating its bit pattern. */
module Colour {

  datatype Rgb = Rgb(red: bv8, green: bv8, blue: bv8)

  /** The 3-bit red, 3-bit green and 2-bit blue fields of a pixel byte. */
  function RedField(pixel: bv8): bv8 { (pixel >> 5) & 0x7 }
  function GreenField(pixel: bv8): bv8 { (pixel >> 2) & 0x7 }
  function BlueField(pixel: bv8): bv8 { pixel & 0x3 }

  /** A 3-bit field widened to 8 bits by bit replication. */
  function Widen3(v: bv8): bv8 {
    (v << 5) | (v << 2) | (v >> 1)
  }

  /** A 2-bit field widened to 8 bits by bit replication. */
  function Widen2(v: bv8): bv8 {
    (v << 6) | (v << 4) | (v << 2) | v
  }

  /** The colour a cell is drawn in. Each channel is its field scaled evenly onto
      0..255, and the byte can be read back from the colour. */
  function Decode(pixel: bv8): (c: Rgb)
    ensures c.red as int == 36 * (RedField(pixel) as int) + (RedField(pixel) as int) / 2
    ensures c.green as int == 36 * (GreenField(pixel) as int) + (GreenField(pixel) as int) / 2
    ensures c.blue as int == 85 * (BlueField(pixel) as int)
    ensures Encode(c) == pixel
  {
    WidenValues(RedField(pixel));
    WidenValues(GreenField(pixel));
    WidenValues(BlueField(pixel));
    Rgb(Widen3(RedField(pixel)), Widen3(GreenField(pixel)), Widen2(BlueField(pixel)))
  }

  /** The top bits of each channel, put back into `RRRGGGBB` form. */
  function Encode(c: Rgb): bv8 {
    ((c.red >> 5) << 5) | ((c.green >> 5) << 2) | (c.blue >> 6)
  }

  /** Distinct bytes are drawn in distinct colours. */
  lemma DecodeInjective(p: bv8, q: bv8)
    ensures Decode(p) == Decode(q) <==> p == q
  {
  }

  /** The widened values as numbers: a 3-bit field `v` becomes `36v + v/2` and a
      2-bit field `v` becomes `85v`, so the scale runs evenly from 0 to 255. */
  lemma WidenValues(v: bv8)
    ensures v < 8 ==> Widen3(v) as int == 36 * (v as int) + (v as int) / 2
    ensures v < 4 ==> Widen2(v) as int == 85 * (v as int)
  {
    if v < 8 {
      assert v == 0 || v == 1 || v == 2 || v == 3 || v == 4 || v == 5 || v == 6 || v == 7;
    }
    if v < 4 {
      assert v == 0 || v == 1 || v == 2 || v == 3;
    }
  }

  /** A larger field gives a brighter channel. */
  lemma WidenMonotone(v: bv8, w: bv8)
    requires v < w < 8
    ensures Widen3(v) < Widen3(w)
    ensures w < 4 ==> Widen2(v) < Widen2(w)
  {
    WidenValues(v);
    WidenValues(w);
  }

  /** A zero field gives 0 and a full field gives 255: `0x00` is black and `0xFF` white. */
  lemma Extremes()
    ensures Decode(0x00) == Rgb(0, 0, 0)
    ensures Decode(0xFF) == Rgb(255, 255, 255)
    ensures Decode(0xE0) == Rgb(255, 0, 0)
    ensures Decode(0x1C) == Rgb(0, 255, 0)
    ensures Decode(0x03) == Rgb(0, 0, 255)
  {
  }
}
