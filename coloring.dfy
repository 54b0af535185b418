// Color4: a packed 32-bit colour whose bytes lie in memory as B, G, R, A,
// built from (r, g, b, a) parameters that default to 0.

module Coloring {
  import opened Types

  /** Field order is the in-memory order of the struct: B, G, R, A. */
  datatype Color4 = Color4(B: U8, G: U8, R: U8, A: U8)
  {
    /** Channel-wise sum; each `int` sum narrows back to U8 on the way into the constructor. */
    function Plus(other: Color4): Color4
    {
      Rgba(ToU8(R + other.R), ToU8(G + other.G), ToU8(B + other.B), ToU8(A + other.A))
    }
  }

  /** The constructor `Color4(r, g, b, a)`; every parameter defaults to 0. */
  function Rgba(r: U8 := 0, g: U8 := 0, b: U8 := 0, a: U8 := 0): (c: Color4)
    ensures c.R == r && c.G == g && c.B == b && c.A == a
  {
    Color4(b, g, r, a)
  }

  /** Number of bytes a Color4 occupies. */
  const COLOR4_SIZE: nat := 4

  const COLOR_WHITE: Color4 := Rgba(MAX_U8, MAX_U8, MAX_U8, MAX_U8)
  const COLOR_RED: Color4 := Rgba(MAX_U8, 0, 0, 0)
  const COLOR_GREEN: Color4 := Rgba(0, MAX_U8, 0, 0)
  const COLOR_BLUE: Color4 := Rgba(0, 0, MAX_U8, 0)
  const COLOR_BLACK: Color4 := Rgba(0, 0, 0, 0)
  const COLOR_YELLOW: Color4 := COLOR_GREEN.Plus(COLOR_RED)

  /** The named colours, channel by channel: the constructor's first three parameters are red, green and blue. */
  lemma NamedColorChannels()
    ensures COLOR_WHITE.R == COLOR_WHITE.G == COLOR_WHITE.B == COLOR_WHITE.A == MAX_U8
    ensures COLOR_RED.R == MAX_U8 && COLOR_RED.G == 0 && COLOR_RED.B == 0 && COLOR_RED.A == 0
    ensures COLOR_GREEN.R == 0 && COLOR_GREEN.G == MAX_U8 && COLOR_GREEN.B == 0 && COLOR_GREEN.A == 0
    ensures COLOR_BLUE.R == 0 && COLOR_BLUE.G == 0 && COLOR_BLUE.B == MAX_U8 && COLOR_BLUE.A == 0
    ensures COLOR_BLACK.R == COLOR_BLACK.G == COLOR_BLACK.B == COLOR_BLACK.A == 0
  {
  }

  /** Each channel of a sum is the sum of the channels modulo 256. */
  lemma PlusIsAdditionModulo256(c: Color4, d: Color4)
    ensures c.Plus(d).R == (c.R + d.R) % 256 && c.Plus(d).G == (c.G + d.G) % 256
    ensures c.Plus(d).B == (c.B + d.B) % 256 && c.Plus(d).A == (c.A + d.A) % 256
    ensures c.R + d.R > MAX_U8 ==> c.Plus(d).R == c.R + d.R - 256
  {
  }

  lemma PlusCommutes(c: Color4, d: Color4)
    ensures c.Plus(d) == d.Plus(c)
  {
  }

  /** COLOR_BLACK is the identity of Plus, and it is what the default constructor builds. */
  lemma BlackIsIdentity(c: Color4)
    ensures c.Plus(COLOR_BLACK) == c && COLOR_BLACK.Plus(c) == c
    ensures Rgba() == COLOR_BLACK
    ensures COLOR_BLACK == Color4(0, 0, 0, 0)
  {
  }

  /** Every colour has an additive inverse: Plus makes the colours a group, so it never saturates. */
  lemma PlusHasInverse(c: Color4)
    ensures exists d: Color4 :: c.Plus(d) == COLOR_BLACK
  {
    var d := Rgba(ToU8(256 - c.R as int), ToU8(256 - c.G as int), ToU8(256 - c.B as int), ToU8(256 - c.A as int));
    assert c.Plus(d) == COLOR_BLACK;
  }

  lemma YellowIsGreenPlusRed()
    ensures COLOR_YELLOW == Rgba(255, 255, 0, 0)
  {
    var y := COLOR_YELLOW;
    assert y.R == 255 && y.G == 255 && y.B == 0 && y.A == 0;
  }

  /** Channels wrap instead of saturating: white plus one on every channel is black. */
  lemma WhitePlusOneWraps()
    ensures COLOR_WHITE.Plus(Rgba(1, 1, 1, 1)) == COLOR_BLACK
  {
    var w := COLOR_WHITE.Plus(Rgba(1, 1, 1, 1));
    assert w.R == 0 && w.G == 0 && w.B == 0 && w.A == 0;
  }
}
