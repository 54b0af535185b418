// What the rasterizer computes for one pixel: every recorded command is
// replayed in insertion order, and the last one that applies to the pixel
// decides its colour.

module Raster {
  import opened Types
  import opened Wrappers
  import opened Coloring
  import opened Geom
  import opened Commands
  import opened Codec

  /** The colour a GRADIENT writes at (x, y): Color4(x + X, y + Y, 0), each sum narrowed to U8. */
  function GradientColor(x: nat, y: nat, v: Vec2u): Color4
  {
    Rgba(ToU8(x + v.X), ToU8(y + v.Y), 0)
  }

  /**
   * One case of the rasterizer's switch, given the pixel's current colour.
   * The rectangle test receives x and y narrowed to its U16 parameters; NOP,
   * LINE and every other tag fall to the default case, which writes the
   * renderer's clear colour.
   */
  function Apply(c: RenderCommand, x: nat, y: nat, clear: Color4, pixel: Color4): Color4
  {
    match c
    case ClearCmd(k) => k
    case RectCmd(r, k) => if r.IsInside(ToU16(x), ToU16(y)) then k else pixel
    case GradientCmd(v) => GradientColor(x, y, v)
    case NopCmd | LineCmd => clear
  }

  /** The colour of pixel (x, y) after replaying `cmds` in order over the colour `prior` it had before. */
  function PixelAfter(cmds: seq<RenderCommand>, x: nat, y: nat, clear: Color4, prior: Color4): Color4
    decreases |cmds|
  {
    if cmds == [] then prior
    else Apply(cmds[|cmds| - 1], x, y, clear, PixelAfter(cmds[..|cmds| - 1], x, y, clear, prior))
  }

  /** Replaying the first k commands is replaying the first k - 1 and then the k-th. */
  lemma PixelAfterTake(cmds: seq<RenderCommand>, k: nat, x: nat, y: nat, clear: Color4, prior: Color4)
    requires 0 < k <= |cmds|
    ensures PixelAfter(cmds[..k], x, y, clear, prior)
         == Apply(cmds[k - 1], x, y, clear, PixelAfter(cmds[..k - 1], x, y, clear, prior))
  {
    assert cmds[..k][..k - 1] == cmds[..k - 1];
  }

  // ---------------------------------------------------------------------------
  // The declarative reading: which commands write the pixel, and what they write

  /** Whether a command writes pixel (x, y): everything but a rectangle the pixel is outside of. */
  predicate Applies(c: RenderCommand, x: nat, y: nat)
  {
    !c.RectCmd? || c.rect.IsInside(ToU16(x), ToU16(y))
  }

  /** What a command writes when it applies. */
  function Paint(c: RenderCommand, x: nat, y: nat, clear: Color4): Color4
  {
    match c
    case ClearCmd(k) => k
    case RectCmd(_, k) => k
    case GradientCmd(v) => GradientColor(x, y, v)
    case NopCmd | LineCmd => clear
  }

  /** The index of the last command that writes pixel (x, y), if any. */
  function LastApplicable(cmds: seq<RenderCommand>, x: nat, y: nat): (r: Option<nat>)
    ensures r.Some? ==> r.value < |cmds| && Applies(cmds[r.value], x, y)
    ensures r.Some? ==> forall j :: r.value < j < |cmds| ==> !Applies(cmds[j], x, y)
    ensures r.None? ==> forall j :: 0 <= j < |cmds| ==> !Applies(cmds[j], x, y)
    decreases |cmds|
  {
    if cmds == [] then None
    else if Applies(cmds[|cmds| - 1], x, y) then Some(|cmds| - 1)
    else LastApplicable(cmds[..|cmds| - 1], x, y)
  }

  /** A case of the switch leaves the pixel alone exactly when the command does not apply, and otherwise writes Paint. */
  lemma ApplyWritesPaint(c: RenderCommand, x: nat, y: nat, clear: Color4, pixel: Color4)
    ensures Applies(c, x, y) ==> Apply(c, x, y, clear, pixel) == Paint(c, x, y, clear)
    ensures !Applies(c, x, y) ==> Apply(c, x, y, clear, pixel) == pixel
  {
  }

  /** Last writer wins: the pixel ends with what the last applicable command paints, or keeps its prior colour if none applies. */
  lemma {:induction false} PixelAfterIsLastWriter(cmds: seq<RenderCommand>, x: nat, y: nat, clear: Color4, prior: Color4)
    ensures PixelAfter(cmds, x, y, clear, prior) ==
              match LastApplicable(cmds, x, y)
              case None => prior
              case Some(i) => Paint(cmds[i], x, y, clear)
    decreases |cmds|
  {
    if cmds != [] {
      var n := |cmds|;
      var init := cmds[..n - 1];
      PixelAfterIsLastWriter(init, x, y, clear, prior);
      ApplyWritesPaint(cmds[n - 1], x, y, clear, PixelAfter(init, x, y, clear, prior));
      if !Applies(cmds[n - 1], x, y) {
        match LastApplicable(init, x, y)
        case None =>
        case Some(i) => assert cmds[i] == init[i];
      }
    }
  }

  /** With no applicable command, in particular with an empty queue, the pixel keeps its prior colour. */
  lemma NothingApplicableKeepsPrior(cmds: seq<RenderCommand>, x: nat, y: nat, clear: Color4, prior: Color4)
    requires forall j :: 0 <= j < |cmds| ==> !Applies(cmds[j], x, y)
    ensures PixelAfter(cmds, x, y, clear, prior) == prior
  {
    PixelAfterIsLastWriter(cmds, x, y, clear, prior);
  }

  /** The last applicable command decides the pixel, whatever came before it and whatever the prior colour. */
  lemma LastApplicableDecides(cmds: seq<RenderCommand>, i: nat, x: nat, y: nat, clear: Color4, prior: Color4)
    requires i < |cmds| && Applies(cmds[i], x, y)
    requires forall j :: i < j < |cmds| ==> !Applies(cmds[j], x, y)
    ensures PixelAfter(cmds, x, y, clear, prior) == Paint(cmds[i], x, y, clear)
  {
    PixelAfterIsLastWriter(cmds, x, y, clear, prior);
  }

  /** Replaying more commands extends the replay: the new commands see the colour the old ones left. */
  lemma {:induction false} PixelAfterAppend(a: seq<RenderCommand>, b: seq<RenderCommand>, x: nat, y: nat, clear: Color4, prior: Color4)
    ensures PixelAfter(a + b, x, y, clear, prior) == PixelAfter(b, x, y, clear, PixelAfter(a, x, y, clear, prior))
    decreases |b|
  {
    if b == [] {
      assert a + b == a;
    } else {
      var n := |b|;
      PixelAfterAppend(a, b[..n - 1], x, y, clear, prior);
      assert (a + b)[..|a + b| - 1] == a + b[..n - 1];
    }
  }

  /** A clear followed by a rectangle: the rectangle's colour exactly inside it, the clear colour elsewhere. */
  lemma ClearThenRect(c: Color4, r: Rect, k: Color4, x: nat, y: nat, clear: Color4, prior: Color4)
    ensures PixelAfter([ClearCmd(c), RectCmd(r, k)], x, y, clear, prior) ==
              if r.IsInside(ToU16(x), ToU16(y)) then k else c
  {
    assert [ClearCmd(c), RectCmd(r, k)][..1] == [ClearCmd(c)];
  }

  /** A rectangle followed by a clear: the clear colour everywhere, inside the rectangle too. */
  lemma RectThenClear(c: Color4, r: Rect, k: Color4, x: nat, y: nat, clear: Color4, prior: Color4)
    ensures PixelAfter([RectCmd(r, k), ClearCmd(c)], x, y, clear, prior) == c
  {
    LastApplicableDecides([RectCmd(r, k), ClearCmd(c)], 1, x, y, clear, prior);
  }

  /** A gradient's red and green are the pixel coordinates plus the offset, modulo 256; blue and alpha are 0. */
  lemma GradientChannels(v: Vec2u, x: nat, y: nat)
    ensures GradientColor(x, y, v).R == (x + v.X) % 256 && GradientColor(x, y, v).G == (y + v.Y) % 256
    ensures GradientColor(x, y, v).B == 0 && GradientColor(x, y, v).A == 0
    ensures GradientColor(x + 256, y + 256, v) == GradientColor(x, y, v)
    ensures v.X < MAX_U32 ==> GradientColor(x, y, Vec2u(v.X + 1, v.Y)) == GradientColor(x + 1, y, v)
  {
  }

  /** A gradient with offset (0, 0) at pixel (300, 10) gives red 44, green 10. */
  lemma GradientWrapExample(clear: Color4, prior: Color4)
    ensures PixelAfter([GradientCmd(Vec2u(0, 0))], 300, 10, clear, prior) == Rgba(44, 10, 0, 0)
  {
    var g := GradientColor(300, 10, Vec2u(0, 0));
    assert g.R == 44 && g.G == 10 && g.B == 0 && g.A == 0;
  }

  /** A tag with no case in the switch consumes only its own 4 bytes and writes the clear colour. */
  lemma UnknownTagWritesClearColor(b: Bytes, at: nat, x: nat, y: nat, clear: Color4, pixel: Color4)
    requires at + TAG_SIZE <= |b|
    requires DecodeU32(b, at) !in {CLEAR.Value(), RECT.Value(), GRADIENT.Value()}
    ensures DecodeAt(b, at).Some? && DecodeAt(b, at).value.1 == at + TAG_SIZE
    ensures Apply(DecodeAt(b, at).value.0, x, y, clear, pixel) == clear
  {
  }
}
