// The renderer instance: a command queue recorded during the frame, a
// surface of BPP-byte pixels, and EndDrawing, which resolves the queue into
// the surface pixel by pixel and then empties the queue.

module BMR {
  import opened Types
  import opened Wrappers
  import opened Coloring
  import opened Geom
  import opened Commands
  import opened Codec
  import opened Raster

  /** Bytes reserved for the command queue (BMR_RENDER_COMMAND_CAPACITY). */
  const RENDER_COMMAND_CAPACITY: nat := 1024

  /** An opaque handle to the window frames are presented to. */
  type WindowHandle = nat

  // ---------------------------------------------------------------------------
  // Surface layout

  /** Byte offset of pixel (x, y) in a surface w pixels wide: y rows of pitch w * BPP, then x pixels. */
  function PixelOffset(w: nat, x: nat, y: nat): nat
  {
    y * (w * BPP) + x * BPP
  }

  lemma MulLeq(a: nat, b: nat, c: nat)
    requires a <= b
    ensures a * c <= b * c
  {
  }

  /** Row-major layout: pixel (x, y) is cell y * w + x of a Color4 array, and a row is w * BPP bytes. */
  lemma PixelLayout(w: nat, x: nat, y: nat)
    ensures PixelOffset(w, x, y) == (y * w + x) * BPP
    ensures PixelOffset(w, 0, y + 1) == PixelOffset(w, 0, y) + w * BPP
  {
  }

  /** Every pixel of a w-by-h surface lies within its w * h * BPP bytes. */
  lemma PixelInBounds(w: nat, h: nat, x: nat, y: nat)
    requires x < w && y < h
    ensures PixelOffset(w, x, y) + BPP <= PixelOffset(w, 0, y + 1) <= w * h * BPP
  {
    MulLeq(y + 1, h, w * BPP);
    assert (y + 1) * (w * BPP) == y * (w * BPP) + w * BPP;
    assert h * (w * BPP) == w * h * BPP;
  }

  /** Pixels earlier in row-major order lie wholly before later ones, so distinct pixels never share a byte. */
  lemma PixelOrder(w: nat, xx: nat, yy: nat, x: nat, y: nat)
    requires xx < w && x <= w
    requires yy < y || (yy == y && xx < x)
    ensures PixelOffset(w, xx, yy) + BPP <= PixelOffset(w, x, y)
  {
    if yy < y {
      MulLeq(yy + 1, y, w * BPP);
      assert (yy + 1) * (w * BPP) == yy * (w * BPP) + w * BPP;
    }
  }

  /** The colour of pixel (x, y) of a w-by-h surface held in `b`. */
  function PixelAt(b: Bytes, w: nat, h: nat, x: nat, y: nat): Color4
    requires |b| == w * h * BPP && x < w && y < h
  {
    PixelInBounds(w, h, x, y);
    DecodeColor(b, PixelOffset(w, x, y))
  }

  lemma ColorFramed(a: Bytes, b: Bytes, at: nat, lo: nat, hi: nat)
    requires lo <= at && at + COLOR4_SIZE <= hi <= |a| && hi <= |b| && a[lo..hi] == b[lo..hi]
    ensures DecodeColor(a, at) == DecodeColor(b, at)
  {
    assert a[at] == a[lo..hi][at - lo] && a[at + 1] == a[lo..hi][at + 1 - lo];
    assert a[at + 2] == a[lo..hi][at + 2 - lo] && a[at + 3] == a[lo..hi][at + 3 - lo];
  }

  /** Bytes up to the start of pixel (x, y) fix every pixel that comes before it in row-major order. */
  lemma PixelsBeforeFramed(a: Bytes, b: Bytes, w: nat, h: nat, x: nat, y: nat)
    requires |a| == w * h * BPP && |b| == |a| && x <= w
    requires PixelOffset(w, x, y) <= |a| && a[..PixelOffset(w, x, y)] == b[..PixelOffset(w, x, y)]
    ensures forall xx, yy :: 0 <= xx < w && 0 <= yy < h && (yy < y || (yy == y && xx < x)) ==>
              PixelAt(a, w, h, xx, yy) == PixelAt(b, w, h, xx, yy)
  {
    forall xx, yy | 0 <= xx < w && 0 <= yy < h && (yy < y || (yy == y && xx < x))
      ensures PixelAt(a, w, h, xx, yy) == PixelAt(b, w, h, xx, yy)
    {
      PixelOrder(w, xx, yy, x, y);
      PixelInBounds(w, h, xx, yy);
      ColorFramed(a, b, PixelOffset(w, xx, yy), 0, PixelOffset(w, x, y));
    }
  }

  /** Slicing further into two sequences that agree from p on keeps them agreeing. */
  lemma SuffixAgrees(a: Bytes, b: Bytes, p: nat, q: nat)
    requires p <= q <= |a| && |a| == |b| && a[p..] == b[p..]
    ensures a[q..] == b[q..]
  {
    assert a[q..] == a[p..][q - p..];
    assert b[q..] == b[p..][q - p..];
  }

  /** Bytes that hold `bytes` at `at` and agree with `before` everywhere else are `before` with that range replaced. */
  lemma Spliced(before: Bytes, after: Bytes, at: nat, bytes: Bytes)
    requires at + |bytes| <= |before| == |after|
    requires forall i | 0 <= i < |bytes| :: after[at + i] == bytes[i]
    requires forall i | 0 <= i < |after| && !(at <= i < at + |bytes|) :: after[i] == before[i]
    ensures after == before[..at] + bytes + before[at + |bytes|..]
    ensures after[..at + |bytes|] == before[..at] + bytes
  {
    var spliced := before[..at] + bytes + before[at + |bytes|..];
    forall i | 0 <= i < |after|
      ensures after[i] == spliced[i]
    {
      if at <= i < at + |bytes| {
        assert after[at + (i - at)] == bytes[i - at];
      }
    }
    assert after == spliced;
    assert after[..at + |bytes|] == spliced[..at + |bytes|];
  }

  /** Storing the encoding of `c` right after the encoding of `cmds` leaves the encoding of `cmds + [c]` in front. */
  lemma Appended(before: Bytes, after: Bytes, end: nat, cmds: seq<RenderCommand>, c: RenderCommand)
    requires end + c.Size() <= |before| == |after| && before[..end] == EncodeAll(cmds)
    requires forall i | 0 <= i < |Encode(c)| :: after[end + i] == Encode(c)[i]
    requires forall i | 0 <= i < |after| && !(end <= i < end + |Encode(c)|) :: after[i] == before[i]
    ensures after == before[..end] + Encode(c) + before[end + c.Size()..]
    ensures after[..end + c.Size()] == EncodeAll(cmds + [c])
  {
    Spliced(before, after, end, Encode(c));
    EncodeAllSnoc(cmds, c);
  }

  // ---------------------------------------------------------------------------
  // The rasterizer

  /** `*pixel = color`: a single 4-byte store of the colour's B, G, R, A bytes. */
  method StorePixel(buf: array<U8>, at: nat, c: Color4)
    requires at + BPP <= buf.Length
    modifies buf
    ensures buf[..] == old(buf[..])[..at] + EncodeColor(c) + old(buf[..])[at + BPP..]
    ensures buf[..at] == old(buf[..at]) && buf[at + BPP..] == old(buf[at + BPP..])
    ensures DecodeColor(buf[..], at) == c
  {
    buf[at], buf[at + 1], buf[at + 2], buf[at + 3] := c.B, c.G, c.R, c.A;
    assert buf[..] == old(buf[..])[..at] + EncodeColor(c) + old(buf[..])[at + BPP..];
  }

  /**
   * One pass of the innermost loop of EndDrawing: read the tag at `offset`,
   * then the payload its case reads, write the pixel if the case says so,
   * and return the offset just past the command.
   */
  method ReplayCommand(buf: array<U8>, pixel: nat, x: nat, y: nat,
                       arena: array<U8>, offset: nat, ghost c: RenderCommand, clear: Color4)
    returns (next: nat)
    requires buf != arena && pixel + BPP <= buf.Length
    requires offset + c.Size() <= arena.Length && arena[offset..offset + c.Size()] == Encode(c)
    modifies buf
    ensures next == offset + c.Size()
    ensures buf[..pixel] == old(buf[..pixel]) && buf[pixel + BPP..] == old(buf[pixel + BPP..])
    ensures DecodeColor(buf[..], pixel) == Apply(c, x, y, clear, old(DecodeColor(buf[..], pixel)))
  {
    EncodedFields(arena[..], offset, c);
    ghost var prior := DecodeColor(buf[..], pixel);
    var tag := DecodeU32(arena[..], offset);
    next := offset + TAG_SIZE;
    if tag == CLEAR.Value() {
      var color := DecodeColor(arena[..], next);
      next := next + COLOR4_SIZE;
      assert Apply(c, x, y, clear, prior) == color;
      StorePixel(buf, pixel, color);
    } else if tag == RECT.Value() {
      var rect := DecodeRect(arena[..], next);
      next := next + RECT_SIZE;
      var color := DecodeColor(arena[..], next);
      next := next + COLOR4_SIZE;
      if rect.IsInside(ToU16(x), ToU16(y)) {
        assert Apply(c, x, y, clear, prior) == color;
        StorePixel(buf, pixel, color);
      } else {
        assert Apply(c, x, y, clear, prior) == prior;
      }
    } else if tag == GRADIENT.Value() {
      var v := DecodeVec2u(arena[..], next);
      next := next + VEC2U_SIZE;
      assert Apply(c, x, y, clear, prior) == GradientColor(x, y, v);
      StorePixel(buf, pixel, Rgba(ToU8(x + v.X), ToU8(y + v.Y), 0));
    } else {
      assert Apply(c, x, y, clear, prior) == clear;
      StorePixel(buf, pixel, clear);
    }
  }

  /**
   * The innermost loop of EndDrawing for one pixel: walk the queue from
   * offset 0, replaying each command in insertion order.
   */
  method ShadePixel(buf: array<U8>, pixel: nat, x: nat, y: nat,
                    arena: array<U8>, count: nat, ghost cmds: seq<RenderCommand>, clear: Color4)
    requires buf != arena && pixel + BPP <= buf.Length
    requires EncodeAll(cmds) <= arena[..] && count == |cmds|
    modifies buf
    ensures buf[..pixel] == old(buf[..pixel]) && buf[pixel + BPP..] == old(buf[pixel + BPP..])
    ensures DecodeColor(buf[..], pixel) == PixelAfter(cmds, x, y, clear, old(DecodeColor(buf[..], pixel)))
  {
    ghost var prior := DecodeColor(buf[..], pixel);
    var offset := 0;
    var commandIdx := 0;
    while commandIdx < count
      invariant 0 <= commandIdx <= count
      invariant offset == |EncodeAll(cmds[..commandIdx])|
      invariant buf[..pixel] == old(buf[..pixel]) && buf[pixel + BPP..] == old(buf[pixel + BPP..])
      invariant DecodeColor(buf[..], pixel) == PixelAfter(cmds[..commandIdx], x, y, clear, prior)
    {
      EncodedAt(cmds, commandIdx, arena[..]);
      offset := ReplayCommand(buf, pixel, x, y, arena, offset, cmds[commandIdx], clear);
      EncodeAllTake(cmds, commandIdx + 1);
      PixelAfterTake(cmds, commandIdx + 1, x, y, clear, prior);
      commandIdx := commandIdx + 1;
    }
    assert cmds[..count] == cmds;
  }

  /** The first x pixels of row y hold what replaying `cmds` over their colours in `start` gives. */
  ghost predicate RowDone(b: Bytes, start: Bytes, w: nat, h: nat, x: nat, y: nat,
                          cmds: seq<RenderCommand>, clear: Color4)
    requires |b| == w * h * BPP && |start| == |b| && x <= w && y < h
  {
    forall xx :: 0 <= xx < x ==>
      PixelAt(b, w, h, xx, y) == PixelAfter(cmds, xx, y, clear, PixelAt(start, w, h, xx, y))
  }

  /** Shading pixel (x, y) of a row whose earlier pixels are done leaves them done, adds (x, y), and touches nothing later. */
  lemma RowStep(after: Bytes, before: Bytes, start: Bytes, w: nat, h: nat, x: nat, y: nat,
                cmds: seq<RenderCommand>, clear: Color4)
    requires |before| == w * h * BPP && |start| == |before| && |after| == |before| && x < w && y < h
    requires PixelOffset(w, x, y) + BPP <= |before|
    requires before[PixelOffset(w, x, y)..] == start[PixelOffset(w, x, y)..]
    requires after[..PixelOffset(w, x, y)] == before[..PixelOffset(w, x, y)]
    requires after[PixelOffset(w, x, y) + BPP..] == before[PixelOffset(w, x, y) + BPP..]
    requires DecodeColor(after, PixelOffset(w, x, y))
               == PixelAfter(cmds, x, y, clear, DecodeColor(before, PixelOffset(w, x, y)))
    requires RowDone(before, start, w, h, x, y, cmds, clear)
    ensures after[PixelOffset(w, x, y) + BPP..] == start[PixelOffset(w, x, y) + BPP..]
    ensures RowDone(after, start, w, h, x + 1, y, cmds, clear)
    ensures after[..PixelOffset(w, 0, y)] == before[..PixelOffset(w, 0, y)]
  {
    var p := PixelOffset(w, x, y);
    assert after[..PixelOffset(w, 0, y)] == after[..p][..PixelOffset(w, 0, y)];
    assert before[..PixelOffset(w, 0, y)] == before[..p][..PixelOffset(w, 0, y)];
    ColorFramed(before, start, p, p, |before|);
    SuffixAgrees(before, start, p, p + BPP);
    PixelsBeforeFramed(after, before, w, h, x, y);
    forall xx | 0 <= xx < x + 1
      ensures PixelAt(after, w, h, xx, y) == PixelAfter(cmds, xx, y, clear, PixelAt(start, w, h, xx, y))
    {
      if xx < x {
        assert PixelAt(after, w, h, xx, y) == PixelAt(before, w, h, xx, y);
      }
    }
  }

  /**
   * The middle loop of EndDrawing for row y: shade each pixel of the row from
   * left to right, stepping `pixel` by BPP bytes.
   */
  method RasterizeRow(buf: array<U8>, w: nat, h: nat, y: nat, row: nat,
                      arena: array<U8>, count: nat, ghost cmds: seq<RenderCommand>, clear: Color4,
                      ghost start: Bytes)
    requires buf != arena && buf.Length == w * h * BPP && |start| == buf.Length
    requires y < h && row == PixelOffset(w, 0, y)
    requires EncodeAll(cmds) <= arena[..] && count == |cmds|
    requires buf[row..] == start[row..]
    modifies buf
    ensures PixelOffset(w, 0, y + 1) <= buf.Length
    ensures buf[..row] == old(buf[..row])
    ensures buf[PixelOffset(w, 0, y + 1)..] == start[PixelOffset(w, 0, y + 1)..]
    ensures forall xx :: 0 <= xx < w ==>
              PixelAt(buf[..], w, h, xx, y) == PixelAfter(cmds, xx, y, clear, PixelAt(start, w, h, xx, y))
  {
    PixelLayout(w, 0, y);
    if w > 0 { PixelInBounds(w, h, w - 1, y); } else { MulLeq(y + 1, h, 0); }
    var pixel := row;
    var x := 0;
    while x < w
      invariant 0 <= x <= w
      invariant pixel == PixelOffset(w, x, y) <= buf.Length
      invariant buf[..row] == old(buf[..row])
      invariant buf[pixel..] == start[pixel..]
      invariant RowDone(buf[..], start, w, h, x, y, cmds, clear)
    {
      PixelInBounds(w, h, x, y);
      ghost var mid := buf[..];
      ShadePixel(buf, pixel, x, y, arena, count, cmds, clear);
      RowStep(buf[..], mid, start, w, h, x, y, cmds, clear);
      pixel := pixel + BPP;
      x := x + 1;
    }
  }

  /**
   * The rasterizing loops of EndDrawing: every pixel, row by row, is set to
   * what replaying the whole queue over its previous colour gives.
   */
  method Rasterize(buf: array<U8>, w: nat, h: nat,
                   arena: array<U8>, count: nat, ghost cmds: seq<RenderCommand>, clear: Color4)
    requires buf != arena && buf.Length == w * h * BPP
    requires EncodeAll(cmds) <= arena[..] && count == |cmds|
    modifies buf
    ensures forall x, y :: 0 <= x < w && 0 <= y < h ==>
              PixelAt(buf[..], w, h, x, y) == PixelAfter(cmds, x, y, clear, PixelAt(old(buf[..]), w, h, x, y))
  {
    ghost var start := buf[..];
    var pitch := w * BPP;
    var row := 0;
    var y := 0;
    while y < h
      invariant 0 <= y <= h
      invariant row == PixelOffset(w, 0, y) <= buf.Length
      invariant buf[row..] == start[row..]
      invariant forall xx, yy :: 0 <= xx < w && 0 <= yy < y ==>
                  PixelAt(buf[..], w, h, xx, yy) == PixelAfter(cmds, xx, yy, clear, PixelAt(start, w, h, xx, yy))
    {
      ghost var mid := buf[..];
      RasterizeRow(buf, w, h, y, row, arena, count, cmds, clear, start);
      PixelsBeforeFramed(buf[..], mid, w, h, 0, y);
      PixelLayout(w, 0, y);
      row := row + pitch;
      y := y + 1;
    }
  }

  // ---------------------------------------------------------------------------
  // The renderer instance

  class Renderer {
    var ClearColor: Color4

    /** The command queue: Arena[0] is its Begin, Arena[End] its End. */
    var Arena: array<U8>
    var End: nat
    var CommandCount: nat

    var Bpp: nat
    var XOffset: U64
    var YOffset: U64

    /** The surface: null until the first Resize. */
    var Buffer: array?<U8>
    var Width: nat
    var Height: nat

    var Window: WindowHandle

    /** The commands recorded since the queue was last emptied, in order. */
    ghost var Commands: seq<RenderCommand>

    ghost predicate Valid()
      reads this, Arena
    {
      && Arena.Length == RENDER_COMMAND_CAPACITY
      && End <= Arena.Length
      && Arena[..End] == EncodeAll(Commands)
      && CommandCount == |Commands|
      && Bpp == BPP
      && (Buffer == null ==> Width == 0 && Height == 0)
      && (Buffer != null ==> Buffer != Arena && Buffer.Length == Width * Height * BPP)
    }

    /** Init: an empty queue in a fresh arena, no surface, black clear colour. */
    constructor Init()
      ensures Valid() && fresh(Arena)
      ensures ClearColor == COLOR_BLACK
      ensures End == 0 && CommandCount == 0 && Commands == []
      ensures Bpp == BPP && XOffset == 0 && YOffset == 0
      ensures Buffer == null && Width == 0 && Height == 0
    {
      ClearColor := COLOR_BLACK;
      Arena := new U8[RENDER_COMMAND_CAPACITY](_ => 0);
      End := 0;
      CommandCount := 0;
      Bpp := BPP;
      XOffset := 0;
      YOffset := 0;
      Buffer := null;
      Width := 0;
      Height := 0;
      Window := 0;
      Commands := [];
    }

    /** Decoding the queue from offset 0 for CommandCount steps gives back exactly the recorded commands and stops at End. */
    lemma QueueDecodes()
      requires Valid()
      ensures DecodeAll(Arena[..], CommandCount) == Some((Commands, End))
    {
      assert EncodeAll(Commands) <= Arena[..];
      DecodeAllInvertsEncodeAll(Arena[..], Commands);
    }

    /** _PushRenderCommand: store the tag and payload at End, advance End past them and count the command. */
    method PushRenderCommand(c: RenderCommand)
      requires Valid()
      requires End + c.Size() <= RENDER_COMMAND_CAPACITY
      modifies Arena, this`End, this`CommandCount, this`Commands
      ensures Valid()
      ensures Commands == old(Commands) + [c]
      ensures CommandCount == old(CommandCount) + 1
      ensures End == old(End) + c.Size()
      ensures Arena[..] == old(Arena[..])[..old(End)] + Encode(c) + old(Arena[..])[End..]
    {
      var bytes := Encode(c);
      forall i | 0 <= i < |bytes| {
        Arena[End + i] := bytes[i];
      }
      Appended(old(Arena[..]), Arena[..], End, Commands, c);
      End := End + |bytes|;
      CommandCount := CommandCount + 1;
      Commands := Commands + [c];
    }

    /** SetClearColor: only the clear colour changes; commands already recorded keep the colour they carry. */
    method SetClearColor(c: Color4)
      requires Valid()
      modifies this`ClearColor
      ensures Valid() && ClearColor == c
      ensures Commands == old(Commands) && End == old(End) && Arena[..] == old(Arena[..])
    {
      ClearColor := c;
    }

    /** Clear: record a CLEAR carrying the clear colour current at the call. */
    method Clear()
      requires Valid()
      requires End + ClearCmd(ClearColor).Size() <= RENDER_COMMAND_CAPACITY
      modifies Arena, this`End, this`CommandCount, this`Commands
      ensures Valid()
      ensures Commands == old(Commands) + [ClearCmd(ClearColor)]
      ensures CommandCount == old(CommandCount) + 1
      ensures End == old(End) + ClearCmd(ClearColor).Size()
      ensures Arena[..] == old(Arena[..])[..old(End)] + Encode(ClearCmd(ClearColor)) + old(Arena[..])[End..]
    {
      PushRenderCommand(ClearCmd(ClearColor));
    }

    method DrawRect(r: Rect, c: Color4)
      requires Valid()
      requires End + RectCmd(r, c).Size() <= RENDER_COMMAND_CAPACITY
      modifies Arena, this`End, this`CommandCount, this`Commands
      ensures Valid()
      ensures Commands == old(Commands) + [RectCmd(r, c)]
      ensures CommandCount == old(CommandCount) + 1
      ensures End == old(End) + RectCmd(r, c).Size()
      ensures Arena[..] == old(Arena[..])[..old(End)] + Encode(RectCmd(r, c)) + old(Arena[..])[End..]
    {
      PushRenderCommand(RectCmd(r, c));
    }

    /** DrawRect(x, y, w, h, c): the U32 arguments narrow to the rectangle's U16 fields. */
    method DrawRectFromCoords(x: U32, y: U32, w: U32, h: U32, c: Color4)
      requires Valid()
      requires End + RECT_SIZE + COLOR4_SIZE + TAG_SIZE <= RENDER_COMMAND_CAPACITY
      modifies Arena, this`End, this`CommandCount, this`Commands
      ensures Valid()
      ensures Commands == old(Commands) + [RectCmd(Rect(ToU16(x), ToU16(y), ToU16(w), ToU16(h)), c)]
      ensures CommandCount == old(CommandCount) + 1
      ensures End == old(End) + RECT_SIZE + COLOR4_SIZE + TAG_SIZE
      ensures Arena[..] == old(Arena[..])[..old(End)]
                           + Encode(RectCmd(Rect(ToU16(x), ToU16(y), ToU16(w), ToU16(h)), c))
                           + old(Arena[..])[End..]
    {
      PushRenderCommand(RectCmd(Rect(ToU16(x), ToU16(y), ToU16(w), ToU16(h)), c));
    }

    method DrawGrad(offset: Vec2u)
      requires Valid()
      requires End + GradientCmd(offset).Size() <= RENDER_COMMAND_CAPACITY
      modifies Arena, this`End, this`CommandCount, this`Commands
      ensures Valid()
      ensures Commands == old(Commands) + [GradientCmd(offset)]
      ensures CommandCount == old(CommandCount) + 1
      ensures End == old(End) + GradientCmd(offset).Size()
      ensures Arena[..] == old(Arena[..])[..old(End)] + Encode(GradientCmd(offset)) + old(Arena[..])[End..]
    {
      PushRenderCommand(GradientCmd(offset));
    }

    /** DrawGrad(xOffset, yOffset): the same command with the offset built from its two components. */
    method DrawGradFromCoords(xOffset: U32, yOffset: U32)
      requires Valid()
      requires End + VEC2U_SIZE + TAG_SIZE <= RENDER_COMMAND_CAPACITY
      modifies Arena, this`End, this`CommandCount, this`Commands
      ensures Valid()
      ensures Commands == old(Commands) + [GradientCmd(Vec2u(xOffset, yOffset))]
      ensures CommandCount == old(CommandCount) + 1
      ensures End == old(End) + VEC2U_SIZE + TAG_SIZE
      ensures Arena[..] == old(Arena[..])[..old(End)] + Encode(GradientCmd(Vec2u(xOffset, yOffset))) + old(Arena[..])[End..]
    {
      PushRenderCommand(GradientCmd(Vec2u(xOffset, yOffset)));
    }

    /** BeginDrawing: remember the window the frame is for. */
    method BeginDrawing(window: WindowHandle)
      requires Valid()
      modifies this`Window
      ensures Valid() && Window == window
    {
      Window := window;
    }

    /**
     * EndDrawing: resolve the queue into every pixel of the surface, then
     * empty the queue.  Presenting the surface to the window is not modelled.
     */
    method EndDrawing()
      requires Valid()
      modifies Buffer, this`End, this`CommandCount, this`Commands
      ensures Valid()
      ensures End == 0 && CommandCount == 0 && Commands == []
      ensures ClearColor == old(ClearColor) && Width == old(Width) && Height == old(Height)
      ensures Buffer != null ==>
                forall x, y :: 0 <= x < Width && 0 <= y < Height ==>
                  PixelAt(Buffer[..], Width, Height, x, y)
                    == PixelAfter(old(Commands), x, y, ClearColor, PixelAt(old(Buffer[..]), Width, Height, x, y))
    {
      if Buffer != null {
        assert EncodeAll(Commands) <= Arena[..];
        Rasterize(Buffer, Width, Height, Arena, CommandCount, Commands, ClearColor);
      }
      End := 0;
      CommandCount := 0;
      Commands := [];
    }

    /** Resize: record the new dimensions and replace the surface with a fresh zeroed buffer of w * h * BPP bytes. */
    method Resize(w: int, h: int)
      requires Valid()
      requires 0 <= w <= MAX_S32 && 0 <= h <= MAX_S32 && w * h * BPP <= MAX_S32
      modifies this`Width, this`Height, this`Buffer
      ensures Valid() && fresh(Buffer)
      ensures Width == w && Height == h
      ensures Buffer != null && Buffer.Length == w * h * BPP
      ensures forall i :: 0 <= i < Buffer.Length ==> Buffer[i] == 0
    {
      Width := w;
      Height := h;
      var bufferSize := w * h * Bpp;
      Buffer := new U8[bufferSize](_ => 0);
    }
  }

  /**
   * One frame on a 100-by-100 surface: a white CLEAR then a black rectangle
   * at (10, 10) of extent 50; the pixel at (30, 30) ends black and the one at (5, 5) white.
   */
  method FrameScenario() returns (inside: Color4, outside: Color4)
    ensures inside == COLOR_BLACK && outside == COLOR_WHITE
  {
    var r := new Renderer.Init();
    r.Resize(100, 100);
    r.SetClearColor(COLOR_WHITE);
    r.Clear();
    r.DrawRect(Rect(10, 10, 50, 50), COLOR_BLACK);
    ghost var frame := r.Commands;
    assert frame == [ClearCmd(COLOR_WHITE), RectCmd(Rect(10, 10, 50, 50), COLOR_BLACK)];
    r.EndDrawing();
    inside := PixelAt(r.Buffer[..], r.Width, r.Height, 30, 30);
    outside := PixelAt(r.Buffer[..], r.Width, r.Height, 5, 5);
    ClearThenRect(COLOR_WHITE, Rect(10, 10, 50, 50), COLOR_BLACK, 30, 30, COLOR_WHITE, COLOR_BLACK);
    ClearThenRect(COLOR_WHITE, Rect(10, 10, 50, 50), COLOR_BLACK, 5, 5, COLOR_WHITE, COLOR_BLACK);
  }
}
