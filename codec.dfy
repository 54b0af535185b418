// The byte layout of the command queue: each command is its 4-byte tag
// followed by its payload, packed with no padding, little-endian as on the
// x86 target.  Decoding mirrors the rasterizer's switch over the tag.

module Codec {
  import opened Types
  import opened Wrappers
  import opened Coloring
  import opened Geom
  import opened Commands

  type Bytes = seq<U8>

  function EncodeU16(v: U16): (b: Bytes)
    ensures |b| == 2
  {
    [v % 0x100, v / 0x100]
  }

  function DecodeU16(b: Bytes, at: nat): U16
    requires at + 2 <= |b|
  {
    b[at] as int + 0x100 * (b[at + 1] as int)
  }

  function EncodeU32(v: U32): (b: Bytes)
    ensures |b| == 4
  {
    EncodeU16(v % 0x1_0000) + EncodeU16(v / 0x1_0000)
  }

  function DecodeU32(b: Bytes, at: nat): U32
    requires at + 4 <= |b|
  {
    DecodeU16(b, at) + 0x1_0000 * DecodeU16(b, at + 2)
  }

  /** A Color4 is stored as its four bytes in field order B, G, R, A. */
  function EncodeColor(c: Color4): (b: Bytes)
    ensures |b| == COLOR4_SIZE
  {
    [c.B, c.G, c.R, c.A]
  }

  /** A stored Color4 is exactly as wide as a stored U32. */
  lemma ColorIsU32Wide(c: Color4, v: U32)
    ensures |EncodeColor(c)| == |EncodeU32(v)|
  {
  }

  function DecodeColor(b: Bytes, at: nat): Color4
    requires at + COLOR4_SIZE <= |b|
  {
    Color4(b[at], b[at + 1], b[at + 2], b[at + 3])
  }

  function EncodeRect(r: Rect): (b: Bytes)
    ensures |b| == RECT_SIZE
  {
    EncodeU16(r.X) + EncodeU16(r.Y) + EncodeU16(r.Width) + EncodeU16(r.Height)
  }

  function DecodeRect(b: Bytes, at: nat): Rect
    requires at + RECT_SIZE <= |b|
  {
    Rect(DecodeU16(b, at), DecodeU16(b, at + 2), DecodeU16(b, at + 4), DecodeU16(b, at + 6))
  }

  function EncodeVec2u(v: Vec2u): (b: Bytes)
    ensures |b| == VEC2U_SIZE
  {
    EncodeU32(v.X) + EncodeU32(v.Y)
  }

  function DecodeVec2u(b: Bytes, at: nat): Vec2u
    requires at + VEC2U_SIZE <= |b|
  {
    Vec2u(DecodeU32(b, at), DecodeU32(b, at + 4))
  }

  function EncodePayload(c: RenderCommand): (b: Bytes)
  {
    match c
    case ClearCmd(k) => EncodeColor(k)
    case RectCmd(r, k) => EncodeRect(r) + EncodeColor(k)
    case GradientCmd(v) => EncodeVec2u(v)
    case NopCmd | LineCmd => []
  }

  /** The bytes one push stores: the tag, then the payload. */
  function Encode(c: RenderCommand): (b: Bytes)
    ensures |b| == c.Size()
  {
    DiscriminantsAreExact(c.Type(), c.Type());
    EncodeU32(c.Type().Value()) + EncodePayload(c)
  }

  /** The bytes a sequence of pushes stores, in order. */
  function EncodeAll(cmds: seq<RenderCommand>): Bytes
  {
    if cmds == [] then [] else EncodeAll(cmds[..|cmds| - 1]) + Encode(cmds[|cmds| - 1])
  }

  /**
   * One step of the rasterizer's walk: read the tag at `at`, then the payload
   * its case reads, and return the command with the offset just past it.
   * NOP and any tag without a case read no payload.  None when a read would
   * leave `b`.
   */
  function DecodeAt(b: Bytes, at: nat): (r: Option<(RenderCommand, nat)>)
    ensures r.Some? ==> r.value.1 == at + r.value.0.Size() <= |b|
  {
    if at + TAG_SIZE > |b| then None
    else
      var p := at + TAG_SIZE;
      match TypeOfValue(DecodeU32(b, at))
      case Some(CLEAR) =>
        if p + COLOR4_SIZE <= |b| then Some((ClearCmd(DecodeColor(b, p)), p + COLOR4_SIZE)) else None
      case Some(RECT) =>
        if p + RECT_SIZE + COLOR4_SIZE <= |b|
        then Some((RectCmd(DecodeRect(b, p), DecodeColor(b, p + RECT_SIZE)), p + RECT_SIZE + COLOR4_SIZE))
        else None
      case Some(GRADIENT) =>
        if p + VEC2U_SIZE <= |b| then Some((GradientCmd(DecodeVec2u(b, p)), p + VEC2U_SIZE)) else None
      case Some(LINE) => Some((LineCmd, p))
      case _ => Some((NopCmd, p))
  }

  /** Decoding `n` commands from offset 0, each starting where the previous one ended. */
  function DecodeAll(b: Bytes, n: nat): (r: Option<(seq<RenderCommand>, nat)>)
    ensures r.Some? ==> |r.value.0| == n && r.value.1 <= |b|
  {
    if n == 0 then Some(([], 0))
    else
      match DecodeAll(b, n - 1)
      case None => None
      case Some((cs, off)) =>
        match DecodeAt(b, off)
        case None => None
        case Some((c, next)) => Some((cs + [c], next))
  }

  // ---------------------------------------------------------------------------
  // Round trips

  /** If the `|x| + |y|` bytes at `at` are x + y, then the bytes at `at` are x and those after them are y. */
  lemma SplitSlice(b: Bytes, at: nat, x: Bytes, y: Bytes)
    requires at + |x| + |y| <= |b| && b[at..at + |x| + |y|] == x + y
    ensures b[at..at + |x|] == x && b[at + |x|..at + |x| + |y|] == y
  {
    assert b[at..at + |x|] == b[at..at + |x| + |y|][..|x|];
    assert b[at + |x|..at + |x| + |y|] == b[at..at + |x| + |y|][|x|..];
  }

  lemma U16RoundTrip(b: Bytes, at: nat, v: U16)
    requires at + 2 <= |b| && b[at..at + 2] == EncodeU16(v)
    ensures DecodeU16(b, at) == v
  {
    assert b[at] == EncodeU16(v)[0] && b[at + 1] == EncodeU16(v)[1];
  }

  lemma U32RoundTrip(b: Bytes, at: nat, v: U32)
    requires at + 4 <= |b| && b[at..at + 4] == EncodeU32(v)
    ensures DecodeU32(b, at) == v
  {
    SplitSlice(b, at, EncodeU16(v % 0x1_0000), EncodeU16(v / 0x1_0000));
    U16RoundTrip(b, at, v % 0x1_0000);
    U16RoundTrip(b, at + 2, v / 0x1_0000);
  }

  lemma ColorRoundTrip(b: Bytes, at: nat, c: Color4)
    requires at + COLOR4_SIZE <= |b| && b[at..at + COLOR4_SIZE] == EncodeColor(c)
    ensures DecodeColor(b, at) == c
  {
    assert b[at] == EncodeColor(c)[0] && b[at + 1] == EncodeColor(c)[1];
    assert b[at + 2] == EncodeColor(c)[2] && b[at + 3] == EncodeColor(c)[3];
  }

  lemma RectRoundTrip(b: Bytes, at: nat, r: Rect)
    requires at + RECT_SIZE <= |b| && b[at..at + RECT_SIZE] == EncodeRect(r)
    ensures DecodeRect(b, at) == r
  {
    var x, y, w, h := EncodeU16(r.X), EncodeU16(r.Y), EncodeU16(r.Width), EncodeU16(r.Height);
    SplitSlice(b, at, x + y + w, h);
    SplitSlice(b, at, x + y, w);
    SplitSlice(b, at, x, y);
    U16RoundTrip(b, at, r.X);
    U16RoundTrip(b, at + 2, r.Y);
    U16RoundTrip(b, at + 4, r.Width);
    U16RoundTrip(b, at + 6, r.Height);
  }

  lemma Vec2uRoundTrip(b: Bytes, at: nat, v: Vec2u)
    requires at + VEC2U_SIZE <= |b| && b[at..at + VEC2U_SIZE] == EncodeVec2u(v)
    ensures DecodeVec2u(b, at) == v
  {
    SplitSlice(b, at, EncodeU32(v.X), EncodeU32(v.Y));
    U32RoundTrip(b, at, v.X);
    U32RoundTrip(b, at + 4, v.Y);
  }

  /** The value types round-trip through their byte forms on their own. */
  lemma ValueRoundTrips(c: Color4, r: Rect, v: Vec2u)
    ensures DecodeColor(EncodeColor(c), 0) == c
    ensures DecodeRect(EncodeRect(r), 0) == r
    ensures DecodeVec2u(EncodeVec2u(v), 0) == v
  {
    ColorRoundTrip(EncodeColor(c), 0, c);
    RectRoundTrip(EncodeRect(r), 0, r);
    Vec2uRoundTrip(EncodeVec2u(v), 0, v);
  }

  /** What the rasterizer's switch reads at `at` is the tag and the payload fields of `c`. */
  ghost predicate FieldsAt(b: Bytes, at: nat, c: RenderCommand)
  {
    && at + c.Size() <= |b|
    && DecodeU32(b, at) == c.Type().Value()
    && (c.ClearCmd? ==> DecodeColor(b, at + TAG_SIZE) == c.color)
    && (c.RectCmd? ==> DecodeRect(b, at + TAG_SIZE) == c.rect && DecodeColor(b, at + TAG_SIZE + RECT_SIZE) == c.color)
    && (c.GradientCmd? ==> DecodeVec2u(b, at + TAG_SIZE) == c.offset)
  }

  /** Where the tag and fields of `c` can be read, one decoding step returns `c` and moves exactly past it. */
  lemma FieldsDecode(b: Bytes, at: nat, c: RenderCommand)
    requires FieldsAt(b, at, c)
    ensures DecodeAt(b, at) == Some((c, at + c.Size()))
  {
    DiscriminantsAreExact(c.Type(), c.Type());
  }

  /** Wherever a command's encoding lies in the bytes, one decoding step there returns it and moves exactly past it. */
  lemma DecodeAtEncoded(b: Bytes, at: nat, c: RenderCommand)
    requires at + c.Size() <= |b| && b[at..at + c.Size()] == Encode(c)
    ensures DecodeAt(b, at) == Some((c, at + c.Size()))
  {
    EncodedHasFields(b, at, c);
    FieldsDecode(b, at, c);
  }

  /** A command's bytes split into its tag, which reads back as its discriminant, and its payload. */
  lemma EncodedTag(b: Bytes, at: nat, c: RenderCommand)
    requires at + c.Size() <= |b| && b[at..at + c.Size()] == Encode(c)
    ensures DecodeU32(b, at) == c.Type().Value()
    ensures b[at + TAG_SIZE..at + c.Size()] == EncodePayload(c)
  {
    DiscriminantsAreExact(c.Type(), c.Type());
    SplitSlice(b, at, EncodeU32(c.Type().Value()), EncodePayload(c));
    U32RoundTrip(b, at, c.Type().Value());
  }

  /** Each case of the switch reads back the payload stored at p. */
  lemma EncodedPayload(b: Bytes, p: nat, c: RenderCommand)
    requires p + c.PayloadSize() <= |b| && b[p..p + c.PayloadSize()] == EncodePayload(c)
    ensures c.ClearCmd? ==> DecodeColor(b, p) == c.color
    ensures c.RectCmd? ==> DecodeRect(b, p) == c.rect && DecodeColor(b, p + RECT_SIZE) == c.color
    ensures c.GradientCmd? ==> DecodeVec2u(b, p) == c.offset
  {
    match c
    case ClearCmd(k) =>
      ColorRoundTrip(b, p, k);
    case RectCmd(r, k) =>
      SplitSlice(b, p, EncodeRect(r), EncodeColor(k));
      RectRoundTrip(b, p, r);
      ColorRoundTrip(b, p + RECT_SIZE, k);
    case GradientCmd(v) =>
      Vec2uRoundTrip(b, p, v);
    case NopCmd =>
    case LineCmd =>
  }

  /** A command's encoding holds its tag and fields where the switch reads them. */
  lemma EncodedHasFields(b: Bytes, at: nat, c: RenderCommand)
    requires at + c.Size() <= |b| && b[at..at + c.Size()] == Encode(c)
    ensures FieldsAt(b, at, c)
  {
    EncodedTag(b, at, c);
    EncodedPayload(b, at + TAG_SIZE, c);
  }

  /** The fields the rasterizer's switch reads at a command's bytes: its tag picks its case, and each case reads back its payload. */
  lemma EncodedFields(b: Bytes, at: nat, c: RenderCommand)
    requires at + c.Size() <= |b| && b[at..at + c.Size()] == Encode(c)
    ensures DecodeU32(b, at) == CLEAR.Value() <==> c.ClearCmd?
    ensures DecodeU32(b, at) == RECT.Value() <==> c.RectCmd?
    ensures DecodeU32(b, at) == GRADIENT.Value() <==> c.GradientCmd?
    ensures c.ClearCmd? ==> DecodeColor(b, at + TAG_SIZE) == c.color
    ensures c.RectCmd? ==> DecodeRect(b, at + TAG_SIZE) == c.rect
    ensures c.RectCmd? ==> DecodeColor(b, at + TAG_SIZE + RECT_SIZE) == c.color
    ensures c.GradientCmd? ==> DecodeVec2u(b, at + TAG_SIZE) == c.offset
  {
    EncodedTag(b, at, c);
    DiscriminantsAreExact(CLEAR, c.Type());
    DiscriminantsAreExact(RECT, c.Type());
    DiscriminantsAreExact(GRADIENT, c.Type());
    EncodedPayload(b, at + TAG_SIZE, c);
  }

  /** A single command decodes back from its own encoding. */
  lemma CommandRoundTrip(c: RenderCommand)
    ensures DecodeAt(Encode(c), 0) == Some((c, |Encode(c)|))
  {
    DecodeAtEncoded(Encode(c), 0, c);
  }

  /** The encoding of a prefix of the commands is a prefix of the encoding of all of them. */
  lemma {:induction false} EncodeAllPrefix(cmds: seq<RenderCommand>, k: nat)
    requires k <= |cmds|
    ensures EncodeAll(cmds[..k]) <= EncodeAll(cmds)
    decreases |cmds| - k
  {
    if k < |cmds| {
      var n := |cmds|;
      assert cmds[..n] == cmds;
      EncodeAllPrefix(cmds[..n - 1], k);
      assert cmds[..n - 1][..k] == cmds[..k];
    } else {
      assert cmds[..k] == cmds;
    }
  }

  /** The command at index k lies right after the encoding of the k commands before it. */
  lemma EncodedAt(cmds: seq<RenderCommand>, k: nat, b: Bytes)
    requires k < |cmds| && EncodeAll(cmds) <= b
    ensures |EncodeAll(cmds[..k])| + cmds[k].Size() <= |b|
    ensures b[|EncodeAll(cmds[..k])|..|EncodeAll(cmds[..k])| + cmds[k].Size()] == Encode(cmds[k])
  {
    var pre := cmds[..k + 1];
    assert pre[..k] == cmds[..k];
    EncodeAllPrefix(cmds, k + 1);
    var e := EncodeAll(cmds[..k]);
    assert EncodeAll(pre) == e + Encode(cmds[k]);
    assert b[|e|..|e| + cmds[k].Size()] == EncodeAll(pre)[|e|..];
  }

  /** The encoding of the first k commands is that of the first k - 1 followed by the k-th. */
  lemma EncodeAllTake(cmds: seq<RenderCommand>, k: nat)
    requires 0 < k <= |cmds|
    ensures EncodeAll(cmds[..k]) == EncodeAll(cmds[..k - 1]) + Encode(cmds[k - 1])
    ensures cmds[..k] == cmds[..k - 1] + [cmds[k - 1]]
    ensures |EncodeAll(cmds[..k])| == |EncodeAll(cmds[..k - 1])| + cmds[k - 1].Size()
  {
    assert cmds[..k][..k - 1] == cmds[..k - 1];
  }

  /** The number of bytes a sequence of pushes occupies. */
  ghost function Span(cmds: seq<RenderCommand>): nat
  {
    if cmds == [] then 0 else Span(cmds[..|cmds| - 1]) + cmds[|cmds| - 1].Size()
  }

  /** Every command of `cmds` is stored in `b` right after the commands before it. */
  ghost predicate StoredInOrder(b: Bytes, cmds: seq<RenderCommand>)
    decreases |cmds|
  {
    cmds == [] ||
    var n := |cmds| - 1;
    && StoredInOrder(b, cmds[..n])
    && Span(cmds[..n]) + cmds[n].Size() <= |b|
    && b[Span(cmds[..n])..Span(cmds[..n]) + cmds[n].Size()] == Encode(cmds[n])
  }

  /** The tag and fields of every command of `cmds` can be read right after the commands before it. */
  ghost predicate FieldsInOrder(b: Bytes, cmds: seq<RenderCommand>)
    decreases |cmds|
  {
    cmds == [] ||
    var n := |cmds| - 1;
    FieldsInOrder(b, cmds[..n]) && FieldsAt(b, Span(cmds[..n]), cmds[n])
  }

  /** Every command of `cmds` decodes from `b` right after the commands before it. */
  ghost predicate DecodesInOrder(b: Bytes, cmds: seq<RenderCommand>)
    decreases |cmds|
  {
    cmds == [] ||
    var n := |cmds| - 1;
    && DecodesInOrder(b, cmds[..n])
    && DecodeAt(b, Span(cmds[..n])) == Some((cmds[n], Span(cmds[..n]) + cmds[n].Size()))
  }

  /** The encoding of a queue is exactly as long as its commands' sizes add up to. */
  lemma {:induction false} SpanIsLength(cmds: seq<RenderCommand>)
    ensures |EncodeAll(cmds)| == Span(cmds)
    decreases |cmds|
  {
    if cmds != [] {
      SpanIsLength(cmds[..|cmds| - 1]);
    }
  }

  /** Bytes that begin with the encoding of a queue store its commands in order. */
  lemma {:induction false} EncodedIsStored(b: Bytes, cmds: seq<RenderCommand>)
    requires EncodeAll(cmds) <= b
    ensures StoredInOrder(b, cmds)
    decreases |cmds|
  {
    if cmds != [] {
      var n := |cmds| - 1;
      EncodeAllPrefix(cmds, n);
      EncodedIsStored(b, cmds[..n]);
      EncodedAt(cmds, n, b);
      SpanIsLength(cmds[..n]);
    }
  }

  /** Commands stored in order have their fields where the switch reads them. */
  lemma {:induction false} StoredHasFields(b: Bytes, cmds: seq<RenderCommand>)
    requires StoredInOrder(b, cmds)
    ensures FieldsInOrder(b, cmds)
    decreases |cmds|
  {
    if cmds != [] {
      var n := |cmds| - 1;
      StoredHasFields(b, cmds[..n]);
      EncodedHasFields(b, Span(cmds[..n]), cmds[n]);
    }
  }

  /** Commands whose fields are in place decode in order. */
  lemma {:induction false} FieldsDecodeInOrder(b: Bytes, cmds: seq<RenderCommand>)
    requires FieldsInOrder(b, cmds)
    ensures DecodesInOrder(b, cmds)
    decreases |cmds|
  {
    if cmds != [] {
      var n := |cmds| - 1;
      FieldsDecodeInOrder(b, cmds[..n]);
      FieldsDecode(b, Span(cmds[..n]), cmds[n]);
    }
  }

  /** One more decoding step: if m - 1 commands decode up to `off` and a command decodes at `off`, m commands decode. */
  lemma DecodeAllSnoc(b: Bytes, m: nat, cs: seq<RenderCommand>, off: nat, c: RenderCommand, next: nat)
    requires 0 < m && DecodeAll(b, m - 1) == Some((cs, off)) && DecodeAt(b, off) == Some((c, next))
    ensures DecodeAll(b, m) == Some((cs + [c], next))
  {
  }

  /** Commands that decode in order are recovered by decoding as many of them, which stops after their last byte. */
  lemma {:induction false} DecodeInOrder(b: Bytes, cmds: seq<RenderCommand>)
    requires DecodesInOrder(b, cmds)
    ensures DecodeAll(b, |cmds|) == Some((cmds, Span(cmds)))
    decreases |cmds|
  {
    if cmds != [] {
      var n := |cmds| - 1;
      DecodeInOrder(b, cmds[..n]);
      assert cmds == cmds[..n] + [cmds[n]];
      DecodeAllSnoc(b, |cmds|, cmds[..n], Span(cmds[..n]), cmds[n], Span(cmds[..n]) + cmds[n].Size());
    }
  }

  /** Decoding as many commands as were encoded recovers them all and ends exactly at the end of their bytes. */
  lemma DecodeAllInvertsEncodeAll(b: Bytes, cmds: seq<RenderCommand>)
    requires EncodeAll(cmds) <= b
    ensures DecodeAll(b, |cmds|) == Some((cmds, |EncodeAll(cmds)|))
  {
    EncodedIsStored(b, cmds);
    StoredHasFields(b, cmds);
    FieldsDecodeInOrder(b, cmds);
    DecodeInOrder(b, cmds);
    SpanIsLength(cmds);
  }

  /** Recording one more command appends its encoding. */
  lemma EncodeAllSnoc(cmds: seq<RenderCommand>, c: RenderCommand)
    ensures EncodeAll(cmds + [c]) == EncodeAll(cmds) + Encode(c)
  {
    assert (cmds + [c])[..|cmds|] == cmds;
  }
}
