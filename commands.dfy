// The render-command vocabulary: discriminants, payload types and the
// tag-plus-payload record every recorded command is stored as.

module Commands {
  import opened Types
  import opened Wrappers
  import opened Coloring
  import opened Geom

  /** Bytes per pixel of the surface (BMR_BPP). */
  const BPP: nat := 4

  /** Size in bytes of each part of an encoded command. */
  const TAG_SIZE: nat := 4       // enum class with underlying type int
  const RECT_SIZE: nat := 8      // four U16 fields
  const VEC2U_SIZE: nat := 8     // two U32 fields

  datatype RenderCommandType = NOP | CLEAR | LINE | RECT | GRADIENT
  {
    /** The stable discriminant written into the command queue. */
    function Value(): int
    {
      match this
      case NOP => 0
      case CLEAR => 1
      case LINE => 10
      case RECT => 11
      case GRADIENT => 20
    }
  }

  /** The enumerator a stored discriminant names, if any. */
  function TypeOfValue(v: int): (t: Option<RenderCommandType>)
    ensures t.Some? ==> t.value.Value() == v
    ensures t.None? ==> v !in {0, 1, 10, 11, 20}
  {
    if v == 0 then Some(NOP)
    else if v == 1 then Some(CLEAR)
    else if v == 10 then Some(LINE)
    else if v == 11 then Some(RECT)
    else if v == 20 then Some(GRADIENT)
    else None
  }

  /** Distinct enumerators have distinct discriminants, each recovered by TypeOfValue. */
  lemma DiscriminantsAreExact(s: RenderCommandType, t: RenderCommandType)
    ensures TypeOfValue(t.Value()) == Some(t)
    ensures s.Value() == t.Value() ==> s == t
    ensures 0 <= t.Value() <= MAX_U32
  {
  }

  /** Two unsigned 32-bit components: the gradient's animation offset. */
  datatype Vec2u = Vec2u(X: U32, Y: U32)

  /**
   * A recorded command: the constructor fixes the discriminant and holds the
   * payload that follows it.  CLEAR carries a colour, RECT a rectangle and a
   * colour, GRADIENT an offset.  NOP and LINE carry nothing: both fall to
   * the rasterizer's default case, which consumes no payload after the tag.
   */
  datatype RenderCommand =
    | NopCmd
    | ClearCmd(color: Color4)
    | LineCmd
    | RectCmd(rect: Rect, color: Color4)
    | GradientCmd(offset: Vec2u)
  {
    function Type(): RenderCommandType
    {
      match this
      case NopCmd => NOP
      case ClearCmd(_) => CLEAR
      case LineCmd => LINE
      case RectCmd(_, _) => RECT
      case GradientCmd(_) => GRADIENT
    }

    /** sizeof(T) of the payload type. */
    function PayloadSize(): nat
    {
      match this
      case ClearCmd(_) => COLOR4_SIZE
      case RectCmd(_, _) => RECT_SIZE + COLOR4_SIZE
      case GradientCmd(_) => VEC2U_SIZE
      case NopCmd | LineCmd => 0
    }

    /** sizeof(RenderCommand<T>): the tag followed by the payload, with no padding. */
    function Size(): nat
    {
      TAG_SIZE + PayloadSize()
    }
  }

  /** The payload sizes of the three recorded kinds: 8, 16 and 12 bytes in all. */
  lemma CommandSizes(k: Color4, r: Rect, v: Vec2u)
    ensures ClearCmd(k).Size() == 8 && RectCmd(r, k).Size() == 16 && GradientCmd(v).Size() == 12
    ensures NopCmd.Size() == TAG_SIZE && LineCmd.Size() == TAG_SIZE
  {
  }
}
