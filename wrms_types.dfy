/** Value types shared by the native frame packer (wrms_libass.h) and the
    Python compositor that reads its output through a ctypes mirror. */
module WrmsTypes {

  /** One unsigned 8-bit value: a mask byte or one RGBA channel. */
  newtype byte = x: int | 0 <= x < 0x100

  /** C `int` on the targets the library is built for. */
  type int32 = x: int | -0x8000_0000 <= x < 0x8000_0000

  /** C `uint32_t`. */
  type uint32 = x: int | 0 <= x < 0x1_0000_0000

  const UINT32_MODULUS: int := 0x1_0000_0000

  /** A C pointer that may be null: None is the null pointer, Some(v) points at v. */
  datatype Option<T> = None | Some(value: T)

  /** wrms_sprite_t: one positioned A8 mask, its packed libass colour and the
      byte offset of its first row inside the frame's shared bitmap blob. */
  datatype Sprite = Sprite(x: int32, y: int32, w: int32, h: int32, stride: int32, color: uint32, offset: uint32)

  /** wrms_frame_t: the sprite array and the bitmap blob (None for a null
      pointer) with their element counts. */
  datatype FrameRecord = FrameRecord(sprites: Option<seq<Sprite>>, spritesLen: nat,
                                     bitmaps: Option<seq<byte>>, bitmapsLen: nat)

  /** A frame whose lengths describe its arrays, as wrms_render_a8 leaves it. */
  predicate Consistent(f: FrameRecord)
  {
    (f.sprites.Some? ==> |f.sprites.value| == f.spritesLen)
    && (f.bitmaps.Some? ==> |f.bitmaps.value| == f.bitmapsLen)
  }

  /** The frame frame_zero leaves behind: both pointers null, both counts 0. */
  const ZeroFrame: FrameRecord := FrameRecord(None, 0, None, 0)

  function Min(a: int, b: int): int { if a <= b then a else b }
  function Max(a: int, b: int): int { if a <= b then b else a }
}
