/** The RGBA canvas of the compositor as a flat byte sequence (row-major, four
    bytes R, G, B, A per pixel) and the specification of painting sprites on
    it: which pixels a sprite reaches after clipping, which mask byte lies
    under each of them, and the blended value each byte takes. */
module Canvas {
  import opened WrmsTypes
  import opened Blend
  import opened Arith

  /** The negation of the compositor's skip test: the sprite is painted at all. */
  predicate Drawn(sp: Sprite)
  {
    RgbaFromLibassColor(sp.color).a != 0 && sp.w > 0 && sp.h > 0 && sp.stride > 0
  }

  /** (px, py) lies in the visible part of the sprite:
      [max(x,0), min(x+w,width)) x [max(y,0), min(y+h,height)). */
  predicate InClip(sp: Sprite, width: int, height: int, px: int, py: int)
  {
    Max(sp.x as int, 0) <= px < Min(sp.x as int + sp.w as int, width)
    && Max(sp.y as int, 0) <= py < Min(sp.y as int + sp.h as int, height)
  }

  /** No pixel of the sprite lies on the canvas. */
  predicate ClipEmpty(sp: Sprite, width: int, height: int)
  {
    Min(sp.x as int + sp.w as int, width) <= Max(sp.x as int, 0)
    || Min(sp.y as int + sp.h as int, height) <= Max(sp.y as int, 0)
  }

  /** Index, inside the sprite's own bytes, of the mask byte under canvas pixel (px, py). */
  function MaskIndex(sp: Sprite, px: int, py: int): int
  {
    (py - sp.y as int) * sp.stride as int + (px - sp.x as int)
  }

  /** Length of the slice blob[offset : offset + stride * h] of a blob of
      `len` bytes, cut short at the blob's end as a memoryview slice is (the
      compositor slices only after its skip test, so the stop is never
      negative). The slice lies inside the blob, is never longer than
      stride * h, has exactly that length when the sprite's bytes fit, and
      is empty when the offset is at or past the end. */
  function SliceLen(sp: Sprite, len: nat): (n: nat)
    ensures Min(sp.offset as int, len) + n <= len
    ensures n <= Max(sp.stride as int * sp.h as int, 0)
    ensures 0 <= sp.stride as int * sp.h as int && sp.offset as int + sp.stride as int * sp.h as int <= len
            ==> n == sp.stride as int * sp.h as int
    ensures sp.offset as int >= len ==> n == 0
  {
    Max(Min(sp.offset as int + sp.stride as int * sp.h as int, len) - Min(sp.offset as int, len), 0)
  }

  /** Every mask byte the sprite's visible pixels read lies inside its slice. */
  ghost predicate ReadsInBounds(sp: Sprite, width: int, height: int, len: nat)
  {
    forall px, py :: InClip(sp, width, height, px, py) ==> 0 <= MaskIndex(sp, px, py) < SliceLen(sp, len)
  }

  /** The largest index a painted sprite reads: the bottom-right visible pixel's. */
  function LastMaskIndex(sp: Sprite, width: int, height: int): int
  {
    MaskIndex(sp, Min(sp.x as int + sp.w as int, width) - 1, Min(sp.y as int + sp.h as int, height) - 1)
  }

  /** The check the compositor can make: a painted, visible sprite whose last
      read lies inside its slice. */
  predicate SpriteFits(sp: Sprite, width: int, height: int, len: nat)
  {
    !Drawn(sp) || ClipEmpty(sp, width, height) || LastMaskIndex(sp, width, height) < SliceLen(sp, len)
  }

  /** The mask index of a visible pixel lies between 0 and the last one. */
  lemma MaskIndexBounds(sp: Sprite, width: int, height: int, px: int, py: int)
    requires sp.stride > 0 && InClip(sp, width, height, px, py)
    ensures 0 <= MaskIndex(sp, px, py) <= LastMaskIndex(sp, width, height)
  {
    var s, dy, ly := sp.stride as int, py - sp.y as int, Min(sp.y as int + sp.h as int, height) - 1 - sp.y as int;
    MulMonotone(s, dy, ly);
    MulMonotone(s, 0, dy);
    assert MaskIndex(sp, px, py) == dy * s + (px - sp.x as int);
    assert LastMaskIndex(sp, width, height) == ly * s + (Min(sp.x as int + sp.w as int, width) - 1 - sp.x as int);
  }

  /** A visible pixel that reads past `n` bytes puts the last read past them too. */
  lemma ReadPastEnd(sp: Sprite, width: int, height: int, px: int, py: int, n: int)
    requires sp.stride > 0 && InClip(sp, width, height, px, py) && MaskIndex(sp, px, py) >= n
    ensures LastMaskIndex(sp, width, height) >= n
  {
    MaskIndexBounds(sp, width, height, px, py);
  }

  /** Checking the last read is enough: it is the largest. */
  lemma SpriteFitsIff(sp: Sprite, width: int, height: int, len: nat)
    ensures SpriteFits(sp, width, height, len) <==> (Drawn(sp) ==> ReadsInBounds(sp, width, height, len))
  {
    if Drawn(sp) && !ClipEmpty(sp, width, height) {
      var lx, ly := Min(sp.x as int + sp.w as int, width) - 1, Min(sp.y as int + sp.h as int, height) - 1;
      assert InClip(sp, width, height, lx, ly);
      assert MaskIndex(sp, lx, ly) == LastMaskIndex(sp, width, height);
      if SpriteFits(sp, width, height, len) {
        forall px, py | InClip(sp, width, height, px, py)
          ensures 0 <= MaskIndex(sp, px, py) < SliceLen(sp, len)
        {
          MaskIndexBounds(sp, width, height, px, py);
        }
      }
    }
  }

  /** With rows no wider than the stride, every read of a visible sprite
      stays below stride * h. */
  lemma LastMaskIndexBelowBytes(sp: Sprite, width: int, height: int)
    requires sp.w <= sp.stride && 0 < sp.h && 0 < sp.stride && !ClipEmpty(sp, width, height)
    ensures LastMaskIndex(sp, width, height) < sp.stride as int * sp.h as int
  {
    var s, h := sp.stride as int, sp.h as int;
    var dx := Min(sp.x as int + sp.w as int, width) - 1 - sp.x as int;
    var dy := Min(sp.y as int + sp.h as int, height) - 1 - sp.y as int;
    MulMonotone(s, dy, h - 1);
    assert s * (h - 1) == s * h - s;
    assert LastMaskIndex(sp, width, height) == dy * s + dx;
  }

  /** A sprite laid out by the packer (its bytes inside the blob, rows no
      wider than the stride) passes the check on any canvas. */
  lemma PackedSpriteFits(sp: Sprite, width: int, height: int, len: nat)
    requires sp.offset as int + sp.stride as int * sp.h as int <= len
    requires sp.w <= sp.stride
    ensures SpriteFits(sp, width, height, len)
  {
    if Drawn(sp) && !ClipEmpty(sp, width, height) {
      assert 0 < sp.h && 0 < sp.stride;
      LastMaskIndexBelowBytes(sp, width, height);
      MulMonotone(sp.stride as int, 0, sp.h as int);
      assert SliceLen(sp, len) == sp.stride as int * sp.h as int;
    }
  }

  // ---- the flat index of a channel ----

  /** Position of channel c of pixel (px, py) in a canvas `width` pixels wide. */
  function ByteIndex(width: nat, px: nat, py: nat, c: nat): nat
  {
    (py * width + px) * 4 + c
  }

  function ColOf(width: nat, i: nat): nat
    requires width > 0
  {
    i / 4 % width
  }

  function RowOf(width: nat, i: nat): nat
    requires width > 0
  {
    i / 4 / width
  }

  function ChanOf(i: nat): nat
  {
    i % 4
  }

  /** The coordinates of a flat index are the pixel and channel it was built from. */
  lemma IndexCoords(width: nat, px: nat, py: nat, c: nat)
    requires px < width && c < 4
    ensures ColOf(width, ByteIndex(width, px, py, c)) == px
    ensures RowOf(width, ByteIndex(width, px, py, c)) == py
    ensures ChanOf(ByteIndex(width, px, py, c)) == c
  {
    var p := py * width + px;
    DivModUnique(ByteIndex(width, px, py, c), 4, p, c);
    DivModUnique(p, width, py, px);
  }

  /** Every flat index is built from its coordinates, and lies on a row of
      the canvas when it lies inside the canvas. */
  lemma CoordsIndex(width: nat, height: nat, i: nat)
    requires width > 0
    ensures ColOf(width, i) < width && ChanOf(i) < 4
    ensures ByteIndex(width, ColOf(width, i), RowOf(width, i), ChanOf(i)) == i
    ensures i < width * height * 4 ==> RowOf(width, i) < height
  {
    var p := i / 4;
    assert i == p * 4 + i % 4;
    assert p == (p / width) * width + p % width;
    if i < width * height * 4 && RowOf(width, i) >= height {
      MulMonotone(width, height, p / width);
      assert false;
    }
  }

  // ---- painting ----

  /** The mask byte under visible pixel (px, py). */
  function MaskAt(sp: Sprite, bm: seq<byte>, width: int, height: int, px: int, py: int): byte
    requires InClip(sp, width, height, px, py) && ReadsInBounds(sp, width, height, |bm|)
  {
    assert MaskIndex(sp, px, py) < SliceLen(sp, |bm|);
    bm[sp.offset as int + MaskIndex(sp, px, py)]
  }

  /** Byte i of the canvas after painting sprite `sp`: outside the visible
      rectangle it is unchanged; inside, with the texel opacity
      a = a0 * m / 255, channels R, G, B become (c*a + d*(255-a)) / 255 and A
      becomes a + da*(255-a) / 255 (each division rounded). */
  function PaintedByte(canvas: seq<byte>, width: nat, height: nat, sp: Sprite, bm: seq<byte>, i: nat): byte
    requires width > 0 && i < |canvas|
    requires ReadsInBounds(sp, width, height, |bm|)
  {
    var px, py := ColOf(width, i), RowOf(width, i);
    if !InClip(sp, width, height, px, py) then canvas[i]
    else
      var col := RgbaFromLibassColor(sp.color);
      var a := TexelAlpha(col.a, MaskAt(sp, bm, width, height, px, py));
      match ChanOf(i)
      case 0 => BlendChannel(col.r, a, canvas[i])
      case 1 => BlendChannel(col.g, a, canvas[i])
      case 2 => BlendChannel(col.b, a, canvas[i])
      case _ => BlendAlpha(a, canvas[i])
  }

  /** The canvas after compositing one sprite. Only bytes of visible pixels
      of a painted sprite can change. */
  function SpritePainted(canvas: seq<byte>, width: nat, height: nat, sp: Sprite, bm: seq<byte>): (r: seq<byte>)
    requires |canvas| == width * height * 4
    requires Drawn(sp) ==> ReadsInBounds(sp, width, height, |bm|)
    ensures |r| == |canvas|
    ensures forall i :: 0 <= i < |r| && r[i] != canvas[i] ==>
              Drawn(sp) && width > 0 && InClip(sp, width, height, ColOf(width, i), RowOf(width, i))
  {
    if !Drawn(sp) || width == 0 then canvas
    else seq(|canvas|, i requires 0 <= i < |canvas| => PaintedByte(canvas, width, height, sp, bm, i))
  }

  /** Every sprite of the list either is skipped or reads inside its slice. */
  ghost predicate AllReadsInBounds(sprites: seq<Sprite>, width: int, height: int, len: nat)
  {
    forall j :: 0 <= j < |sprites| ==> (Drawn(sprites[j]) ==> ReadsInBounds(sprites[j], width, height, len))
  }

  /** The canvas after compositing the sprites in list order, first to last. */
  function Composited(canvas: seq<byte>, width: nat, height: nat, sprites: seq<Sprite>, bm: seq<byte>): (r: seq<byte>)
    requires |canvas| == width * height * 4
    requires AllReadsInBounds(sprites, width, height, |bm|)
    ensures |r| == |canvas|
  {
    if |sprites| == 0 then canvas
    else
      var init := sprites[..|sprites| - 1];
      assert AllReadsInBounds(init, width, height, |bm|) by {
        forall j | 0 <= j < |init| ensures Drawn(init[j]) ==> ReadsInBounds(init[j], width, height, |bm|) {
          assert init[j] == sprites[j];
        }
      }
      SpritePainted(Composited(canvas, width, height, init, bm), width, height, sprites[|sprites| - 1], bm)
  }

  /** The fresh canvas: width * height * 4 zero bytes, fully transparent. */
  function Blank(width: nat, height: nat): (r: seq<byte>)
    ensures |r| == width * height * 4
    ensures forall i :: 0 <= i < |r| ==> r[i] == 0
  {
    seq(width * height * 4, _ => 0)
  }

  // ---- properties ----

  /** A sprite with no pixel on the canvas leaves it byte for byte unchanged. */
  lemma OffCanvasIsNoOp(canvas: seq<byte>, width: nat, height: nat, sp: Sprite, bm: seq<byte>)
    requires |canvas| == width * height * 4
    requires Drawn(sp) ==> ReadsInBounds(sp, width, height, |bm|)
    requires ClipEmpty(sp, width, height)
    ensures SpritePainted(canvas, width, height, sp, bm) == canvas
  {
    var r := SpritePainted(canvas, width, height, sp, bm);
    forall i | 0 <= i < |r| ensures r[i] == canvas[i] { }
  }

  /** Every byte of every pixel of the canvas lies inside it. */
  lemma PixelInCanvas(width: nat, height: nat, px: nat, py: nat, c: nat)
    requires px < width && py < height && c < 4
    ensures ByteIndex(width, px, py, c) < width * height * 4
  {
    MulMonotone(width, py, height - 1);
    assert py * width + px < width * height;
  }

  /** Channel c of pixel (px, py) after painting a sprite that reaches it. */
  lemma PaintedPixel(canvas: seq<byte>, width: nat, height: nat, sp: Sprite, bm: seq<byte>, px: nat, py: nat, c: nat)
    requires |canvas| == width * height * 4
    requires Drawn(sp) && ReadsInBounds(sp, width, height, |bm|)
    requires InClip(sp, width, height, px, py) && c < 4
    ensures ByteIndex(width, px, py, c) < |canvas|
    ensures var i, col := ByteIndex(width, px, py, c), RgbaFromLibassColor(sp.color);
      var a := TexelAlpha(col.a, MaskAt(sp, bm, width, height, px, py));
      SpritePainted(canvas, width, height, sp, bm)[i]
        == if c == 0 then BlendChannel(col.r, a, canvas[i])
           else if c == 1 then BlendChannel(col.g, a, canvas[i])
           else if c == 2 then BlendChannel(col.b, a, canvas[i])
           else BlendAlpha(a, canvas[i])
  {
    var i := ByteIndex(width, px, py, c);
    PixelInCanvas(width, height, px, py, c);
    IndexCoords(width, px, py, c);
    assert SpritePainted(canvas, width, height, sp, bm)[i] == PaintedByte(canvas, width, height, sp, bm, i);
  }

  /** A texel whose mask byte is 0 leaves its pixel unchanged. */
  lemma ZeroMaskLeavesPixel(canvas: seq<byte>, width: nat, height: nat, sp: Sprite, bm: seq<byte>, px: nat, py: nat, c: nat)
    requires |canvas| == width * height * 4
    requires Drawn(sp) && ReadsInBounds(sp, width, height, |bm|)
    requires InClip(sp, width, height, px, py) && c < 4
    requires MaskAt(sp, bm, width, height, px, py) == 0
    ensures ByteIndex(width, px, py, c) < |canvas|
    ensures SpritePainted(canvas, width, height, sp, bm)[ByteIndex(width, px, py, c)] == canvas[ByteIndex(width, px, py, c)]
  {
    PaintedPixel(canvas, width, height, sp, bm, px, py, c);
  }

  /** A fully opaque sprite (a0 = 255) over a full-coverage texel (m = 255)
      sets the pixel to exactly (r, g, b, 255), whatever was there. */
  lemma OpaqueTexelSetsColour(canvas: seq<byte>, width: nat, height: nat, sp: Sprite, bm: seq<byte>, px: nat, py: nat, c: nat)
    requires |canvas| == width * height * 4
    requires Drawn(sp) && ReadsInBounds(sp, width, height, |bm|)
    requires InClip(sp, width, height, px, py) && c < 4
    requires RgbaFromLibassColor(sp.color).a == 255 && MaskAt(sp, bm, width, height, px, py) == 255
    ensures ByteIndex(width, px, py, c) < |canvas|
    ensures SpritePainted(canvas, width, height, sp, bm)[ByteIndex(width, px, py, c)]
              == ChannelOf(RgbaFromLibassColor(sp.color), c)
  {
    PaintedPixel(canvas, width, height, sp, bm, px, py, c);
  }

  /** Channel c of a decoded colour, with the opacity as channel 3. */
  function ChannelOf(col: Rgba, c: nat): byte
  {
    if c == 0 then col.r else if c == 1 then col.g else if c == 2 then col.b else col.a
  }

  /** The sprite does not change pixel (px, py): it is skipped, does not reach
      the pixel, or has a zero mask byte there. */
  predicate Misses(sp: Sprite, bm: seq<byte>, width: int, height: int, px: int, py: int)
    requires Drawn(sp) ==> ReadsInBounds(sp, width, height, |bm|)
  {
    !Drawn(sp) || !InClip(sp, width, height, px, py) || MaskAt(sp, bm, width, height, px, py) == 0
  }

  /** A sprite that misses a pixel leaves all four of its bytes unchanged. */
  lemma MissLeavesPixel(canvas: seq<byte>, width: nat, height: nat, sp: Sprite, bm: seq<byte>, px: nat, py: nat, c: nat)
    requires |canvas| == width * height * 4
    requires Drawn(sp) ==> ReadsInBounds(sp, width, height, |bm|)
    requires px < width && py < height && c < 4
    requires Misses(sp, bm, width, height, px, py)
    ensures ByteIndex(width, px, py, c) < |canvas|
    ensures SpritePainted(canvas, width, height, sp, bm)[ByteIndex(width, px, py, c)] == canvas[ByteIndex(width, px, py, c)]
  {
    PixelInCanvas(width, height, px, py, c);
    IndexCoords(width, px, py, c);
    if Drawn(sp) && InClip(sp, width, height, px, py) {
      ZeroMaskLeavesPixel(canvas, width, height, sp, bm, px, py, c);
    }
  }

  /** A pixel that every sprite of the list misses keeps its bytes through
      the whole compositing; on the blank canvas it stays transparent black. */
  lemma {:induction false} UntouchedPixelKept(canvas: seq<byte>, width: nat, height: nat, sprites: seq<Sprite>,
                                              bm: seq<byte>, px: nat, py: nat, c: nat)
    requires |canvas| == width * height * 4
    requires AllReadsInBounds(sprites, width, height, |bm|)
    requires px < width && py < height && c < 4
    requires forall k :: 0 <= k < |sprites| ==> Misses(sprites[k], bm, width, height, px, py)
    ensures ByteIndex(width, px, py, c) < |canvas|
    ensures Composited(canvas, width, height, sprites, bm)[ByteIndex(width, px, py, c)] == canvas[ByteIndex(width, px, py, c)]
  {
    PixelInCanvas(width, height, px, py, c);
    if |sprites| > 0 {
      var init, last := sprites[..|sprites| - 1], sprites[|sprites| - 1];
      assert AllReadsInBounds(init, width, height, |bm|) by {
        forall k | 0 <= k < |init| ensures Drawn(init[k]) ==> ReadsInBounds(init[k], width, height, |bm|) {
          assert init[k] == sprites[k];
        }
      }
      assert forall k :: 0 <= k < |init| ==> init[k] == sprites[k];
      UntouchedPixelKept(canvas, width, height, init, bm, px, py, c);
      MissLeavesPixel(Composited(canvas, width, height, init, bm), width, height, last, bm, px, py, c);
    }
  }

  /** Compositing is in list order: when sprite j paints pixel (px, py) fully
      opaque and every later sprite misses it, the pixel ends up exactly
      sprite j's colour with opacity 255, whatever earlier sprites did. */
  lemma {:induction false} LastOpaqueSpriteWins(canvas: seq<byte>, width: nat, height: nat, sprites: seq<Sprite>,
                                                bm: seq<byte>, j: nat, px: nat, py: nat, c: nat)
    requires |canvas| == width * height * 4
    requires AllReadsInBounds(sprites, width, height, |bm|)
    requires j < |sprites| && c < 4
    requires Drawn(sprites[j]) && InClip(sprites[j], width, height, px, py)
    requires RgbaFromLibassColor(sprites[j].color).a == 255 && MaskAt(sprites[j], bm, width, height, px, py) == 255
    requires forall k :: j < k < |sprites| ==> Misses(sprites[k], bm, width, height, px, py)
    ensures ByteIndex(width, px, py, c) < |canvas|
    ensures Composited(canvas, width, height, sprites, bm)[ByteIndex(width, px, py, c)]
              == ChannelOf(RgbaFromLibassColor(sprites[j].color), c)
  {
    var init, last := sprites[..|sprites| - 1], sprites[|sprites| - 1];
    assert AllReadsInBounds(init, width, height, |bm|) by {
      forall k | 0 <= k < |init| ensures Drawn(init[k]) ==> ReadsInBounds(init[k], width, height, |bm|) {
        assert init[k] == sprites[k];
      }
    }
    var before := Composited(canvas, width, height, init, bm);
    if j == |sprites| - 1 {
      OpaqueTexelSetsColour(before, width, height, last, bm, px, py, c);
    } else {
      LastOpaqueSpriteWins(canvas, width, height, init, bm, j, px, py, c);
      MissLeavesPixel(before, width, height, last, bm, px, py, c);
    }
  }
}
