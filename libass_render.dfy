/** The Python compositor (render_frame_to_webp): it asks the native packer
    for a frame, paints every sprite of it into a zeroed RGBA byte buffer in
    place, and always releases the frame. The WebP encoding that follows is
    not modelled: the result is the RGBA buffer itself. */
module LibassRender {
  import opened WrmsTypes
  import opened Arith
  import opened Blend
  import opened Canvas
  import opened WrmsPack
  import opened WrmsLibass

  /** What a render yields: no image, the RGBA bytes, the IndexError a read
      outside a sprite's slice of the blob raises, or the NotImplementedError
      a memoryview raises when asked for an item of a format it cannot unpack
      (only the as-written reading of the mask bytes below yields that one). */
  datatype RenderResult = NoImage | Image(rgba: seq<byte>) | IndexError | UnsupportedFormat

  /** Every pixel before (row, col) in row-major order has been visited. */
  ghost predicate Visited(width: nat, i: nat, row: int, col: int)
    requires width > 0
  {
    RowOf(width, i) < row || (RowOf(width, i) == row && ColOf(width, i) < col)
  }

  /** The canvas `o` holds the target value at every visited byte and the
      original value everywhere else. */
  ghost predicate Progress(o: seq<byte>, before: seq<byte>, target: seq<byte>, width: nat, row: int, col: int)
    requires width > 0 && |o| == |before| == |target|
  {
    forall i :: 0 <= i < |o| ==> o[i] == if Visited(width, i, row, col) then target[i] else before[i]
  }

  /** Painting a sprite that passed the check, on a non-empty canvas. */
  ghost predicate Painting(before: seq<byte>, target: seq<byte>, width: nat, height: nat, sp: Sprite, bm: seq<byte>)
  {
    width > 0 && |before| == width * height * 4 && Drawn(sp) && ReadsInBounds(sp, width, height, |bm|)
    && target == SpritePainted(before, width, height, sp, bm)
  }

  /** Nothing before the top-left visible pixel changes, so the untouched
      canvas is the starting point. */
  lemma StartProgress(before: seq<byte>, target: seq<byte>, width: nat, height: nat, sp: Sprite, bm: seq<byte>)
    requires Painting(before, target, width, height, sp, bm)
    ensures Progress(before, before, target, width, Max(sp.y as int, 0), Max(sp.x as int, 0))
  {
  }

  /** At the end of a visible row, the rest of that row and the start of the
      next lie outside the sprite and keep their values. */
  lemma RowStep(o: seq<byte>, before: seq<byte>, target: seq<byte>, width: nat, height: nat, sp: Sprite, bm: seq<byte>, row: int)
    requires Painting(before, target, width, height, sp, bm) && |o| == |before|
    requires Progress(o, before, target, width, row, Min(sp.x as int + sp.w as int, width))
    ensures Progress(o, before, target, width, row + 1, Max(sp.x as int, 0))
  {
  }

  /** Once every visible row is done, the canvas is the target. */
  lemma FinishProgress(o: seq<byte>, before: seq<byte>, target: seq<byte>, width: nat, height: nat, sp: Sprite, bm: seq<byte>)
    requires Painting(before, target, width, height, sp, bm) && |o| == |before|
    requires Progress(o, before, target, width, Min(sp.y as int + sp.h as int, height), Max(sp.x as int, 0))
    ensures o == target
  {
    forall i | 0 <= i < |o| ensures o[i] == target[i] { }
  }

  /** The four values written for visible pixel (px, py) are its target bytes. */
  lemma TexelTarget(o: seq<byte>, before: seq<byte>, target: seq<byte>, width: nat, height: nat, sp: Sprite, bm: seq<byte>,
                    px: nat, py: nat, c: nat)
    requires Painting(before, target, width, height, sp, bm) && |o| == |before|
    requires InClip(sp, width, height, px, py) && c < 4
    requires Progress(o, before, target, width, py, px)
    ensures ByteIndex(width, px, py, c) < |o|
    ensures var i, col := ByteIndex(width, px, py, c), RgbaFromLibassColor(sp.color);
      var m := MaskAt(sp, bm, width, height, px, py);
      var a := TexelAlpha(col.a, m);
      target[i] == if m == 0 then o[i]
                   else if c == 0 then BlendChannel(col.r, a, o[i])
                   else if c == 1 then BlendChannel(col.g, a, o[i])
                   else if c == 2 then BlendChannel(col.b, a, o[i])
                   else BlendAlpha(a, o[i])
  {
    IndexCoords(width, px, py, c);
    PaintedPixel(before, width, height, sp, bm, px, py, c);
  }

  /** Writing the four target bytes of pixel (px, py) advances the progress by one pixel. */
  lemma TexelStep(o: seq<byte>, o': seq<byte>, before: seq<byte>, target: seq<byte>, width: nat, height: nat,
                  px: nat, py: nat)
    requires width > 0 && px < width && |o| == |o'| == |before| == |target| == width * height * 4
    requires Progress(o, before, target, width, py, px)
    requires var d := ByteIndex(width, px, py, 0);
      d + 3 < |o| && o' == o[d := target[d]][d + 1 := target[d + 1]][d + 2 := target[d + 2]][d + 3 := target[d + 3]]
    ensures Progress(o', before, target, width, py, px + 1)
  {
    forall i | 0 <= i < |o| ensures o'[i] == if Visited(width, i, py, px + 1) then target[i] else before[i] {
      CoordsIndex(width, height, i);
      if ByteIndex(width, px, py, 0) <= i < ByteIndex(width, px, py, 0) + 4 {
        IndexCoords(width, px, py, i - ByteIndex(width, px, py, 0));
      }
    }
  }

  /** The facts the clipping establishes about a painted sprite: the slice
      of the blob it reads, and the visible rectangle
      [dx0, dx0 + dw) x [dy0, dy0 + dh) with its source-space origin (sx0, sy0). */
  ghost predicate Clipped(width: nat, height: nat, sp: Sprite, bm: seq<byte>, sprite: seq<byte>,
                          sx0: int, sy0: int, dx0: int, dy0: int, dw: int, dh: int)
  {
    width > 0 && Drawn(sp)
    && |sprite| == SliceLen(sp, |bm|)
    && (forall k :: 0 <= k < |sprite| ==> sprite[k] == bm[sp.offset as int + k])
    && dw > 0 && dh > 0
    && dx0 == Max(sp.x as int, 0) && dx0 + dw == Min(sp.x as int + sp.w as int, width)
    && dy0 == Max(sp.y as int, 0) && dy0 + dh == Min(sp.y as int + sp.h as int, height)
    && dx0 - sx0 == sp.x as int && dy0 - sy0 == sp.y as int
  }

  /** The target bytes of visible pixel (px, py), whose mask byte is m: the
      blend of the sprite colour over the current bytes, or the current bytes
      when m is 0. */
  lemma PixelTarget(o: seq<byte>, before: seq<byte>, target: seq<byte>, width: nat, height: nat, sp: Sprite, bm: seq<byte>,
                    px: nat, py: nat, m: byte)
    requires Painting(before, target, width, height, sp, bm) && |o| == |before|
    requires InClip(sp, width, height, px, py) && Progress(o, before, target, width, py, px)
    requires 0 <= sp.offset as int + MaskIndex(sp, px, py) < |bm| && m == bm[sp.offset as int + MaskIndex(sp, px, py)]
    ensures var d, col := ByteIndex(width, px, py, 0), RgbaFromLibassColor(sp.color);
      var a := TexelAlpha(col.a, m);
      d + 3 < |o|
      && (m == 0 ==> target[d] == o[d] && target[d + 1] == o[d + 1] && target[d + 2] == o[d + 2] && target[d + 3] == o[d + 3])
      && (m != 0 ==> target[d] == BlendChannel(col.r, a, o[d]) && target[d + 1] == BlendChannel(col.g, a, o[d + 1])
                     && target[d + 2] == BlendChannel(col.b, a, o[d + 2]) && target[d + 3] == BlendAlpha(a, o[d + 3]))
  {
    assert m == MaskAt(sp, bm, width, height, px, py);
    TexelTarget(o, before, target, width, height, sp, bm, px, py, 0);
    TexelTarget(o, before, target, width, height, sp, bm, px, py, 1);
    TexelTarget(o, before, target, width, height, sp, bm, px, py, 2);
    TexelTarget(o, before, target, width, height, sp, bm, px, py, 3);
    assert ByteIndex(width, px, py, 1) == ByteIndex(width, px, py, 0) + 1;
    assert ByteIndex(width, px, py, 2) == ByteIndex(width, px, py, 0) + 2;
    assert ByteIndex(width, px, py, 3) == ByteIndex(width, px, py, 0) + 3;
  }

  /** The blend of one mask texel `m` into the RGBA pixel at byte `di` (the
      body of the `for xx` loop once the mask byte is read). */
  method BlendTexel(out: array<byte>, width: nat, height: nat, sp: Sprite, bm: seq<byte>, m: byte, di: int,
                    ghost px: nat, ghost py: nat, ghost fits: bool, ghost before: seq<byte>, ghost target: seq<byte>)
    requires out.Length == width * height * 4 && width > 0
    requires InClip(sp, width, height, px, py) && di == ByteIndex(width, px, py, 0)
    requires 0 <= sp.offset as int + MaskIndex(sp, px, py) < |bm| && m == bm[sp.offset as int + MaskIndex(sp, px, py)]
    requires fits ==> Painting(before, target, width, height, sp, bm)
                      && Progress(out[..], before, target, width, py, px)
    modifies out
    ensures fits ==> Progress(out[..], before, target, width, py, px + 1)
  {
    PixelInCanvas(width, height, px, py, 3);
    ghost var o := out[..];
    if fits {
      PixelTarget(o, before, target, width, height, sp, bm, px, py, m);
    }
    if m != 0 {
      var col := RgbaFromLibassColor(sp.color);
      var a := TexelAlpha(col.a, m);
      var dr, dg, db, da := out[di + 0], out[di + 1], out[di + 2], out[di + 3];
      out[di + 0] := BlendChannel(col.r, a, dr);
      out[di + 1] := BlendChannel(col.g, a, dg);
      out[di + 2] := BlendChannel(col.b, a, db);
      out[di + 3] := BlendAlpha(a, da);
    }
    if fits {
      assert out[..] == o[di := target[di]][di + 1 := target[di + 1]][di + 2 := target[di + 2]][di + 3 := target[di + 3]];
      TexelStep(o, out[..], before, target, width, height, px, py);
    }
  }

  /** One visible row of the blend (the `for xx` loop). `ok` is false when a
      mask read leaves the slice. */
  method BlendRow(out: array<byte>, width: nat, height: nat, sp: Sprite, bm: seq<byte>, sprite: seq<byte>,
                  sx0: int, sy0: int, dx0: int, dy0: int, dw: int, dh: int, yy: int,
                  ghost fits: bool, ghost before: seq<byte>, ghost target: seq<byte>) returns (ok: bool)
    requires out.Length == width * height * 4
    requires Clipped(width, height, sp, bm, sprite, sx0, sy0, dx0, dy0, dw, dh) && 0 <= yy < dh
    requires fits ==> Painting(before, target, width, height, sp, bm)
                      && Progress(out[..], before, target, width, dy0 + yy, dx0)
    modifies out
    ensures ok ==> MaskIndex(sp, dx0 + dw - 1, dy0 + yy) < |sprite|
    ensures !ok ==> LastMaskIndex(sp, width, height) >= |sprite|
    ensures ok && fits ==> Progress(out[..], before, target, width, dy0 + yy, dx0 + dw)
  {
    ghost var py := dy0 + yy;
    var srcRow := (sy0 + yy) * sp.stride as int + sx0;
    var dstRow := (dy0 + yy) * width * 4 + dx0 * 4;
    assert srcRow == MaskIndex(sp, dx0, py);
    assert dstRow == ByteIndex(width, dx0, py, 0);
    var xx := 0;
    while xx < dw
      invariant 0 <= xx <= dw
      invariant xx > 0 ==> MaskIndex(sp, dx0 + xx - 1, py) < |sprite|
      invariant fits ==> Progress(out[..], before, target, width, py, dx0 + xx)
    {
      ghost var px := dx0 + xx;
      assert InClip(sp, width, height, px, py);
      assert srcRow + xx == MaskIndex(sp, px, py);
      MaskIndexBounds(sp, width, height, px, py);
      if srcRow + xx >= |sprite| {
        // the memoryview raises IndexError
        ReadPastEnd(sp, width, height, px, py, |sprite|);
        return false;
      }
      var m := sprite[srcRow + xx];
      var di := dstRow + xx * 4;
      assert di == ByteIndex(width, px, py, 0);
      assert m == bm[sp.offset as int + MaskIndex(sp, px, py)];
      BlendTexel(out, width, height, sp, bm, m, di, px, py, fits, before, target);
      xx := xx + 1;
    }
    return true;
  }

  /** The blend of one sprite into `out`, in place. `ok` is false when a mask
      read falls outside the sprite's slice (the IndexError of the source;
      `out` is then partly painted and of no further interest). */
  method CompositeSprite(out: array<byte>, width: nat, height: nat, sp: Sprite, bm: seq<byte>) returns (ok: bool)
    requires out.Length == width * height * 4
    modifies out
    ensures ok == SpriteFits(sp, width, height, |bm|)
    ensures ok ==> (Drawn(sp) ==> ReadsInBounds(sp, width, height, |bm|))
                   && out[..] == SpritePainted(old(out[..]), width, height, sp, bm)
  {
    var col := RgbaFromLibassColor(sp.color);
    var a0 := col.a;
    var w, h, stride, off := sp.w as int, sp.h as int, sp.stride as int, sp.offset as int;
    if a0 == 0 || w <= 0 || h <= 0 || stride <= 0 {
      return true;
    }
    var n := stride * h;
    MulMonotone(stride, 1, h);
    var sprite := bm[Min(off, |bm|) .. Min(off + n, |bm|)];
    assert |sprite| == SliceLen(sp, |bm|);

    // clip
    var sx0, sy0, dx0, dy0 := 0, 0, sp.x as int, sp.y as int;
    if dx0 < 0 {
      sx0 := -dx0;
      dx0 := 0;
    }
    if dy0 < 0 {
      sy0 := -dy0;
      dy0 := 0;
    }
    var dw, dh := w - sx0, h - sy0;
    if dx0 + dw > width {
      dw := width - dx0;
    }
    if dy0 + dh > height {
      dh := height - dy0;
    }
    if dw <= 0 || dh <= 0 {
      assert ClipEmpty(sp, width, height);
      OffCanvasIsNoOp(old(out[..]), width, height, sp, bm);
      SpriteFitsIff(sp, width, height, |bm|);
      return true;
    }
    assert forall k :: 0 <= k < |sprite| ==> sprite[k] == bm[off + k];
    assert dx0 == Max(sp.x as int, 0) && dx0 + dw == Min(sp.x as int + w, width);
    assert dy0 == Max(sp.y as int, 0) && dy0 + dh == Min(sp.y as int + h, height);
    assert Clipped(width, height, sp, bm, sprite, sx0, sy0, dx0, dy0, dw, dh);
    ok := BlendRows(out, width, height, sp, bm, sprite, sx0, sy0, dx0, dy0, dw, dh);
  }

  /** The visible rows of the blend, top to bottom (the `for yy` loop). */
  method BlendRows(out: array<byte>, width: nat, height: nat, sp: Sprite, bm: seq<byte>, sprite: seq<byte>,
                   sx0: int, sy0: int, dx0: int, dy0: int, dw: int, dh: int) returns (ok: bool)
    requires out.Length == width * height * 4
    requires Clipped(width, height, sp, bm, sprite, sx0, sy0, dx0, dy0, dw, dh)
    modifies out
    ensures ok == SpriteFits(sp, width, height, |bm|)
    ensures ok ==> ReadsInBounds(sp, width, height, |bm|)
                   && out[..] == SpritePainted(old(out[..]), width, height, sp, bm)
  {
    SpriteFitsIff(sp, width, height, |bm|);
    assert LastMaskIndex(sp, width, height) == MaskIndex(sp, dx0 + dw - 1, dy0 + dh - 1);
    ghost var fits := SpriteFits(sp, width, height, |bm|);
    ghost var before := out[..];
    ghost var target := if fits then SpritePainted(before, width, height, sp, bm) else before;
    if fits {
      StartProgress(before, target, width, height, sp, bm);
    }
    var yy := 0;
    while yy < dh
      invariant 0 <= yy <= dh
      invariant yy > 0 ==> MaskIndex(sp, dx0 + dw - 1, dy0 + yy - 1) < |sprite|
      invariant fits ==> Progress(out[..], before, target, width, dy0 + yy, dx0)
    {
      var rowOk := BlendRow(out, width, height, sp, bm, sprite, sx0, sy0, dx0, dy0, dw, dh, yy, fits, before, target);
      if !rowOk {
        return false;
      }
      if fits {
        RowStep(out[..], before, target, width, height, sp, bm, dy0 + yy);
      }
      yy := yy + 1;
    }
    assert fits;
    FinishProgress(out[..], before, target, width, height, sp, bm);
    return true;
  }

  // ---- the frame ----

  /** Every sprite of the list either is skipped or has its last read inside its slice. */
  predicate AllFit(sprites: seq<Sprite>, width: int, height: int, len: nat)
  {
    forall j :: 0 <= j < |sprites| ==> SpriteFits(sprites[j], width, height, len)
  }

  /** Sprites that all pass the check read inside their slices. */
  lemma FitsGiveReads(sprites: seq<Sprite>, width: int, height: int, len: nat)
    requires AllFit(sprites, width, height, len)
    ensures AllReadsInBounds(sprites, width, height, len)
  {
    forall j | 0 <= j < |sprites|
      ensures Drawn(sprites[j]) ==> ReadsInBounds(sprites[j], width, height, len)
    {
      SpriteFitsIff(sprites[j], width, height, len);
    }
  }

  /** One more sprite that passes the check extends the composited prefix by its painting. */
  lemma CompositedStep(sprites: seq<Sprite>, i: nat, width: nat, height: nat, bm: seq<byte>)
    requires i < |sprites| && AllFit(sprites[..i], width, height, |bm|)
    requires SpriteFits(sprites[i], width, height, |bm|)
    ensures AllFit(sprites[..i + 1], width, height, |bm|)
    ensures AllReadsInBounds(sprites[..i], width, height, |bm|)
    ensures AllReadsInBounds(sprites[..i + 1], width, height, |bm|)
    ensures Drawn(sprites[i]) ==> ReadsInBounds(sprites[i], width, height, |bm|)
    ensures Composited(Blank(width, height), width, height, sprites[..i + 1], bm)
         == SpritePainted(Composited(Blank(width, height), width, height, sprites[..i], bm), width, height, sprites[i], bm)
  {
    var pre := sprites[..i + 1];
    assert pre[..i] == sprites[..i] && pre[i] == sprites[i];
    forall j | 0 <= j < |pre| ensures SpriteFits(pre[j], width, height, |bm|) {
      if j < i {
        assert pre[j] == sprites[..i][j];
      }
    }
    FitsGiveReads(sprites[..i], width, height, |bm|);
    FitsGiveReads(pre, width, height, |bm|);
  }

  /** The compositor's second early return: a null array or an empty one. */
  predicate EmptyFrame(f: FrameRecord)
  {
    f.sprites.None? || f.spritesLen == 0 || f.bitmaps.None? || f.bitmapsLen == 0
  }

  /** What the compositor yields for return code `rc` and frame `f`, with the
      mask bytes read as bytes: no image exactly for a non-zero code or an
      empty frame; the IndexError exactly when some sprite reads outside its
      slice; otherwise a full canvas of the sprites composited in order over a
      transparent width x height canvas. */
  function FrameOutcome(rc: int, f: FrameRecord, width: nat, height: nat): (r: RenderResult)
    requires Consistent(f)
    ensures r.NoImage? <==> rc != 0 || EmptyFrame(f)
    ensures r.IndexError? <==> rc == 0 && !EmptyFrame(f) && !AllFit(f.sprites.value, width, height, f.bitmapsLen)
    ensures r.Image? ==> |r.rgba| == width * height * 4
    ensures !r.UnsupportedFormat?
  {
    if rc != 0 then NoImage
    else if EmptyFrame(f) then NoImage
    else
      var sprites, bm := f.sprites.value, f.bitmaps.value;
      if !AllFit(sprites, width, height, |bm|) then IndexError
      else
        FitsGiveReads(sprites, width, height, |bm|);
        Image(Composited(Blank(width, height), width, height, sprites, bm))
  }

  /** The body of render_frame_to_webp after the native call: the two early
      returns, the zeroed canvas, and the sprites blended in order. */
  method CompositeFrame(rc: int, f: FrameRecord, width: nat, height: nat) returns (res: RenderResult)
    requires Consistent(f)
    ensures res == FrameOutcome(rc, f, width, height)
    ensures res.Image? ==> |res.rgba| == width * height * 4
  {
    if rc != 0 {
      return NoImage;
    }
    if f.sprites.None? || f.spritesLen == 0 || f.bitmaps.None? || f.bitmapsLen == 0 {
      return NoImage;
    }
    var out := new byte[width * height * 4](_ => 0);
    var sprites, bm := f.sprites.value, f.bitmaps.value;
    assert out[..] == Blank(width, height);
    var i := 0;
    while i < f.spritesLen
      invariant 0 <= i <= |sprites|
      invariant AllFit(sprites[..i], width, height, |bm|)
      invariant AllReadsInBounds(sprites[..i], width, height, |bm|)
      invariant out[..] == Composited(Blank(width, height), width, height, sprites[..i], bm)
    {
      var ok := CompositeSprite(out, width, height, sprites[i], bm);
      if !ok {
        assert !AllFit(sprites, width, height, |bm|);
        return IndexError;
      }
      CompositedStep(sprites, i, width, height, bm);
      i := i + 1;
    }
    assert sprites[..i] == sprites;
    return Image(out[..]);
  }

  /** render_frame_to_webp up to the encoding: a fresh zeroed frame, the
      native render, the compositing, and the frame released on every path:
      each buffer the native render allocated is freed, and nothing else.
      `images` is libass's image list for the loaded track at `tMs` and
      `allocOk` whether the native allocations succeed. */
  method RenderFrameToRgba(e: Engine?, width: nat, height: nat, tMs: int32, images: seq<AssImage>, allocOk: bool)
    returns (res: RenderResult, freedSprites: bool, freedBitmaps: bool)
    requires FromLibass(images)
    ensures e == null || tMs < 0 || e.track.None? ==> res == NoImage
    ensures freedSprites == freedBitmaps
    ensures freedSprites <==> e != null && tMs >= 0 && e.track.Some? && PackOutcome(images, allocOk).1.sprites.Some?
    ensures e != null && tMs >= 0 && e.track.Some? ==>
              var (rc, f) := PackOutcome(images, allocOk); Consistent(f) && res == FrameOutcome(rc, f, width, height)
    ensures StrideCoversWidth(images) && TotalBytes(images) <= UINT32_MODULUS ==> !res.IndexError?
  {
    var frame := new Frame();
    var rc := RenderA8(e, tMs, frame, images, allocOk);
    res := CompositeFrame(rc, frame.View(), width, height);
    freedSprites, freedBitmaps := FreeFrame(frame);
    if StrideCoversWidth(images) && TotalBytes(images) <= UINT32_MODULUS && allocOk {
      PackedFrameNeverFaults(images, width, height);
    }
  }

  /** The headline guarantee: with libass's rows no wider than their stride
      and the blob addressable by the 32-bit offsets, every sprite the packer
      emits passes the compositor's check, so compositing a packed frame
      never raises. */
  lemma PackedFrameNeverFaults(images: seq<AssImage>, width: nat, height: nat)
    requires FromLibass(images) && StrideCoversWidth(images)
    requires TotalBytes(images) <= UINT32_MODULUS
    ensures AllFit(PackedSprites(images), width, height, |PackedBitmaps(images)|)
  {
    var p, b, kept := PackedSprites(images), PackedBitmaps(images), KeptImages(images);
    PackedContents(images);
    PackedMatchesKept(images);
    forall j | 0 <= j < |p| ensures SpriteFits(p[j], width, height, |b|) {
      assert Describes(p[j], kept[j]) && kept[j] in images;
      PackedSpriteFits(p[j], width, height, |b|);
    }
  }

  /** End to end, for a loaded track at a non-negative time: the compositor
      yields no image exactly when libass kept no image or the allocation
      failed, and otherwise the packed sprites painted in order over the
      transparent canvas, never the IndexError. */
  lemma PackedFrameImage(images: seq<AssImage>, allocOk: bool, width: nat, height: nat)
    requires FromLibass(images) && StrideCoversWidth(images)
    requires TotalBytes(images) <= UINT32_MODULUS
    ensures AllReadsInBounds(PackedSprites(images), width, height, |PackedBitmaps(images)|)
    ensures var (rc, f) := PackOutcome(images, allocOk);
      Consistent(f)
      && FrameOutcome(rc, f, width, height)
         == if |KeptImages(images)| == 0 || !allocOk then NoImage
            else Image(Composited(Blank(width, height), width, height, PackedSprites(images), PackedBitmaps(images)))
  {
    PackedFrameNeverFaults(images, width, height);
    FitsGiveReads(PackedSprites(images), width, height, |PackedBitmaps(images)|);
    KeptHasBytes(images);
    PackedMatchesKept(images);
    PackedBitmapsLength(images);
  }

  // ---- the mask read as written ----

  /** A sprite the compositor reads a mask byte for: it passes the skip test
      and keeps a visible pixel after clipping, so its row loop runs. */
  predicate ReadsMask(sp: Sprite, width: int, height: int)
  {
    Drawn(sp) && !ClipEmpty(sp, width, height)
  }

  /** render_frame_to_webp as written: `bm_mv` is a memoryview over a ctypes
      c_uint8 array, whose buffer format is "<B"; a memoryview unpacks items
      only for native single-character formats, so the first mask read
      `sprite[src_row + xx]` raises NotImplementedError before any bounds
      check (slicing it is fine). The render thus fails at the first sprite
      that reads a mask byte, and when no sprite does, nothing is painted. */
  function FrameOutcomeAsWritten(rc: int, f: FrameRecord, width: nat, height: nat): (r: RenderResult)
    requires Consistent(f)
    ensures r.NoImage? <==> FrameOutcome(rc, f, width, height).NoImage?
    ensures r.UnsupportedFormat? <==>
              rc == 0 && !EmptyFrame(f)
              && exists j :: 0 <= j < |f.sprites.value| && ReadsMask(f.sprites.value[j], width, height)
    ensures !r.IndexError?
    ensures r.Image? ==> r.rgba == Blank(width, height)
  {
    if rc != 0 || EmptyFrame(f) then NoImage
    else if exists j :: 0 <= j < |f.sprites.value| && ReadsMask(f.sprites.value[j], width, height) then UnsupportedFormat
    else Image(Blank(width, height))
  }

  /** Sprites that read no mask byte all pass the check and paint nothing. */
  lemma {:induction false} NoReadsPaintNothing(canvas: seq<byte>, width: nat, height: nat, sprites: seq<Sprite>, bm: seq<byte>)
    requires |canvas| == width * height * 4
    requires forall j :: 0 <= j < |sprites| ==> !ReadsMask(sprites[j], width, height)
    ensures AllFit(sprites, width, height, |bm|)
    ensures AllReadsInBounds(sprites, width, height, |bm|)
    ensures Composited(canvas, width, height, sprites, bm) == canvas
  {
    FitsGiveReads(sprites, width, height, |bm|);
    if |sprites| > 0 {
      var init, last := sprites[..|sprites| - 1], sprites[|sprites| - 1];
      forall j | 0 <= j < |init| ensures !ReadsMask(init[j], width, height) {
        assert init[j] == sprites[j];
      }
      NoReadsPaintNothing(canvas, width, height, init, bm);
      if Drawn(last) {
        OffCanvasIsNoOp(canvas, width, height, last, bm);
      }
    }
  }

  /** Where no sprite reads a mask byte the code as written and the intended
      reading agree; they part only at a read. */
  lemma AsWrittenAgreesWithoutReads(rc: int, f: FrameRecord, width: nat, height: nat)
    requires Consistent(f)
    requires f.sprites.Some? ==> forall j :: 0 <= j < |f.sprites.value| ==> !ReadsMask(f.sprites.value[j], width, height)
    ensures FrameOutcomeAsWritten(rc, f, width, height) == FrameOutcome(rc, f, width, height)
  {
    if rc == 0 && !EmptyFrame(f) {
      NoReadsPaintNothing(Blank(width, height), width, height, f.sprites.value, f.bitmaps.value);
    }
  }

  /** The colour of the sprite below: opaque red. */
  lemma OpaqueRedDecodes()
    ensures RgbaFromLibassColor(0xFF00_0000) == Rgba(255, 0, 0, 255)
  {
    DivModUnique(0xFF00_0000, 0x100_0000, 0xFF, 0);
    DivModUnique(0xFF00_0000, 0x1_0000, 0xFF00, 0);
    DivModUnique(0xFF00_0000, 0x100, 0xFF_0000, 0);
  }

  /** Painted on a 1 x 1 blank canvas with mask byte 255, a 1 x 1 opaque red
      sprite at the origin turns the one pixel opaque red. */
  lemma OpaqueRedPixel(sp: Sprite, bm: seq<byte>)
    requires sp.x == 0 && sp.y == 0 && sp.w == 1 && sp.h == 1 && sp.stride == 1 && sp.offset == 0
    requires RgbaFromLibassColor(sp.color) == Rgba(255, 0, 0, 255) && bm == [255]
    ensures AllFit([sp], 1, 1, |bm|) && AllReadsInBounds([sp], 1, 1, |bm|)
    ensures Composited(Blank(1, 1), 1, 1, [sp], bm) == [255, 0, 0, 255]
  {
    var col := RgbaFromLibassColor(sp.color);
    assert InClip(sp, 1, 1, 0, 0) && MaskIndex(sp, 0, 0) == 0;
    assert SpriteFits(sp, 1, 1, 1);
    FitsGiveReads([sp], 1, 1, 1);
    var blank := Blank(1, 1);
    assert [sp][..0] == [];
    var out := Composited(blank, 1, 1, [sp], bm);
    assert out == SpritePainted(blank, 1, 1, sp, bm);
    forall c | 0 <= c < 4 ensures out[c] == ChannelOf(col, c) {
      OpaqueTexelSetsColour(blank, 1, 1, sp, bm, 0, 0, c);
    }
  }

  /** The frame of the opaque red sprite: one sprite, one mask byte 255. */
  function RedPixelFrame(): FrameRecord
  {
    FrameRecord(Some([Sprite(0, 0, 1, 1, 1, 0xFF00_0000, 0)]), 1, Some([255]), 1)
  }

  /** As written, the render of that frame raises at its one mask read. */
  lemma RedPixelAsWritten()
    ensures Consistent(RedPixelFrame())
    ensures FrameOutcomeAsWritten(0, RedPixelFrame(), 1, 1) == UnsupportedFormat
  {
    var f := RedPixelFrame();
    OpaqueRedDecodes();
    assert ReadsMask(f.sprites.value[0], 1, 1);
  }

  /** Read as bytes, the render of that frame is the one red pixel. */
  lemma RedPixelIntended()
    ensures Consistent(RedPixelFrame())
    ensures FrameOutcome(0, RedPixelFrame(), 1, 1) == Image([255, 0, 0, 255])
  {
    var f := RedPixelFrame();
    OpaqueRedDecodes();
    OpaqueRedPixel(f.sprites.value[0], f.bitmaps.value);
  }

  /** The smallest frame that shows the read failing: a 1 x 1 canvas and one
      opaque red sprite on it with mask byte 255. As written the render
      raises; read as bytes it yields the one red pixel. */
  lemma MemoryviewReadFault()
    ensures Consistent(RedPixelFrame())
    ensures FrameOutcomeAsWritten(0, RedPixelFrame(), 1, 1) != FrameOutcome(0, RedPixelFrame(), 1, 1)
    ensures FrameOutcomeAsWritten(0, RedPixelFrame(), 1, 1) == UnsupportedFormat
    ensures FrameOutcome(0, RedPixelFrame(), 1, 1) == Image([255, 0, 0, 255])
  {
    RedPixelAsWritten();
    RedPixelIntended();
  }
}
