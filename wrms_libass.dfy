/** The native side (wrms_libass.cpp): the engine's state, its configuration
    calls, the A8 frame packer and the frame release. libass itself is not
    part of the model: what its calls return is passed in. */
module WrmsLibass {
  import opened WrmsTypes
  import opened WrmsPack

  /** A parsed ASS_Track, as returned by libass; only its identity matters here. */
  datatype Track = Track(id: nat)

  /** The Engine behind a wrms_handle_t: the configured frame size and the
      currently loaded track (None when no track is loaded). */
  class Engine {
    var w: int32
    var h: int32
    var track: Option<Track>

    /** `new Engine()`: default member initialisers. */
    constructor ()
      ensures w == 0 && h == 0 && track == None
    {
      w, h, track := 0, 0, None;
    }

    /** free_track_locked: hands the loaded track, if any, to ass_free_track
        (returned as `released`) and forgets it. */
    method FreeTrack() returns (released: Option<Track>)
      modifies this
      ensures released == old(track) && track == None
      ensures w == old(w) && h == old(h)
    {
      released := None;
      if track.Some? {
        released := track;
        track := None;
      }
    }
  }

  /** The wrms_frame_t a caller passes to wrms_render_a8 and wrms_free_frame. */
  class Frame {
    var sprites: Option<seq<Sprite>>
    var spritesLen: nat
    var bitmaps: Option<seq<byte>>
    var bitmapsLen: nat

    /** A zero-initialised frame, as the caller allocates it. */
    constructor ()
      ensures View() == ZeroFrame
    {
      sprites, spritesLen, bitmaps, bitmapsLen := None, 0, None, 0;
    }

    function View(): FrameRecord
      reads this
    {
      FrameRecord(sprites, spritesLen, bitmaps, bitmapsLen)
    }
  }

  /** wrms_set_frame_size: 1 for a null handle, 2 for a non-positive size
      (nothing changes in either case), otherwise the size is stored and 0
      returned. Forwarding the size to libass's renderer is not modelled. */
  method SetFrameSize(e: Engine?, width: int32, height: int32) returns (rc: int)
    modifies e
    ensures e == null ==> rc == 1
    ensures e != null && (width <= 0 || height <= 0) ==> rc == 2 && unchanged(e)
    ensures e != null && width > 0 && height > 0 ==>
              rc == 0 && e.w == width && e.h == height && e.track == old(e.track)
  {
    if e == null { return 1; }
    if width <= 0 || height <= 0 { return 2; }
    e.w := width;
    e.h := height;
    return 0;
  }

  /** wrms_set_track. `text` is the (pointer, length) pair, None for a null
      pointer; `readMemory` is what ass_read_memory makes of a text.
      1 for a null handle, 2 for a null or empty text (nothing changes in
      either case); otherwise the old track is always released first
      (`released`), then the parse result is installed: 3 when it failed
      (no track is left loaded), 0 when it succeeded. */
  method SetTrack(e: Engine?, text: Option<seq<byte>>, readMemory: seq<byte> -> Option<Track>)
    returns (rc: int, released: Option<Track>)
    modifies e
    ensures e == null ==> rc == 1 && released == None
    ensures e != null && (text.None? || |text.value| == 0) ==> rc == 2 && released == None && unchanged(e)
    ensures e != null && text.Some? && |text.value| > 0 ==>
              released == old(e.track)
              && e.track == readMemory(text.value)
              && rc == (if e.track.None? then 3 else 0)
              && e.w == old(e.w) && e.h == old(e.h)
  {
    released := None;
    if e == null { return 1, released; }
    if text.None? || |text.value| == 0 { return 2, released; }
    released := e.FreeTrack();
    e.track := readMemory(text.value);
    if e.track.None? { return 3, released; }
    return 0, released;
  }

  /** frame_zero: null pointers and zero counts; a null frame is left alone. */
  method FrameZero(f: Frame?)
    modifies f
    ensures f != null ==> f.View() == ZeroFrame
  {
    if f == null { return; }
    f.sprites := None;
    f.spritesLen := 0;
    f.bitmaps := None;
    f.bitmapsLen := 0;
  }

  /** First pass of wrms_render_a8 over the image list: the number of kept
      images and the bytes their bitmaps need. */
  method CountKept(images: seq<AssImage>) returns (n: nat, total: nat)
    ensures n == |KeptImages(images)|
    ensures total == TotalBytes(images)
  {
    n, total := 0, 0;
    var k := 0;
    while k < |images|
      invariant 0 <= k <= |images|
      invariant n == |KeptImages(images[..k])|
      invariant total == TotalBytes(images[..k])
    {
      var img := images[k];
      assert images[..k + 1][..k] == images[..k];
      if img.w > 0 && img.h > 0 && img.stride > 0 && img.bitmap.Some? {
        n := n + 1;
        total := total + img.stride as int * img.h as int;
      }
      k := k + 1;
    }
    assert images[..k] == images;
  }

  /** memcpy of `src` into `dst` at byte `at`. */
  method MemCopy(dst: array<byte>, at: nat, src: seq<byte>)
    requires at + |src| <= dst.Length
    modifies dst
    ensures dst[..] == old(dst[..at]) + src + old(dst[at + |src|..])
  {
    forall t | 0 <= t < |src| {
      dst[at + t] := src[t];
    }
    assert dst[..] == old(dst[..at]) + src + old(dst[at + |src|..]);
  }

  /** One turn of the second pass of wrms_render_a8: a kept image gets the
      next sprite record, with its bytes copied at the running offset behind
      the earlier ones; any other image is passed over. */
  method PlaceImage(sa: array<Sprite>, ba: array<byte>, images: seq<AssImage>, k: nat, i: nat, off: nat)
    returns (i': nat, off': nat)
    requires FromLibass(images) && k < |images|
    requires sa.Length == |KeptImages(images)| && ba.Length == TotalBytes(images)
    requires i == |KeptImages(images[..k])| && off == TotalBytes(images[..k])
    requires i <= sa.Length && off <= ba.Length
    requires sa[..i] == PackedSprites(images[..k]) && ba[..off] == PackedBitmaps(images[..k])
    modifies sa, ba
    ensures i' == |KeptImages(images[..k + 1])| && off' == TotalBytes(images[..k + 1])
    ensures i' <= sa.Length && off' <= ba.Length
    ensures sa[..i'] == PackedSprites(images[..k + 1]) && ba[..off'] == PackedBitmaps(images[..k + 1])
  {
    var img := images[k];
    PackStep(images, k);
    i', off' := i, off;
    if img.w > 0 && img.h > 0 && img.stride > 0 && img.bitmap.Some? {
      var bytes := img.stride as int * img.h as int;
      ghost var placed := sa[..i];
      sa[i] := Sprite(img.dstX, img.dstY, img.w, img.h, img.stride, img.color, off % UINT32_MODULUS);
      assert sa[..i + 1] == placed + [SpriteOf(img, off)];
      ghost var done := ba[..off];
      MemCopy(ba, off, img.bitmap.value[..bytes]);
      assert ba[..off + bytes] == done + img.bitmap.value[..bytes];
      i', off' := i + 1, off + bytes;
    }
  }

  /** Second pass of wrms_render_a8: fill a sprite array of `n` records and a
      blob of `total` bytes, copying every kept image's bitmap behind the
      previous one. The result is the packed layout. */
  method CopyKept(images: seq<AssImage>, n: nat, total: nat) returns (sprites: seq<Sprite>, bitmaps: seq<byte>)
    requires FromLibass(images)
    requires n == |KeptImages(images)| && total == TotalBytes(images)
    ensures sprites == PackedSprites(images)
    ensures bitmaps == PackedBitmaps(images)
    ensures |sprites| == n && |bitmaps| == total
  {
    var sa := new Sprite[n](_ => Sprite(0, 0, 0, 0, 0, 0, 0));
    var ba := new byte[total](_ => 0);
    var i, off, k := 0, 0, 0;
    while k < |images|
      invariant 0 <= k <= |images|
      invariant i == |KeptImages(images[..k])| && off == TotalBytes(images[..k])
      invariant i <= n && off <= total
      invariant sa[..i] == PackedSprites(images[..k])
      invariant ba[..off] == PackedBitmaps(images[..k])
    {
      i, off := PlaceImage(sa, ba, images, k, i, off);
      k := k + 1;
    }
    assert images[..k] == images;
    PackedMatchesKept(images);
    sprites, bitmaps := sa[..], ba[..];
    assert sa[..] == sa[..i] && ba[..] == ba[..off];
  }

  /** What wrms_render_a8 leaves behind once it has a handle, an out-frame, a
      non-negative time and a loaded track, given libass's image list: a
      zeroed frame and 0 when nothing is kept or nothing has bytes, a zeroed
      frame and 5 when allocation fails, otherwise 0 and the packed frame. */
  function PackOutcome(images: seq<AssImage>, allocOk: bool): (r: (int, FrameRecord))
    requires FromLibass(images)
    ensures Consistent(r.1)
    ensures r.0 == 0 || r.0 == 5
    ensures r.0 == 5 <==> |KeptImages(images)| > 0 && !allocOk
    ensures r.1.sprites.Some? <==> |KeptImages(images)| > 0 && allocOk
    ensures r.1.sprites.None? ==> r.1 == ZeroFrame
    ensures r.1.sprites.Some? ==>
              r.1.bitmaps.Some? && r.1.spritesLen == |KeptImages(images)| > 0 && r.1.bitmapsLen == TotalBytes(images) > 0
  {
    KeptHasBytes(images);
    PackedMatchesKept(images);
    PackedBitmapsLength(images);
    if |KeptImages(images)| == 0 || TotalBytes(images) == 0 then (0, ZeroFrame)
    else if !allocOk then (5, ZeroFrame)
    else (0, FrameRecord(Some(PackedSprites(images)), |PackedSprites(images)|,
                         Some(PackedBitmaps(images)), |PackedBitmaps(images)|))
  }

  /** wrms_render_a8. `images` is what ass_render_frame returns for the loaded
      track at `tMs` (the empty sequence for a null list) and `allocOk` whether
      both mallocs succeed. Failures are reported in the order of the checks:
      1 null handle, 2 null out-frame, 3 negative time (the frame untouched in
      these three), 4 no track (the frame already zeroed). */
  method RenderA8(e: Engine?, tMs: int32, out: Frame?, images: seq<AssImage>, allocOk: bool) returns (rc: int)
    requires FromLibass(images)
    modifies out
    ensures e == null ==> rc == 1 && (out != null ==> unchanged(out))
    ensures e != null && out == null ==> rc == 2
    ensures e != null && out != null && tMs < 0 ==> rc == 3 && unchanged(out)
    ensures e != null && out != null && tMs >= 0 && e.track.None? ==> rc == 4 && out.View() == ZeroFrame
    ensures e != null && out != null && tMs >= 0 && e.track.Some? ==> (rc, out.View()) == PackOutcome(images, allocOk)
  {
    if e == null { return 1; }
    if out == null { return 2; }
    if tMs < 0 { return 3; }
    FrameZero(out);
    if e.track.None? { return 4; }
    if |images| == 0 {
      // no subtitle visible at this time
      return 0;
    }
    var n, total := CountKept(images);
    if n == 0 || total == 0 {
      return 0;
    }
    if !allocOk {
      return 5;
    }
    var sprites, bitmaps := CopyKept(images, n, total);
    out.sprites := Some(sprites);
    out.spritesLen := |sprites|;
    out.bitmaps := Some(bitmaps);
    out.bitmapsLen := |bitmaps|;
    return 0;
  }

  /** wrms_free_frame: releases the two buffers that are present (reported as
      `freedSprites` and `freedBitmaps`) and zeroes the frame; a null frame is
      left alone. */
  method FreeFrame(f: Frame?) returns (freedSprites: bool, freedBitmaps: bool)
    modifies f
    ensures f == null ==> !freedSprites && !freedBitmaps
    ensures f != null ==> freedSprites == old(f.sprites).Some? && freedBitmaps == old(f.bitmaps).Some?
    ensures f != null ==> f.View() == ZeroFrame
  {
    freedSprites, freedBitmaps := false, false;
    if f == null { return; }
    if f.sprites.Some? { freedSprites := true; }
    if f.bitmaps.Some? { freedBitmaps := true; }
    FrameZero(f);
  }

  /** Freeing a frame twice releases each buffer at most once: the second
      call finds null pointers and releases nothing. */
  method FreeFrameTwice(f: Frame) returns (secondFreedSprites: bool, secondFreedBitmaps: bool)
    modifies f
    ensures !secondFreedSprites && !secondFreedBitmaps
    ensures f.View() == ZeroFrame
  {
    var _, _ := FreeFrame(f);
    secondFreedSprites, secondFreedBitmaps := FreeFrame(f);
  }
}
