/** What wrms_render_a8 builds from libass's image list: the specification of
    the filter / count / pack passes, and the layout facts the compositor
    relies on. The ASS_Image linked list is a sequence in list order. */
module WrmsPack {
  import opened WrmsTypes

  /** ASS_Image: one A8 bitmap produced by libass; `bitmap` is None for a null pointer. */
  datatype AssImage = AssImage(w: int32, h: int32, stride: int32, bitmap: Option<seq<byte>>,
                               color: uint32, dstX: int32, dstY: int32)

  /** The packer's filter: only images with a positive size, a positive stride
      and a bitmap are kept. */
  predicate Kept(img: AssImage)
  {
    img.w > 0 && img.h > 0 && img.stride > 0 && img.bitmap.Some?
  }

  /** Size in bytes of a kept image's A8 bitmap: stride * h. */
  function ImageBytes(img: AssImage): (n: nat)
    requires Kept(img)
    ensures n >= img.stride as int
  {
    assert img.stride as int * img.h as int >= img.stride as int * 1;
    img.stride as int * img.h as int
  }

  /** What libass guarantees of every image it returns: a kept image's bitmap
      holds at least stride * h bytes. */
  predicate BitmapCovers(img: AssImage)
  {
    Kept(img) ==> |img.bitmap.value| >= ImageBytes(img)
  }

  predicate FromLibass(images: seq<AssImage>)
  {
    forall img :: img in images ==> BitmapCovers(img)
  }

  /** The libass invariant the compositor needs for its reads: a row is never
      wider than its stride. */
  predicate StrideCoversWidth(images: seq<AssImage>)
  {
    forall img :: img in images ==> img.w <= img.stride
  }

  /** The kept images, in list order. */
  function KeptImages(images: seq<AssImage>): (kept: seq<AssImage>)
    ensures |kept| <= |images|
    ensures forall k :: 0 <= k < |kept| ==> Kept(kept[k]) && kept[k] in images
  {
    if |images| == 0 then []
    else KeptImages(images[..|images| - 1]) + (if Kept(images[|images| - 1]) then [images[|images| - 1]] else [])
  }

  /** total_bytes: the sum of stride * h over the kept images. */
  function TotalBytes(images: seq<AssImage>): nat
  {
    if |images| == 0 then 0
    else TotalBytes(images[..|images| - 1]) + (if Kept(images[|images| - 1]) then ImageBytes(images[|images| - 1]) else 0)
  }

  /** The sprite record written for a kept image whose bytes start at `off`;
      the offset field is a uint32_t, so `off` is truncated to 32 bits: the
      offset is exact below 2^32 and otherwise agrees with `off` modulo 2^32.
      The record describes the image and has a positive size and stride. */
  function SpriteOf(img: AssImage, off: nat): (sp: Sprite)
    requires Kept(img)
    ensures Describes(sp, img) && sp.w > 0 && sp.h > 0 && sp.stride > 0
    ensures off < UINT32_MODULUS ==> sp.offset as int == off
    ensures (off - sp.offset as int) % UINT32_MODULUS == 0
  {
    Sprite(img.dstX, img.dstY, img.w, img.h, img.stride, img.color, off % UINT32_MODULUS)
  }

  /** The sprite array: one record per kept image, offsets cumulative. */
  function PackedSprites(images: seq<AssImage>): seq<Sprite>
  {
    if |images| == 0 then []
    else
      var init, last := images[..|images| - 1], images[|images| - 1];
      PackedSprites(init) + (if Kept(last) then [SpriteOf(last, TotalBytes(init))] else [])
  }

  /** The bitmap blob: the first stride * h bytes of every kept image, concatenated. */
  function PackedBitmaps(images: seq<AssImage>): seq<byte>
    requires FromLibass(images)
  {
    if |images| == 0 then []
    else
      var init, last := images[..|images| - 1], images[|images| - 1];
      assert forall img :: img in init ==> img in images;
      assert last in images;
      PackedBitmaps(init) + (if Kept(last) then last.bitmap.value[..ImageBytes(last)] else [])
  }

  /** The sprite of a kept image carries the image's position, size, stride and
      colour unchanged. */
  predicate Describes(sp: Sprite, img: AssImage)
  {
    sp.x == img.dstX && sp.y == img.dstY && sp.w == img.w && sp.h == img.h
    && sp.stride == img.stride && sp.color == img.color
  }

  /** Every kept image is one of the input images and passes the filter, and
      every input image that passes the filter is kept. */
  lemma {:induction false} KeptImagesAreTheFilter(images: seq<AssImage>)
    ensures forall img :: img in KeptImages(images) <==> img in images && Kept(img)
  {
    if |images| > 0 {
      var init := images[..|images| - 1];
      KeptImagesAreTheFilter(init);
      assert images == init + [images[|images| - 1]];
    }
  }

  /** The packed sprites are the kept images, one for one, in list order, and
      the blob is exactly total_bytes long. */
  lemma {:induction false} PackedMatchesKept(images: seq<AssImage>)
    requires FromLibass(images)
    ensures |PackedSprites(images)| == |KeptImages(images)|
    ensures forall j :: 0 <= j < |PackedSprites(images)| ==>
              Describes(PackedSprites(images)[j], KeptImages(images)[j])
  {
    if |images| > 0 {
      var init, last := images[..|images| - 1], images[|images| - 1];
      assert FromLibass(init) by {
        forall img | img in init ensures img in images { }
      }
      PackedMatchesKept(init);
      var p0, kept0 := PackedSprites(init), KeptImages(init);
      var p, kept := PackedSprites(images), KeptImages(images);
      if Kept(last) {
        assert p == p0 + [SpriteOf(last, TotalBytes(init))];
        assert kept == kept0 + [last];
      } else {
        assert p == p0 && kept == kept0;
      }
      forall j | 0 <= j < |p| ensures Describes(p[j], kept[j]) {
        if j < |p0| {
          assert p[j] == p0[j] && kept[j] == kept0[j];
        }
      }
    }
  }

  /** The blob is exactly total_bytes long. */
  lemma {:induction false} PackedBitmapsLength(images: seq<AssImage>)
    requires FromLibass(images)
    ensures |PackedBitmaps(images)| == TotalBytes(images)
  {
    if |images| > 0 {
      var init := images[..|images| - 1];
      assert FromLibass(init) by {
        forall img | img in init ensures img in images { }
      }
      PackedBitmapsLength(init);
      var last := images[|images| - 1];
      assert last in images;
      if Kept(last) {
        assert PackedBitmaps(images) == PackedBitmaps(init) + last.bitmap.value[..ImageBytes(last)];
      } else {
        assert PackedBitmaps(images) == PackedBitmaps(init);
      }
    }
  }

  /** Kept images always have bytes: the blob is empty exactly when nothing is kept. */
  lemma {:induction false} KeptHasBytes(images: seq<AssImage>)
    ensures |KeptImages(images)| > 0 <==> TotalBytes(images) > 0
  {
    if |images| > 0 {
      KeptHasBytes(images[..|images| - 1]);
    }
  }

  /** A prefix never keeps more images than the whole list. */
  lemma {:induction false} KeptImagesMonotone(images: seq<AssImage>, k: nat)
    requires k <= |images|
    ensures |KeptImages(images[..k])| <= |KeptImages(images)|
    decreases |images|
  {
    if k < |images| {
      var init := images[..|images| - 1];
      assert |KeptImages(init)| <= |KeptImages(images)|;
      assert images[..k] == init[..k];
      KeptImagesMonotone(init, k);
    } else {
      assert images[..k] == images;
    }
  }

  /** A prefix never holds more bytes than the whole list. */
  lemma {:induction false} TotalBytesMonotone(images: seq<AssImage>, k: nat)
    requires k <= |images|
    ensures TotalBytes(images[..k]) <= TotalBytes(images)
    decreases |images|
  {
    if k < |images| {
      var init := images[..|images| - 1];
      assert TotalBytes(init) <= TotalBytes(images);
      assert images[..k] == init[..k];
      TotalBytesMonotone(init, k);
    } else {
      assert images[..k] == images;
    }
  }

  /** One more image of the list: the packed layout of the first k + 1 images
      extends that of the first k by the image's record and bytes, if it is kept. */
  lemma PackStep(images: seq<AssImage>, k: nat)
    requires FromLibass(images) && k < |images|
    ensures FromLibass(images[..k]) && FromLibass(images[..k + 1])
    ensures BitmapCovers(images[k])
    ensures var img, pre, pre' := images[k], images[..k], images[..k + 1];
      && PackedSprites(pre') == PackedSprites(pre) + (if Kept(img) then [SpriteOf(img, TotalBytes(pre))] else [])
      && KeptImages(pre') == KeptImages(pre) + (if Kept(img) then [img] else [])
      && PackedBitmaps(pre') == PackedBitmaps(pre) + (if Kept(img) then img.bitmap.value[..ImageBytes(img)] else [])
      && |KeptImages(pre')| == |KeptImages(pre)| + (if Kept(img) then 1 else 0)
      && TotalBytes(pre') == TotalBytes(pre) + (if Kept(img) then ImageBytes(img) else 0)
      && |KeptImages(pre')| <= |KeptImages(images)| && TotalBytes(pre') <= TotalBytes(images)
  {
    var pre' := images[..k + 1];
    assert images[k] in images;
    assert pre'[..k] == images[..k] && pre'[k] == images[k];
    assert FromLibass(pre') by {
      forall x | x in pre' ensures x in images { }
    }
    assert FromLibass(images[..k]) by {
      forall x | x in images[..k] ensures x in images { }
    }
    KeptImagesMonotone(images, k + 1);
    TotalBytesMonotone(images, k + 1);
  }

  /** Sprite offsets are contiguous: the first starts at 0, each one starts
      where the previous one's stride * h bytes end, and the last one ends at
      total_bytes. This needs the offsets to fit the 32-bit field. */
  lemma {:induction false} PackedOffsetsContiguous(images: seq<AssImage>)
    requires TotalBytes(images) <= UINT32_MODULUS
    ensures var p := PackedSprites(images);
      (|p| > 0 ==> p[0].offset == 0)
      && (forall j :: 0 < j < |p| ==> p[j].offset == p[j - 1].offset + p[j - 1].stride as int * p[j - 1].h as int)
      && (|p| > 0 ==> p[|p| - 1].offset + p[|p| - 1].stride as int * p[|p| - 1].h as int == TotalBytes(images))
      && (|p| == 0 ==> TotalBytes(images) == 0)
  {
    if |images| > 0 {
      var init, last := images[..|images| - 1], images[|images| - 1];
      PackedOffsetsContiguous(init);
      if Kept(last) {
        assert TotalBytes(init) < UINT32_MODULUS;
        assert SpriteOf(last, TotalBytes(init)).offset == TotalBytes(init);
      }
    }
  }

  /** A slice that ends inside the first part of a concatenation is a slice of that part. */
  lemma SliceOfPrefix(front: seq<byte>, back: seq<byte>, lo: nat, hi: nat)
    requires lo <= hi <= |front|
    ensures (front + back)[lo..hi] == front[lo..hi]
  {
  }

  /** The second part of a concatenation is the slice behind the first. */
  lemma SliceOfSuffix(front: seq<byte>, back: seq<byte>)
    ensures (front + back)[|front|..|front| + |back|] == back
  {
  }

  /** One sprite per kept image. */
  lemma {:induction false} PackedSpritesLength(images: seq<AssImage>)
    ensures |PackedSprites(images)| == |KeptImages(images)|
  {
    if |images| > 0 {
      PackedSpritesLength(images[..|images| - 1]);
    }
  }

  /** The last image, when kept, has the last sprite, whose range is the end of the blob. */
  lemma LastEntry(images: seq<AssImage>)
    requires FromLibass(images) && |images| > 0 && Kept(images[|images| - 1])
    requires TotalBytes(images) <= UINT32_MODULUS
    ensures FromLibass(images[..|images| - 1])
    ensures EntryHolds(images, |KeptImages(images[..|images| - 1])|)
  {
    var init, last := images[..|images| - 1], images[|images| - 1];
    PackStep(images, |images| - 1);
    assert images[..|images|] == images;
    PackedSpritesLength(images);
    PackedBitmapsLength(init);
    var p, b, kept := PackedSprites(images), PackedBitmaps(images), KeptImages(images);
    var b0 := PackedBitmaps(init);
    var j := |KeptImages(init)|;
    assert kept == KeptImages(init) + [last];
    assert kept[j] == last && p[j] == SpriteOf(last, TotalBytes(init));
    assert TotalBytes(init) < UINT32_MODULUS;
    assert TotalBytes(init) % UINT32_MODULUS == TotalBytes(init);
    var tail := last.bitmap.value[..ImageBytes(last)];
    assert b == b0 + tail;
    assert p[j].offset as int == |b0| && ImageBytes(kept[j]) == |tail|;
    SliceOfSuffix(b0, tail);
  }

  /** The j-th packed entry: the sprite's range [offset, offset + stride * h)
      lies inside the blob and holds exactly the kept image's first
      stride * h bytes. */
  ghost predicate EntryHolds(images: seq<AssImage>, j: nat)
    requires FromLibass(images)
  {
    var p, b, kept := PackedSprites(images), PackedBitmaps(images), KeptImages(images);
    |p| == |kept| && j < |p|
    && p[j].offset + ImageBytes(kept[j]) <= |b|
    && b[p[j].offset .. p[j].offset + ImageBytes(kept[j])] == kept[j].bitmap.value[..ImageBytes(kept[j])]
  }

  /** Appending an image leaves every earlier entry in place. */
  lemma EarlierEntry(images: seq<AssImage>, j: nat)
    requires FromLibass(images) && |images| > 0
    requires FromLibass(images[..|images| - 1]) && EntryHolds(images[..|images| - 1], j)
    ensures EntryHolds(images, j)
  {
    var init, last := images[..|images| - 1], images[|images| - 1];
    PackStep(images, |images| - 1);
    assert images[..|images|] == images;
    PackedSpritesLength(images);
    PackedBitmapsLength(init);
    var p, b, kept := PackedSprites(images), PackedBitmaps(images), KeptImages(images);
    var p0, b0, kept0 := PackedSprites(init), PackedBitmaps(init), KeptImages(init);
    assert p[j] == p0[j] && kept[j] == kept0[j];
    var lo, hi := p[j].offset as int, p[j].offset + ImageBytes(kept[j]);
    assert b == b0 + b[|b0|..];
    SliceOfPrefix(b0, b[|b0|..], lo, hi);
  }

  /** The j-th sprite's range lies inside the blob and holds its image's bytes. */
  lemma {:induction false} PackedEntry(images: seq<AssImage>, j: nat)
    requires FromLibass(images)
    requires TotalBytes(images) <= UINT32_MODULUS
    requires j < |KeptImages(images)|
    ensures EntryHolds(images, j)
  {
    var init, last := images[..|images| - 1], images[|images| - 1];
    PackStep(images, |images| - 1);
    assert images[..|images|] == images;
    if j < |KeptImages(init)| {
      PackedEntry(init, j);
      EarlierEntry(images, j);
    } else {
      assert Kept(last) && j == |KeptImages(init)|;
      LastEntry(images);
    }
  }

  /** Every sprite's range lies inside the blob and holds its image's bytes. */
  lemma PackedContents(images: seq<AssImage>)
    requires FromLibass(images)
    requires TotalBytes(images) <= UINT32_MODULUS
    ensures var p, b, kept := PackedSprites(images), PackedBitmaps(images), KeptImages(images);
      |p| == |kept|
      && forall j :: 0 <= j < |p| ==>
        p[j].offset + ImageBytes(kept[j]) <= |b|
        && b[p[j].offset .. p[j].offset + ImageBytes(kept[j])] == kept[j].bitmap.value[..ImageBytes(kept[j])]
  {
    PackedMatchesKept(images);
    forall j | 0 <= j < |PackedSprites(images)|
      ensures var p, b, kept := PackedSprites(images), PackedBitmaps(images), KeptImages(images);
        p[j].offset + ImageBytes(kept[j]) <= |b|
        && b[p[j].offset .. p[j].offset + ImageBytes(kept[j])] == kept[j].bitmap.value[..ImageBytes(kept[j])]
    {
      PackedEntry(images, j);
      assert EntryHolds(images, j);
    }
  }
}
