/** Per-texel arithmetic of the compositor: the libass colour decode and the
    straight-alpha source-over blend with the "(x + 127) // 255" rounding. */
module Blend {
  import opened WrmsTypes
  import opened Arith

  /** One decoded colour: red, green, blue and the (non-inverted) opacity. */
  datatype Rgba = Rgba(r: byte, g: byte, b: byte, a: byte)

  /** _rgba_from_libass_color: libass keeps red, green and blue in the three
      high bytes and the inverted opacity in the low byte. On a non-negative
      value a right shift by k followed by a byte mask is `c / 2^k % 256`,
      which is how it is written here. A colour is fully transparent exactly
      when its low byte is 0xFF, and fully opaque exactly when it is 0. That
      nothing is lost, and that LibassColor is the inverse, is stated by
      DecodeThenPack and PackThenDecode below. */
  function RgbaFromLibassColor(color: uint32): (c: Rgba)
    ensures c.a == 0 <==> color % 0x100 == 0xFF
    ensures c.a == 0xFF <==> color % 0x100 == 0
  {
    Rgba((color / 0x100_0000 % 0x100) as byte,
         (color / 0x1_0000 % 0x100) as byte,
         (color / 0x100 % 0x100) as byte,
         (0xFF - color % 0x100) as byte)
  }

  /** The packing libass uses, the inverse of the decode. */
  function LibassColor(c: Rgba): uint32
  {
    c.r as int * 0x100_0000 + c.g as int * 0x1_0000 + c.b as int * 0x100 + (0xFF - c.a as int)
  }

  /** Decoding a packed colour and packing it again gives the same 32-bit value. */
  lemma DecodeThenPack(color: uint32)
    ensures LibassColor(RgbaFromLibassColor(color)) == color
  {
    var q1 := color / 0x100;
    var q2 := q1 / 0x100;
    var q3 := q2 / 0x100;
    assert color == q1 * 0x100 + color % 0x100;
    assert q1 == q2 * 0x100 + q1 % 0x100;
    assert q2 == q3 * 0x100 + q2 % 0x100;
    DivModUnique(color, 0x1_0000, q2, q1 % 0x100 * 0x100 + color % 0x100);
    DivModUnique(color, 0x100_0000, q3, (q2 % 0x100 * 0x100 + q1 % 0x100) * 0x100 + color % 0x100);
    DivModUnique(q3, 0x100, 0, q3);
  }

  /** Packing a colour and decoding it gives back each channel and the opacity. */
  lemma PackThenDecode(c: Rgba)
    ensures RgbaFromLibassColor(LibassColor(c)) == c
  {
    var r, g, b, ainv := c.r as int, c.g as int, c.b as int, 0xFF - c.a as int;
    var color := LibassColor(c);
    assert color == ((r * 0x100 + g) * 0x100 + b) * 0x100 + ainv;
    DivModUnique(color, 0x100, (r * 0x100 + g) * 0x100 + b, ainv);
    DivModUnique(color, 0x1_0000, r * 0x100 + g, b * 0x100 + ainv);
    DivModUnique(color, 0x100_0000, r, (g * 0x100 + b) * 0x100 + ainv);
    DivModUnique((r * 0x100 + g) * 0x100 + b, 0x100, r * 0x100 + g, b);
    DivModUnique(r * 0x100 + g, 0x100, r, g);
    DivModUnique(r, 0x100, 0, r);
  }

  /** The rounding division by 255 used for every scaling step. */
  function DivRound255(x: nat): nat { (x + 127) / 255 }

  /** Effective opacity of one texel: the sprite opacity scaled by its mask byte. */
  function TexelAlpha(a0: byte, m: byte): (a: byte)
    ensures a <= a0
    ensures m == 255 ==> a == a0
    ensures m == 0 ==> a == 0
  {
    MulMonotone(a0 as int, m as int, 255);
    assert (a0 as int * 255 + 127) / 255 == a0 as int;
    DivRound255(a0 as int * m as int) as byte
  }

  /** A colour channel after painting source channel `s` with opacity `a` over
      destination channel `d`: (s*a + d*(255-a) + 127) // 255. */
  function BlendChannel(s: byte, a: byte, d: byte): (r: byte)
    ensures Min(s as int, d as int) <= r as int <= Max(s as int, d as int)
    ensures a == 255 ==> r == s
    ensures a == 0 ==> r == d
  {
    var lo, hi := Min(s as int, d as int), Max(s as int, d as int);
    var inv := 255 - a as int;
    MulMonotone(a as int, lo, s as int);
    MulMonotone(a as int, s as int, hi);
    MulMonotone(inv, lo, d as int);
    MulMonotone(inv, d as int, hi);
    assert lo * 255 <= s as int * a as int + d as int * inv <= hi * 255;
    assert (lo * 255 + 127) / 255 == lo;
    assert (hi * 255 + 127) / 255 == hi;
    DivRound255(s as int * a as int + d as int * inv) as byte
  }

  /** The destination opacity after painting opacity `a` over opacity `da`:
      a + (da*(255-a) + 127) // 255. Painting never lowers the opacity and
      never exceeds 255. */
  function BlendAlpha(a: byte, da: byte): (r: byte)
    ensures Max(a as int, da as int) <= r as int
    ensures a == 255 ==> r == 255
    ensures a == 0 ==> r == da
  {
    var inv := 255 - a as int;
    MulMonotone(inv, da as int, 255);
    assert (inv * 255 + 127) / 255 == inv;
    assert da as int * 255 - da as int * inv == da as int * a as int;
    MulMonotone(da as int, 0, a as int);
    assert DivRound255(da as int * inv) + a as int >= da as int by {
      assert da as int * inv + 127 >= (da as int - a as int) * 255 by {
        MulMonotone(a as int, da as int, 255);
      }
    }
    (a as int + DivRound255(da as int * inv)) as byte
  }
}
