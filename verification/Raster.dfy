/** Straight-alpha RGBA to the premultiplied BGRA the renderer takes, in place. */
module Raster {
  import opened Wrappers

  type U16 = x: int | 0 <= x < 0x1_0000

  /** A channel times its alpha over 255, in 16-bit arithmetic throughout. */
  function Premul(c: Byte, a: Byte): Byte {
    var product: U16 := c * a;
    var sum: U16 := product + 127;
    sum / 255
  }

  /** Nothing overflows. The result is the integer nearest to `c * a / 255`, and there is only one; neither the channel
      nor the alpha is exceeded. */
  lemma PremulIsNearest(c: Byte, a: Byte)
    ensures c * a + 127 < 0x1_0000
    ensures -127 <= 255 * Premul(c, a) - c * a <= 127
    ensures forall v: int :: -127 <= 255 * v - c * a <= 127 ==> v == Premul(c, a)
    ensures Premul(c, a) <= c && Premul(c, a) <= a
  {
    ScaledIsBounded(c, a);
    ScaledIsBounded(a, c);
  }

  lemma ScaledIsBounded(c: Byte, a: Byte)
    ensures c * a <= 255 * c
  {
  }

  /** Byte `i` of the image after the loop: blue, green, red, each premultiplied, and the alpha. */
  function Converted(data: seq<Byte>, i: nat): Byte
    requires |data| % 4 == 0 && i < |data|
  {
    var px := i - i % 4;
    match i % 4
    case 0 => Premul(data[px + 2], data[px + 3])
    case 1 => Premul(data[px + 1], data[px + 3])
    case 2 => Premul(data[px], data[px + 3])
    case _ => data[i]
  }

  lemma PixelConverted(data: seq<Byte>, px: nat)
    requires |data| % 4 == 0 && px % 4 == 0 && px + 4 <= |data|
    ensures Converted(data, px) == Premul(data[px + 2], data[px + 3])
    ensures Converted(data, px + 1) == Premul(data[px + 1], data[px + 3])
    ensures Converted(data, px + 2) == Premul(data[px], data[px + 3])
    ensures Converted(data, px + 3) == data[px + 3]
  {
    hide Premul;
  }

  /** Pixel by pixel: blue, green and red premultiplied, in that order, and the alpha as it was. */
  ghost predicate Premultiplied(was: seq<Byte>, now: seq<Byte>) {
    |was| % 4 == 0 && |now| == |was| &&
    forall px | 0 <= px < |was| && px % 4 == 0 ::
      now[px] == Premul(was[px + 2], was[px + 3]) && now[px + 1] == Premul(was[px + 1], was[px + 3]) &&
      now[px + 2] == Premul(was[px], was[px + 3]) && now[px + 3] == was[px + 3]
  }

  lemma AllConverted(was: seq<Byte>, now: seq<Byte>)
    requires |was| % 4 == 0 && |now| == |was| && forall i | 0 <= i < |was| :: now[i] == Converted(was, i)
    ensures Premultiplied(was, now)
  {
    hide Premul, Converted;
    forall px | 0 <= px < |was| && px % 4 == 0
      ensures now[px] == Premul(was[px + 2], was[px + 3]) && now[px + 1] == Premul(was[px + 1], was[px + 3])
              && now[px + 2] == Premul(was[px], was[px + 3]) && now[px + 3] == was[px + 3]
    {
      PixelConverted(was, px);
    }
  }

  /** The loop of `render_image_from_png`. */
  method Premultiply(data: array<Byte>)
    requires data.Length % 4 == 0
    modifies data
    ensures forall i | 0 <= i < data.Length :: data[i] == Converted(old(data[..]), i)
    ensures Premultiplied(old(data[..]), data[..])
  {
    hide Premul, Converted, Premultiplied;
    var px := 0;
    while px < data.Length
      invariant 0 <= px <= data.Length && px % 4 == 0
      invariant forall i | 0 <= i < px :: data[i] == Converted(old(data[..]), i)
      invariant forall i | px <= i < data.Length :: data[i] == old(data[i])
    {
      PixelConverted(old(data[..]), px);
      var a := data[px + 3];
      var r, g, b := Premul(data[px], a), Premul(data[px + 1], a), Premul(data[px + 2], a);
      data[px] := b;
      data[px + 1] := g;
      data[px + 2] := r;
      px := px + 4;
    }
    AllConverted(old(data[..]), data[..]);
  }

  /** Byte `i` of the image with the first and third byte of each pixel swapped. */
  function Swapped(data: seq<Byte>, i: nat): Byte
    requires |data| % 4 == 0 && i < |data|
  {
    match i % 4
    case 0 => data[i + 2]
    case 2 => data[i - 2]
    case _ => data[i]
  }

  /** Pixel by pixel: the first and the third byte change places, the second and the fourth stay. */
  ghost predicate Exchanged(was: seq<Byte>, now: seq<Byte>) {
    |was| % 4 == 0 && |now| == |was| &&
    forall px | 0 <= px < |was| && px % 4 == 0 ::
      now[px] == was[px + 2] && now[px + 2] == was[px] && now[px + 1] == was[px + 1] && now[px + 3] == was[px + 3]
  }

  lemma PixelSwapped(data: seq<Byte>, px: nat)
    requires |data| % 4 == 0 && px % 4 == 0 && px + 4 <= |data|
    ensures Swapped(data, px) == data[px + 2] && Swapped(data, px + 2) == data[px]
    ensures Swapped(data, px + 1) == data[px + 1] && Swapped(data, px + 3) == data[px + 3]
  {
  }

  lemma AllSwapped(was: seq<Byte>, now: seq<Byte>)
    requires |was| % 4 == 0 && |now| == |was| && forall i | 0 <= i < |was| :: now[i] == Swapped(was, i)
    ensures Exchanged(was, now)
  {
    hide Swapped;
    forall px | 0 <= px < |was| && px % 4 == 0
      ensures now[px] == was[px + 2] && now[px + 2] == was[px] && now[px + 1] == was[px + 1] && now[px + 3] == was[px + 3]
    {
      PixelSwapped(was, px);
    }
  }

  /** The loop of `render_image_from_pixmap`. */
  method SwapChannels(data: array<Byte>)
    requires data.Length % 4 == 0
    modifies data
    ensures forall i | 0 <= i < data.Length :: data[i] == Swapped(old(data[..]), i)
    ensures Exchanged(old(data[..]), data[..])
  {
    hide Swapped, Exchanged;
    var px := 0;
    while px < data.Length
      invariant 0 <= px <= data.Length && px % 4 == 0
      invariant forall i | 0 <= i < px :: data[i] == Swapped(old(data[..]), i)
      invariant forall i | px <= i < data.Length :: data[i] == old(data[i])
    {
      PixelSwapped(old(data[..]), px);
      data[px], data[px + 2] := data[px + 2], data[px];
      px := px + 4;
    }
    AllSwapped(old(data[..]), data[..]);
  }

  /** Swapping twice gives the image back. */
  lemma SwappingUndoesItself(data: seq<Byte>, swapped: seq<Byte>)
    requires |data| % 4 == 0 && |swapped| == |data|
    requires forall i | 0 <= i < |data| :: swapped[i] == Swapped(data, i)
    ensures forall i | 0 <= i < |data| :: Swapped(swapped, i) == data[i]
  {
    forall i | 0 <= i < |data|
      ensures Swapped(swapped, i) == data[i]
    {
      if i % 4 == 0 { assert (i + 2) % 4 == 2; }
      if i % 4 == 2 { assert (i - 2) % 4 == 0; }
    }
  }

  /** An opaque image is only swapped: premultiplying by 255 changes nothing. */
  lemma OpaqueIsOnlySwapped(data: seq<Byte>, i: nat)
    requires |data| % 4 == 0 && i < |data| && data[i - i % 4 + 3] == 255
    ensures Converted(data, i) == Swapped(data, i)
  {
    hide Premul;
    var px := i - i % 4;
    OpaqueStays(data[px]);
    OpaqueStays(data[px + 1]);
    OpaqueStays(data[px + 2]);
  }

  lemma OpaqueStays(c: Byte)
    ensures Premul(c, 255) == c
  {
  }
}
