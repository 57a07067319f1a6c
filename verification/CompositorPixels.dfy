/** Pixels of the compositor: the premultiplied blend and what a pixel of the screen should show. */
module CompositorPixels {
  import opened Bits

  /** 0x00RRGGBB. */
  type Pixel = nat

  const SPR_W := 24
  const SPR_H := 30
  const HOT_X := 3
  const HOT_Y := 2

  // ---- the blend, on words ----

  /** x & 0xFF00FF and x & 0x00FF00 on a 32-bit word. */
  function MaskRB(x: nat): (r: nat) { (x / 0x10000 % 0x100) * 0x10000 + x % 0x100 }

  function MaskG(x: nat): (r: nat) { (x / 0x100 % 0x100) * 0x100 }

  /** `blend_premul`: both outer channels in one multiplication, the middle one in another. */
  function Blend(src: Pixel, a: nat, dst: Pixel): (r: Pixel)
    requires a <= 255
  {
    var ia := 255 - a;
    MulNonNeg(MaskRB(dst), ia);
    MulNonNeg(MaskG(dst), ia);
    src + (RoundRB(MaskRB(dst) * ia) + RoundG(MaskG(dst) * ia))
  }

  /** The scaled outer channels divided by 255, and the middle one. */
  function RoundRB(x: nat): (r: nat)
  {
    var rb := x + 0x800080;
    MaskRB((rb + MaskRB(rb / 0x100)) / 0x100)
  }

  function RoundG(x: nat): (r: nat)
  {
    var g := x + 0x008000;
    MaskG((g + MaskG(g / 0x100)) / 0x100)
  }

  function Channels(r: nat, g: nat, b: nat): (p: Pixel) { r * 0x10000 + g * 0x100 + b }

  /** v / 255 to the nearest integer. */
  function Over255(v: nat): (q: nat) { (2 * v + 255) / 510 }

  /** The shift form of division by 255 rounds to nearest on every product of two bytes. */
  lemma ShiftDivides(v: nat)
    requires v <= 255 * 255
    ensures (v + 128 + (v + 128) / 256) / 256 == Over255(v) <= 255
  {
    var q := Over255(v);
    assert 255 * q - 127 <= v <= 255 * q + 127;
  }

  /** Two 16-bit lanes in one word do not disturb each other. */
  lemma Lanes(hi: nat, lo: nat)
    requires hi < 0x10000 && lo < 0x10000
    ensures MaskRB((hi * 0x10000 + lo) / 0x100) == (hi / 0x100) * 0x10000 + lo / 0x100
  {
    assert (hi * 0x10000 + lo) / 0x100 == hi * 0x100 + lo / 0x100;
    assert (hi * 0x100 + lo / 0x100) % 0x100 == lo / 0x100;
    assert (hi * 0x100 + lo / 0x100) / 0x10000 == hi / 0x100;
  }

  /** Both outer lanes scaled at once. */
  lemma OuterLanes(u: nat, v: nat)
    requires u <= 255 * 255 && v <= 255 * 255
    ensures RoundRB(u * 0x10000 + v) == Over255(u) * 0x10000 + Over255(v)
  {
    var hi, lo := u + 128, v + 128;
    var rb := u * 0x10000 + v + 0x800080;
    assert rb == hi * 0x10000 + lo;
    Lanes(hi, lo);
    ShiftDivides(u);
    ShiftDivides(v);
    var hi', lo' := hi + hi / 0x100, lo + lo / 0x100;
    assert rb + MaskRB(rb / 0x100) == hi' * 0x10000 + lo';
    Lanes(hi', lo');
  }

  lemma MiddleLane(u: nat)
    requires u <= 255 * 255
    ensures RoundG(u * 0x100) == Over255(u) * 0x100
  {
    var t, m := u + 128, u * 0x100 + 0x008000;
    assert m == t * 0x100 && t / 0x100 < 0x100;
    DivModUnique(m, 0x100, t, 0);
    assert MaskG(m / 0x100) == (t / 0x100) * 0x100;
    ShiftDivides(u);
    assert (m + MaskG(m / 0x100)) / 0x100 == t + t / 0x100;
  }

  /** A background byte scaled by the rest of alpha and rounded to nearest. */
  function Scaled(x: nat, a: nat): (s: nat)
    requires a <= 255
  {
    MulNonNeg(x, 255 - a);
    Over255(x * (255 - a))
  }

  lemma ScaledBound(x: nat, a: nat)
    requires x < 256 && a <= 255
    ensures Scaled(x, a) <= 255 - a
  {
    ByteProduct(x, 255 - a);
  }

  lemma SplitChannels(r: nat, g: nat, b: nat)
    requires r < 256 && g < 256 && b < 256
    ensures MaskRB(Channels(r, g, b)) == r * 0x10000 + b && MaskG(Channels(r, g, b)) == g * 0x100
  {
    var x := Channels(r, g, b);
    DivModUnique(x, 0x100, r * 0x100 + g, b);
    DivModUnique(r * 0x100 + g, 0x100, r, g);
    DivModUnique(x, 0x10000, r, g * 0x100 + b);
    DivModUnique(r, 0x100, 0, r);
  }

  /** The word-level blend is, channel by channel, source plus the background scaled by the rest of
      alpha and rounded to nearest; a premultiplied source never overflows a channel. */
  lemma BlendIsRounded(sr: nat, sg: nat, sb: nat, a: nat, r: nat, g: nat, b: nat)
    requires a <= 255 && r < 256 && g < 256 && b < 256
    ensures Blend(Channels(sr, sg, sb), a, Channels(r, g, b))
            == Channels(sr + Scaled(r, a), sg + Scaled(g, a), sb + Scaled(b, a))
    ensures sr <= a ==> sr + Scaled(r, a) <= 255
    ensures sg <= a ==> sg + Scaled(g, a) <= 255
    ensures sb <= a ==> sb + Scaled(b, a) <= 255
  {
    ScaledBound(r, a);
    ScaledBound(g, a);
    ScaledBound(b, a);
    BlendAdds(Channels(sr, sg, sb), a, r, g, b);
    AddChannels(sr, sg, sb, Scaled(r, a), Scaled(g, a), Scaled(b, a));
  }

  lemma AddChannels(r: nat, g: nat, b: nat, r': nat, g': nat, b': nat)
    ensures Channels(r, g, b) + Channels(r', g', b') == Channels(r + r', g + g', b + b')
  {
  }

  lemma BlendAdds(src: Pixel, a: nat, r: nat, g: nat, b: nat)
    requires a <= 255 && r < 256 && g < 256 && b < 256
    ensures Blend(src, a, Channels(r, g, b)) == src + Channels(Scaled(r, a), Scaled(g, a), Scaled(b, a))
  {
    SplitChannels(r, g, b);
    ScaledLanes(r, g, b, 255 - a);
    BlendOf(src, a, Channels(r, g, b), r * 0x10000 + b, g * 0x100,
            Over255(r * (255 - a)) * 0x10000 + Over255(b * (255 - a)), Over255(g * (255 - a)) * 0x100);
  }

  lemma BlendOf(src: Pixel, a: nat, dst: Pixel, rb: nat, g: nat, rb': nat, g': nat)
    requires a <= 255 && MaskRB(dst) == rb && MaskG(dst) == g
    requires 0 <= rb * (255 - a) && 0 <= g * (255 - a) && RoundRB(rb * (255 - a)) == rb' && RoundG(g * (255 - a)) == g'
    ensures Blend(src, a, dst) == src + (rb' + g')
  {
  }

  lemma ScaledLanes(r: nat, g: nat, b: nat, ia: nat)
    requires r < 256 && g < 256 && b < 256 && ia <= 255
    ensures 0 <= (r * 0x10000 + b) * ia && 0 <= g * 0x100 * ia && 0 <= r * ia && 0 <= g * ia && 0 <= b * ia
    ensures RoundRB((r * 0x10000 + b) * ia) == Over255(r * ia) * 0x10000 + Over255(b * ia)
    ensures RoundG(g * 0x100 * ia) == Over255(g * ia) * 0x100
  {
    ByteProduct(r, ia);
    ByteProduct(g, ia);
    ByteProduct(b, ia);
    Distribute(r, b, g, ia);
    LanesOfProducts(r * ia, g * ia, b * ia);
  }

  lemma LanesOfProducts(u: nat, w: nat, v: nat)
    requires u <= 255 * 255 && v <= 255 * 255 && w <= 255 * 255
    ensures RoundRB(u * 0x10000 + v) == Over255(u) * 0x10000 + Over255(v)
    ensures RoundG(w * 0x100) == Over255(w) * 0x100
  {
    OuterLanes(u, v);
    MiddleLane(w);
  }

  lemma ByteProduct(x: nat, ia: nat)
    requires x < 256 && ia <= 255
    ensures 0 <= x * ia <= 255 * ia <= 255 * 255
  {
    MulNonNeg(x, ia);
    MulMono(x, 255, ia);
  }

  lemma Distribute(r: int, b: int, g: int, ia: int)
    ensures (r * 0x10000 + b) * ia == r * ia * 0x10000 + b * ia
    ensures g * 0x100 * ia == g * ia * 0x100
  {
    MulDist(r * 0x10000, b, ia);
  }

  // ---- the sprite ----

  /** The cursor image: premultiplied color, alpha, and the bounds of its non-transparent part. */
  datatype Sprite = Sprite(premul: seq<seq<Pixel>>, alpha: seq<seq<nat>>, x0: int, x1: int, y0: int, y1: int)

  predicate InSprite(r: int, c: int) { 0 <= r < SPR_H && 0 <= c < SPR_W }

  ghost predicate SpriteOk(s: Sprite)
  {
    && |s.premul| == SPR_H && |s.alpha| == SPR_H
    && (forall r :: 0 <= r < SPR_H ==> |s.premul[r]| == SPR_W && |s.alpha[r]| == SPR_W)
    && (forall r, c :: InSprite(r, c) ==> s.alpha[r][c] <= 255)
    && 0 <= s.x0 && s.x1 <= SPR_W && 0 <= s.y0 && s.y1 <= SPR_H
    && forall r, c :: InSprite(r, c) && s.alpha[r][c] != 0 ==> s.y0 <= r < s.y1 && s.x0 <= c < s.x1
  }

  /** Alpha of the sprite at an offset from its top-left, zero outside it. */
  ghost function AlphaAt(s: Sprite, r: int, c: int): (a: nat)
    requires SpriteOk(s)
    ensures a <= 255
    ensures a != 0 ==> InSprite(r, c) && s.y0 <= r < s.y1 && s.x0 <= c < s.x1
  {
    if InSprite(r, c) then s.alpha[r][c] else 0
  }

  /** What the screen should show at (y, x) for a scene pixel `scene` and a cursor at (cx, cy). */
  ghost function Composite(s: Sprite, on: bool, cx: int, cy: int, y: int, x: int, scene: Pixel): (p: Pixel)
    requires SpriteOk(s)
  {
    var a := AlphaAt(s, y - cy, x - cx);
    if on && a != 0 then Blend(s.premul[y - cy][x - cx], a, scene) else scene
  }
}
