/** The damage-tracked compositor: a backbuffer the desktop draws into, per-row dirty spans, a flush
    that copies damaged rectangles to the framebuffer in short interrupt-free chunks, and a cursor
    sprite that lives only on the framebuffer and is moved by an interrupt between chunks. */
module Compositor {
  import opened Scalars
  import opened CompositorPixels

  const FLUSH_CHUNK := 48
  const MAXRECT := 64

  datatype Rect = Rect(x: int, y: int, w: int, h: int)

  predicate InRect(r: Rect, y: int, x: int) { r.y <= y < r.y + r.h && r.x <= x < r.x + r.w }

  ghost predicate InSome(rs: seq<Rect>, y: int, x: int)
  {
    exists i :: 0 <= i < |rs| && InRect(rs[i], y, x)
  }

  /** Index of a pixel in a caller's image. */
  function At(row: int, col: int, stride: int): (i: int) { row * stride + col }

  ghost predicate HoldsImage(src: seq<Pixel>, w: int, h: int, stride: int)
  {
    forall j, i :: 0 <= j < h && 0 <= i < w ==> 0 <= At(j, i, stride) < |src|
  }

  class Screen {
    const W: int
    const H: int
    const sprite: Sprite
    const bb: array2<Pixel>
    const fb: array2<Pixel>
    const dx0: array<int>
    const dx1: array<int>
    var ylo: int
    var yhi: int
    var cx0: int
    var cy0: int
    var cx1: int
    var cy1: int
    var on: bool
    var curX: int
    var curY: int
    /** What the flush in progress still has to present. */
    var todo: seq<Rect>

    predicate OnScreen(y: int, x: int) { 0 <= y < H && 0 <= x < W }

    /** The buffers match the screen. */
    ghost predicate Shape()
    {
      && 0 < W && 0 < H && SpriteOk(sprite)
      && bb.Length0 == H && bb.Length1 == W && fb.Length0 == H && fb.Length1 == W && bb != fb
      && dx0.Length == H && dx1.Length == H && dx0 != dx1
    }

    /** Dirty spans lie on the screen, and the non-empty ones in the damaged row range. */
    ghost predicate SpansOk()
      requires dx0.Length == H && dx1.Length == H
      reads dx0, dx1, this`ylo, this`yhi
    {
      && 0 <= ylo && yhi <= H
      && forall y :: 0 <= y < H ==> 0 <= dx0[y] <= W && 0 <= dx1[y] <= W && (dx0[y] < dx1[y] ==> ylo <= y < yhi)
    }

    ghost predicate ClipOk()
      reads this`cx0, this`cy0, this`cx1, this`cy1
    {
      0 <= cx0 <= cx1 && 0 <= cy0 <= cy1 && (cx0 < cx1 ==> cx1 <= W) && (cy0 < cy1 ==> cy1 <= H)
    }

    ghost predicate TodoOk()
      reads this`todo
    {
      forall i :: 0 <= i < |todo| ==> OnScreenRect(todo[i])
    }

    ghost predicate Valid()
      reads this, dx0, dx1
    {
      Shape() && SpansOk() && ClipOk() && TodoOk()
    }

    predicate OnScreenRect(r: Rect) { 0 <= r.x && 0 < r.w && r.x + r.w <= W && 0 <= r.y && 0 < r.h && r.y + r.h <= H }

    ghost predicate Dirty(y: int, x: int)
      requires 0 <= y < dx0.Length && 0 <= y < dx1.Length
      reads dx0, dx1
    {
      dx0[y] <= x < dx1[y]
    }

    /** The framebuffer shows the scene with the sprite at its current position blended over it. */
    ghost predicate Fresh(y: int, x: int)
      requires SpriteOk(sprite) && 0 <= y < bb.Length0 && 0 <= x < bb.Length1 && y < fb.Length0 && x < fb.Length1
      reads this`on, this`curX, this`curY, bb, fb
    {
      fb[y, x] == Composite(sprite, on, curX, curY, y, x, bb[y, x])
    }

    /** A pixel that is not fresh is marked dirty or still to be presented. */
    ghost predicate Settled()
      requires Shape()
      reads this`on, this`curX, this`curY, this`todo, bb, fb, dx0, dx1
    {
      forall y, x :: OnScreen(y, x) ==> Fresh(y, x) || Dirty(y, x) || InSome(todo, y, x)
    }

    /** The compositor's invariant. */
    ghost predicate Inv()
      reads this, bb, fb, dx0, dx1
    {
      Valid() && Settled()
    }

    /** `graphics_init`: a black scene over whatever the video memory held, everything damaged,
        the cursor off. */
    constructor (w: int, h: int, sprite: Sprite, video: (nat, nat) -> Pixel)
      requires 0 < w && 0 < h && SpriteOk(sprite)
      ensures Inv() && W == w && H == h && this.sprite == sprite && !on && todo == []
      ensures fresh(bb) && fresh(fb) && fresh(dx0) && fresh(dx1)
      ensures forall y, x :: OnScreen(y, x) ==> Dirty(y, x) && InClip(y, x)
      ensures forall y: nat, x: nat :: OnScreen(y, x) ==> bb[y, x] == 0
      ensures forall y: nat, x: nat :: OnScreen(y, x) ==> fb[y, x] == video(y, x)
    {
      W, H, this.sprite := w, h, sprite;
      bb := new Pixel[h, w]((_, _) => 0);
      fb := new Pixel[h, w]((y: nat, x: nat) => video(y, x));
      dx0 := new int[h](_ => 0);
      dx1 := new int[h](_ => w);
      ylo, yhi := 0, h;
      cx0, cy0, cx1, cy1 := 0, 0, w, h;
      on, curX, curY := false, -1000, -1000;
      todo := [];
    }

    // ---- damage marks ----

    method MarkSpan(y: int, xa: int, xb: int)
      requires Valid() && 0 <= y < H && 0 <= xa <= W && 0 <= xb <= W
      modifies dx0, dx1, this`ylo, this`yhi
      ensures Valid()
      ensures dx0[y] == Min(old(dx0[y]), xa) && dx1[y] == Max(old(dx1[y]), xb)
      ensures forall r :: 0 <= r < H && r != y ==> dx0[r] == old(dx0[r]) && dx1[r] == old(dx1[r])
    {
      if xa < dx0[y] { dx0[y] := xa; }
      if xb > dx1[y] { dx1[y] := xb; }
      if y < ylo { ylo := y; }
      if y >= yhi { yhi := y + 1; }
    }

    // ---- the sprite on the framebuffer ----

    /** Copy backbuffer to framebuffer over a rectangle clipped to the screen. */
    method FbRestore(x: int, y: int, w: int, h: int)
      requires Valid()
      modifies fb
      ensures forall r, c :: OnScreen(r, c) ==>
                fb[r, c] == if InRect(Rect(x, y, w, h), r, c) then bb[r, c] else old(fb[r, c])
    {
      var x0, y0 := Max(x, 0), Max(y, 0);
      var x1, y1 := Min(x + w, W), Min(y + h, H);
      var r := y0;
      while r < y1
        invariant y0 <= r && (r <= y1 || r == y0)
        invariant forall i, c :: OnScreen(i, c) ==>
                    fb[i, c] == if y0 <= i < r && x0 <= c < x1 then bb[i, c] else old(fb[i, c])
      {
        forall c | x0 <= c < x1 { fb[r, c] := bb[r, c]; }
        r := r + 1;
      }
    }

    /** Blend the sprite at (sx, sy) over the scene, rows [ry0, ry1) only. */
    method FbDraw(sx: int, sy: int, ry0: int, ry1: int)
      requires Valid()
      modifies fb
      ensures forall r, c :: OnScreen(r, c) ==>
                fb[r, c] == if ry0 <= r < ry1 && AlphaAt(sprite, r - sy, c - sx) != 0
                            then Composite(sprite, true, sx, sy, r, c, bb[r, c]) else old(fb[r, c])
    {
      var y0, y1 := sy + sprite.y0, sy + sprite.y1;
      if y0 < ry0 { y0 := ry0; }
      if y1 > ry1 { y1 := ry1; }
      if y0 < 0 { y0 := 0; }
      if y1 > H { y1 := H; }
      var x0, x1 := sx + sprite.x0, sx + sprite.x1;
      if x0 < 0 { x0 := 0; }
      if x1 > W { x1 := W; }
      var r := y0;
      while r < y1
        invariant y0 <= r && (r <= y1 || r == y0)
        invariant forall i, c :: OnScreen(i, c) ==>
                    fb[i, c] == if y0 <= i < r && x0 <= c < x1 && AlphaAt(sprite, i - sy, c - sx) != 0
                                then Composite(sprite, true, sx, sy, i, c, bb[i, c]) else old(fb[i, c])
      {
        var c := x0;
        while c < x1
          invariant x0 <= c && (c <= x1 || c == x0)
          invariant forall i, k :: OnScreen(i, k) ==>
                      fb[i, k] == if (if i == r then x0 <= k < c else y0 <= i < r && x0 <= k < x1)
                                     && AlphaAt(sprite, i - sy, k - sx) != 0
                                  then Composite(sprite, true, sx, sy, i, k, bb[i, k]) else old(fb[i, k])
        {
          var a := sprite.alpha[r - sy][c - sx];
          if a != 0 {
            fb[r, c] := Blend(sprite.premul[r - sy][c - sx], a, bb[r, c]);
          }
          c := c + 1;
        }
        r := r + 1;
      }
    }

    /** `cursor_rect`: the bounds of the drawn sprite. */
    ghost function SpriteRect(): (r: Rect)
      reads this
    {
      Rect(curX + sprite.x0, curY + sprite.y0, sprite.x1 - sprite.x0, sprite.y1 - sprite.y0)
    }

    /** `move_sprite`, called with interrupts off: restore the old place, draw at the new one. Every
        pixel that was fresh stays fresh, whatever else is going on. */
    method MoveSprite(hx: int, hy: int)
      requires Valid() && on
      modifies fb, this`curX, this`curY
      ensures Valid() && curX == hx - HOT_X && curY == hy - HOT_Y
      ensures forall y, x :: OnScreen(y, x) && old(Fresh(y, x)) ==> Fresh(y, x)
      ensures forall y, x :: OnScreen(y, x) && !InRect(old(SpriteRect()), y, x) && !InRect(SpriteRect(), y, x) ==>
                               fb[y, x] == old(fb[y, x])
    {
      var nx, ny := hx - HOT_X, hy - HOT_Y;
      if nx == curX && ny == curY { return; }
      FbRestore(curX + sprite.x0, curY + sprite.y0, sprite.x1 - sprite.x0, sprite.y1 - sprite.y0);
      curX, curY := nx, ny;
      FbDraw(curX, curY, 0, H);
    }

    /** Cursor moves arriving one after another at an interruptible point. */
    method Interrupts(moves: seq<(int, int)>)
      requires Valid()
      modifies fb, this`curX, this`curY
      ensures Valid()
      ensures forall y, x :: OnScreen(y, x) && old(Fresh(y, x)) ==> Fresh(y, x)
      ensures on && moves != [] ==> var m := moves[|moves| - 1]; curX == m.0 - HOT_X && curY == m.1 - HOT_Y
    {
      if on {
        for i := 0 to |moves|
          invariant Valid()
          invariant forall y, x :: OnScreen(y, x) && old(Fresh(y, x)) ==> Fresh(y, x)
          invariant i > 0 ==> curX == moves[i - 1].0 - HOT_X && curY == moves[i - 1].1 - HOT_Y
        {
          MoveSprite(moves[i].0, moves[i].1);
        }
      }
    }

    /** `cursor_enable` with the software cursor. */
    method EnableCursor(mx: int, my: int)
      requires Valid()
      modifies fb, this`on, this`curX, this`curY
      ensures Valid() && on
      ensures forall y, x :: OnScreen(y, x) && old(Fresh(y, x)) ==> Fresh(y, x)
    {
      if !on {
        on, curX, curY := true, mx - HOT_X, my - HOT_Y;
        FbDraw(curX, curY, 0, H);
      }
    }

    /** `cursor_fb_repair`: re-blend the sprite over rows just copied. */
    method FbRepair(y0: int, y1: int)
      requires Valid()
      modifies fb
      ensures forall r, c :: OnScreen(r, c) ==>
                fb[r, c] == if on && y0 <= r < y1 && AlphaAt(sprite, r - curY, c - curX) != 0
                            then Composite(sprite, true, curX, curY, r, c, bb[r, c]) else old(fb[r, c])
    {
      if !on { return; }
      if curY + sprite.y1 <= y0 || curY + sprite.y0 >= y1 { return; }
      FbDraw(curX, curY, y0, y1);
    }

    // ---- drawing ----

    predicate InClip(y: int, x: int)
      reads this
    {
      cx0 <= x < cx1 && cy0 <= y < cy1
    }

    /** `graphics_set_clip`: the clip becomes the part of the rectangle that is on the screen. */
    method SetClip(x: int, y: int, w: int, h: int)
      requires Valid()
      modifies this`cx0, this`cy0, this`cx1, this`cy1
      ensures Valid()
      ensures forall py, px :: InClip(py, px) <==> InRect(Rect(x, y, w, h), py, px) && OnScreen(py, px)
    {
      var x', w' := x, w;
      if x' < 0 { w' := w' + x'; x' := 0; }
      var y', h' := y, h;
      if y' < 0 { h' := h' + y'; y' := 0; }
      cx0, cy0 := x', y';
      cx1, cy1 := Min(x' + w', W), Min(y' + h', H);
      if cx1 < cx0 { cx1 := cx0; }
      if cy1 < cy0 { cy1 := cy0; }
    }

    /** `putpixel`; `irq` are cursor moves that arrive between the write and the mark. */
    method PutPixel(x: int, y: int, color: Pixel, irq: seq<(int, int)>)
      requires Inv()
      modifies bb, fb, dx0, dx1, this`ylo, this`yhi, this`curX, this`curY
      ensures Inv()
      ensures forall r, c :: OnScreen(r, c) ==>
                bb[r, c] == if InClip(r, c) && r == y && c == x then color else old(bb[r, c])
    {
      if cx0 <= x < cx1 && cy0 <= y < cy1 {
        bb[y, x] := color;
        Interrupts(irq);
        MarkSpan(y, x, x + 1);
      }
    }

    /** `hline`: fill, then mark. */
    method HLine(x: int, y: int, len: int, color: Pixel, irq: seq<(int, int)>)
      requires Inv()
      modifies bb, fb, dx0, dx1, this`ylo, this`yhi, this`curX, this`curY
      ensures Inv()
      ensures forall r, c :: OnScreen(r, c) ==>
                bb[r, c] == if InClip(r, c) && r == y && x <= c < x + len then color else old(bb[r, c])
    {
      if y < cy0 || y >= cy1 { return; }
      var x', len' := x, len;
      if x' < cx0 { len' := len' - (cx0 - x'); x' := cx0; }
      if x' + len' > cx1 { len' := cx1 - x'; }
      if len' <= 0 { return; }
      forall c | x' <= c < x' + len' { bb[y, c] := color; }
      Interrupts(irq);
      MarkSpan(y, x', x' + len');
    }

    /** Mark a row's span, take interrupts, then write it. */
    method MarkedRow(y: int, xa: int, xb: int, px: int -> Pixel, irq: seq<(int, int)>)
      requires Inv() && 0 <= y < H && 0 <= xa <= xb <= W
      modifies bb, fb, dx0, dx1, this`ylo, this`yhi, this`curX, this`curY
      ensures Inv()
      ensures forall r, c :: OnScreen(r, c) ==> bb[r, c] == if r == y && xa <= c < xb then px(c) else old(bb[r, c])
    {
      MarkSpan(y, xa, xb);
      Interrupts(irq);
      forall c | xa <= c < xb { bb[y, c] := px(c); }
    }

    /** `rect_fill`. */
    method RectFill(x: int, y: int, w: int, h: int, color: Pixel, irqs: int -> seq<(int, int)>)
      requires Inv()
      modifies bb, fb, dx0, dx1, this`ylo, this`yhi, this`curX, this`curY
      ensures Inv()
      ensures forall r, c :: OnScreen(r, c) ==>
                bb[r, c] == if InClip(r, c) && InRect(Rect(x, y, w, h), r, c) then color else old(bb[r, c])
    {
      var x0, y0 := Max(x, cx0), Max(y, cy0);
      var x1, y1 := Min(x + w, cx1), Min(y + h, cy1);
      if x0 >= x1 || y0 >= y1 { return; }
      for j := y0 to y1
        invariant Inv()
        invariant forall r, c :: OnScreen(r, c) ==>
                    bb[r, c] == if y0 <= r < j && x0 <= c < x1 then color else old(bb[r, c])
      {
        MarkedRow(j, x0, x1, _ => color, irqs(j));
      }
    }

    /** `graphics_blit_pixels`: a caller's image, clipped. */
    method BlitPixels(x: int, y: int, src: seq<Pixel>, w: int, h: int, stride: int, irqs: int -> seq<(int, int)>)
      requires Inv() && HoldsImage(src, w, h, stride)
      modifies bb, fb, dx0, dx1, this`ylo, this`yhi, this`curX, this`curY
      ensures Inv()
      ensures forall r, c :: OnScreen(r, c) ==>
                bb[r, c] == if InClip(r, c) && InRect(Rect(x, y, w, h), r, c)
                            then src[At(r - y, c - x, stride)] else old(bb[r, c])
    {
      var x0, y0 := Max(x, cx0), Max(y, cy0);
      var x1, y1 := Min(x + w, cx1), Min(y + h, cy1);
      if x0 >= x1 || y0 >= y1 { return; }
      for j := y0 to y1
        invariant Inv()
        invariant forall r, c :: OnScreen(r, c) ==>
                    bb[r, c] == if y0 <= r < j && x0 <= c < x1 then src[At(r - y, c - x, stride)] else old(bb[r, c])
      {
        MarkedRow(j, x0, x1, c => if x0 <= c < x1 then src[At(j - y, c - x, stride)] else 0, irqs(j));
      }
    }

    /** Copy a row's stretch to another row or place (memmove), take interrupts, then mark it. */
    method MovedRow(y: int, ny: int, xs: int, xe: int, dx: int, irq: seq<(int, int)>)
      requires Inv() && 0 <= y < H && 0 <= ny < H && 0 <= xs < xe <= W && 0 <= xs + dx && xe + dx <= W
      modifies bb, fb, dx0, dx1, this`ylo, this`yhi, this`curX, this`curY
      ensures Inv()
      ensures forall r, c :: OnScreen(r, c) ==>
                bb[r, c] == if r == ny && xs <= c - dx < xe then old(bb[y, c - dx]) else old(bb[r, c])
    {
      forall c | xs <= c < xe { bb[ny, c + dx] := bb[y, c]; }
      Interrupts(irq);
      MarkSpan(ny, xs + dx, xe + dx);
    }

    /** `graphics_blit_rect`: overlapping or not, the destination gets the old source pixels. */
    method BlitRect(sx: int, sy: int, w: int, h: int, dx: int, dy: int, irqs: int -> seq<(int, int)>)
      requires Inv()
      modifies bb, fb, dx0, dx1, this`ylo, this`yhi, this`curX, this`curY
      ensures Inv()
      ensures forall r, c :: OnScreen(r, c) ==>
                bb[r, c] == if InRect(Rect(sx, sy, w, h), r - dy, c - dx) && OnScreen(r - dy, c - dx)
                            then old(bb[r - dy, c - dx]) else old(bb[r, c])
    {
      var x0, y0 := Max(sx, 0), Max(sy, 0);
      var x1, y1 := Min(sx + w, W), Min(sy + h, H);
      if x0 >= x1 || y0 >= y1 { return; }
      var ystep := if dy > 0 then -1 else 1;
      var y := if dy > 0 then y1 - 1 else y0;
      while y0 <= y < y1
        invariant y0 - 1 <= y <= y1 && Inv()
        invariant forall r, c :: OnScreen(r, c) ==>
                    bb[r, c] == if y0 <= r - dy < y1 && (if dy > 0 then y < r - dy else r - dy < y) && x0 <= c - dx < x1
                                then old(bb[r - dy, c - dx]) else old(bb[r, c])
        decreases if dy > 0 then y - y0 else y1 - y
      {
        var ny := y + dy;
        if 0 <= ny < H {
          var xs, xe := Max(x0, -dx), Min(x1, W - dx);
          if xs < xe {
            MovedRow(y, ny, xs, xe, dx, irqs(y));
          }
        }
        y := y + ystep;
      }
    }

    /** `graphics_fill`: the whole screen, then `mark_all`. */
    method Fill(color: Pixel)
      requires Inv()
      modifies bb, dx0, dx1, this`ylo, this`yhi
      ensures Inv()
      ensures forall r, c :: OnScreen(r, c) ==> bb[r, c] == color && Dirty(r, c)
    {
      forall r, c | 0 <= r < H && 0 <= c < W { bb[r, c] := color; }
      MarkAll();
    }

    method MarkAll()
      requires Shape() && ClipOk() && TodoOk()
      modifies dx0, dx1, this`ylo, this`yhi
      ensures Inv() && forall r, c :: OnScreen(r, c) ==> Dirty(r, c)
    {
      for y := 0 to H
        invariant forall r :: 0 <= r < y ==> dx0[r] == 0 && dx1[r] == W
      {
        dx0[y], dx1[y] := 0, W;
      }
      ylo, yhi := 0, H;
    }

    // ---- collecting damage ----

    /** The run of dirty rows starting at `y` and the union of their spans. */
    method UnionRun(y: int, yend: int) returns (xa: int, xb: int, y1: int)
      requires Valid() && 0 <= y < yend <= H && dx0[y] < dx1[y]
      ensures y < y1 <= yend && 0 <= xa < xb <= W
      ensures forall r :: y <= r < y1 ==> dx0[r] < dx1[r] && xa <= dx0[r] && dx1[r] <= xb
      ensures y1 == yend || dx0[y1] >= dx1[y1]
    {
      xa, xb, y1 := dx0[y], dx1[y], y + 1;
      while y1 < yend && dx0[y1] < dx1[y1]
        invariant y < y1 <= yend && 0 <= xa < xb <= W
        invariant forall r :: y <= r < y1 ==> dx0[r] < dx1[r] && xa <= dx0[r] && dx1[r] <= xb
      {
        xa, xb := Min(dx0[y1], xa), Max(dx1[y1], xb);
        y1 := y1 + 1;
      }
    }

    method ClearRows(y: int, y1: int)
      requires Shape() && 0 <= y <= y1 <= H
      modifies dx0, dx1
      ensures forall r :: 0 <= r < H ==> dx0[r] == (if y <= r < y1 then W else old(dx0[r]))
                                         && dx1[r] == (if y <= r < y1 then 0 else old(dx1[r]))
    {
      for r := y to y1
        invariant forall i :: 0 <= i < H ==> dx0[i] == (if y <= i < r then W else old(dx0[i]))
                                             && dx1[i] == (if y <= i < r then 0 else old(dx1[i]))
      {
        dx0[r], dx1[r] := W, 0;
      }
    }

    /** `collect_damage`: rectangles covering every dirty pixel, all on the screen and at most
        MAXRECT of them; the damage is cleared. */
    method CollectDamage() returns (out: seq<Rect>)
      requires Valid()
      modifies dx0, dx1, this`ylo, this`yhi
      ensures Valid() && ylo == H && yhi == 0
      ensures |out| <= MAXRECT && forall i :: 0 <= i < |out| ==> OnScreenRect(out[i])
      ensures forall y, x :: OnScreen(y, x) && old(Dirty(y, x)) ==> InSome(out, y, x)
      ensures forall y, x :: OnScreen(y, x) ==> !Dirty(y, x)
    {
      out := [];
      var yend := yhi;
      var y := ylo;
      while y < yend
        invariant 0 <= y && SpansOk() && ylo == old(ylo) && yhi == yend == old(yhi) && ylo <= y
        invariant forall r :: y <= r < H ==> dx0[r] == old(dx0[r]) && dx1[r] == old(dx1[r])
        invariant forall r :: 0 <= r < y && r < H ==> dx0[r] >= dx1[r]
        invariant |out| <= MAXRECT && forall i :: 0 <= i < |out| ==> OnScreenRect(out[i]) && out[i].y + out[i].h <= y
        invariant forall r, x :: OnScreen(r, x) && r < y && old(Dirty(r, x)) ==> InSome(out, r, x)
      {
        if dx0[y] >= dx1[y] {
          y := y + 1;
          continue;
        }
        var xa, xb, y1 := UnionRun(y, yend);
        ClearRows(y, y1);
        AddCovers(out, xa, y, xb, y1);
        out := AddRun(out, xa, y, xb, y1);
        y := y1;
      }
      ylo, yhi := H, 0;
    }

    // ---- presenting ----

    /** One interrupt-free section of `fb_present`: at most FLUSH_CHUNK rows of the first rectangle. */
    method PresentChunk()
      requires Inv() && todo != []
      modifies fb, this`todo
      ensures Inv() && todo == AfterChunk(old(todo))
      ensures forall y, x :: OnScreen(y, x) && InRect(FirstChunk(old(todo)), y, x) ==> Fresh(y, x)
      ensures forall y, x :: OnScreen(y, x) && old(Fresh(y, x)) ==> Fresh(y, x)
    {
      var q := todo[0];
      var y1 := Min(q.y + FLUSH_CHUNK, q.y + q.h);
      CopyChunk(Rect(q.x, q.y, q.w, y1 - q.y));
      todo := (if y1 < q.y + q.h then [Rect(q.x, y1, q.w, q.y + q.h - y1)] else []) + todo[1..];
      StillPending(old(todo));
    }

    /** The start of `graphics_flush`: the damage becomes the list to present. */
    method BeginFlush()
      requires Inv() && todo == []
      modifies dx0, dx1, this`ylo, this`yhi, this`todo
      ensures Inv() && |todo| <= MAXRECT
      ensures forall y, x :: OnScreen(y, x) ==> !Dirty(y, x)
    {
      if yhi <= ylo { return; }
      todo := CollectDamage();
    }

    /** A whole `graphics_flush`, with cursor moves arriving between its chunks: afterwards the
        framebuffer is the scene under the sprite and nothing else. */
    method Flush(irqs: int -> seq<(int, int)>)
      requires Inv() && todo == []
      modifies fb, dx0, dx1, this`ylo, this`yhi, this`todo, this`curX, this`curY
      ensures Inv() && todo == []
      ensures forall y, x :: OnScreen(y, x) ==> Fresh(y, x) && !Dirty(y, x)
      ensures forall y, x :: OnScreen(y, x) && !(on && InRect(SpriteRect(), y, x)) ==> fb[y, x] == bb[y, x]
    {
      BeginFlush();
      var k := 0;
      while todo != []
        invariant Inv()
        invariant forall y, x :: OnScreen(y, x) ==> !Dirty(y, x)
        decreases RowsLeft(todo)
      {
        ChunkShrinks(todo);
        PresentChunk();
        Interrupts(irqs(k));
        k := k + 1;
      }
    }

    /** Copy a chunk and repair the sprite over its rows. */
    method CopyChunk(k: Rect)
      requires Valid() && OnScreenRect(k)
      modifies fb
      ensures forall y, x :: OnScreen(y, x) && InRect(k, y, x) ==> Fresh(y, x)
      ensures forall y, x :: OnScreen(y, x) && old(Fresh(y, x)) ==> Fresh(y, x)
    {
      var r := k.y;
      while r < k.y + k.h
        invariant k.y <= r <= k.y + k.h
        invariant forall i, c :: OnScreen(i, c) ==>
                    fb[i, c] == if k.y <= i < r && k.x <= c < k.x + k.w then bb[i, c] else old(fb[i, c])
      {
        forall c | k.x <= c < k.x + k.w { fb[r, c] := bb[r, c]; }
        r := r + 1;
      }
      FbRepair(k.y, k.y + k.h);
    }
  }

  /** One more run of dirty rows: a rectangle of its own, or the last one grown over it when all
      slots are taken. */
  function AddRun(out: seq<Rect>, xa: int, y: int, xb: int, y1: int): (r: seq<Rect>)
  {
    if |out| == MAXRECT then
      var l := out[MAXRECT - 1];
      var lx1 := Max(l.x + l.w, xb);
      var x := Min(xa, l.x);
      out[MAXRECT - 1 := Rect(x, l.y, lx1 - x, y1 - l.y)]
    else out + [Rect(xa, y, xb - xa, y1 - y)]
  }

  /** Adding a run covers it and keeps everything covered before. */
  lemma AddCovers(out: seq<Rect>, xa: int, y: int, xb: int, y1: int)
    requires |out| <= MAXRECT && y < y1 && xa < xb
    requires forall i :: 0 <= i < |out| ==> out[i].y + out[i].h <= y && 0 < out[i].h
    ensures |AddRun(out, xa, y, xb, y1)| <= MAXRECT
    ensures forall r, x :: InSome(out, r, x) ==> InSome(AddRun(out, xa, y, xb, y1), r, x)
    ensures forall r, x :: y <= r < y1 && xa <= x < xb ==> InSome(AddRun(out, xa, y, xb, y1), r, x)
  {
    var now := AddRun(out, xa, y, xb, y1);
    forall r, x | InSome(out, r, x)
      ensures InSome(now, r, x)
    {
      var i :| 0 <= i < |out| && InRect(out[i], r, x);
      assert InRect(now[i], r, x);
    }
    forall r, x | y <= r < y1 && xa <= x < xb
      ensures InSome(now, r, x)
    {
      assert InRect(now[|now| - 1], r, x);
    }
  }

  /** The rows presented next, and what is left after them. */
  function FirstChunk(todo: seq<Rect>): (r: Rect)
    requires todo != []
  {
    Rect(todo[0].x, todo[0].y, todo[0].w, Min(FLUSH_CHUNK, todo[0].h))
  }

  function AfterChunk(todo: seq<Rect>): (r: seq<Rect>)
    requires todo != []
  {
    var q := todo[0];
    (if FLUSH_CHUNK < q.h then [Rect(q.x, q.y + FLUSH_CHUNK, q.w, q.h - FLUSH_CHUNK)] else []) + todo[1..]
  }

  /** Presenting a chunk off the first rectangle loses no other pending pixel. */
  lemma StillPending(was: seq<Rect>)
    requires was != []
    ensures forall y, x :: InSome(was, y, x) ==> InRect(FirstChunk(was), y, x) || InSome(AfterChunk(was), y, x)
  {
    var now := AfterChunk(was);
    forall y, x | InSome(was, y, x)
      ensures InRect(FirstChunk(was), y, x) || InSome(now, y, x)
    {
      var i :| 0 <= i < |was| && InRect(was[i], y, x);
      if i > 0 {
        assert now[|now| - |was| + i] == was[i];
      } else if !InRect(FirstChunk(was), y, x) {
        assert InRect(now[0], y, x);
      }
    }
  }

  /** Anything that can happen to the screen; `irqs` are cursor moves interrupting the operation. */
  datatype Event =
    | EvPutPixel(x: int, y: int, color: Pixel)
    | EvHLine(x: int, y: int, len: int, color: Pixel)
    | EvRectFill(x: int, y: int, w: int, h: int, color: Pixel)
    | EvBlitPixels(x: int, y: int, src: seq<Pixel>, w: int, h: int, stride: int)
    | EvBlitRect(x: int, y: int, w: int, h: int, dx: int, dy: int)
    | EvFill(color: Pixel)
    | EvClip(x: int, y: int, w: int, h: int)
    | EvBeginFlush
    | EvPresentChunk
    | EvMoveCursor(x: int, y: int)
    | EvEnableCursor(x: int, y: int)

  /** The invariant over every run: any sequence of drawing, flush steps and cursor moves, with any
      cursor moves inside the drawing itself. */
  method Run(s: Screen, events: seq<(Event, int -> seq<(int, int)>)>)
    requires s.Inv()
    requires forall i :: 0 <= i < |events| && events[i].0.EvBlitPixels? ==>
               var e := events[i].0; HoldsImage(e.src, e.w, e.h, e.stride)
    modifies s, s.bb, s.fb, s.dx0, s.dx1
    ensures s.Inv()
  {
    for i := 0 to |events|
      invariant s.Inv()
    {
      Step(s, events[i].0, events[i].1);
    }
  }

  /** One event; the flush only starts when none is in progress. */
  method Step(s: Screen, e: Event, irqs: int -> seq<(int, int)>)
    requires s.Inv()
    requires e.EvBlitPixels? ==> HoldsImage(e.src, e.w, e.h, e.stride)
    modifies s, s.bb, s.fb, s.dx0, s.dx1
    ensures s.Inv()
    ensures e.EvPresentChunk? && old(s.todo) != [] ==> s.todo == AfterChunk(old(s.todo))
    ensures e.EvMoveCursor? && s.on ==> s.curX == e.x - HOT_X && s.curY == e.y - HOT_Y
    ensures e.EvBeginFlush? || e.EvPresentChunk? || e.EvMoveCursor? || e.EvEnableCursor? ==>
              forall y, x :: s.OnScreen(y, x) ==> s.bb[y, x] == old(s.bb[y, x])
  {
    match e
    case EvPutPixel(x, y, color) => s.PutPixel(x, y, color, irqs(0));
    case EvHLine(x, y, len, color) => s.HLine(x, y, len, color, irqs(0));
    case EvRectFill(x, y, w, h, color) => s.RectFill(x, y, w, h, color, irqs);
    case EvBlitPixels(x, y, src, w, h, stride) => s.BlitPixels(x, y, src, w, h, stride, irqs);
    case EvBlitRect(x, y, w, h, dx, dy) => s.BlitRect(x, y, w, h, dx, dy, irqs);
    case EvFill(color) => s.Fill(color);
    case EvClip(x, y, w, h) => s.SetClip(x, y, w, h);
    case EvBeginFlush => if s.todo == [] { s.BeginFlush(); }
    case EvPresentChunk => if s.todo != [] { s.PresentChunk(); }
    case EvMoveCursor(x, y) => s.Interrupts([(x, y)]);
    case EvEnableCursor(x, y) => s.EnableCursor(x, y);
  }

  /** From power-on: whatever was drawn, half flushed and interrupted, finishing the flush in progress and
      flushing once more leaves the framebuffer showing the scene under the sprite. */
  method Session(w: int, h: int, sprite: Sprite, video: (nat, nat) -> Pixel,
                 events: seq<(Event, int -> seq<(int, int)>)>, irqs: int -> seq<(int, int)>) returns (s: Screen)
    requires 0 < w && 0 < h && SpriteOk(sprite)
    requires forall i :: 0 <= i < |events| && events[i].0.EvBlitPixels? ==>
               var e := events[i].0; HoldsImage(e.src, e.w, e.h, e.stride)
    ensures fresh(s) && s.Inv() && s.W == w && s.H == h && s.sprite == sprite
    ensures forall y, x :: s.OnScreen(y, x) ==> s.Fresh(y, x)
  {
    s := new Screen(w, h, sprite, video);
    Run(s, events);
    while s.todo != []
      invariant s.Inv()
      decreases RowsLeft(s.todo)
    {
      ChunkShrinks(s.todo);
      s.PresentChunk();
    }
    s.Flush(irqs);
  }

  lemma ChunkShrinks(todo: seq<Rect>)
    requires todo != [] && forall i :: 0 <= i < |todo| ==> 0 < todo[i].h
    ensures 0 <= RowsLeft(AfterChunk(todo)) < RowsLeft(todo)
  {
    RowsArePositive(todo[1..]);
    if FLUSH_CHUNK < todo[0].h {
      assert AfterChunk(todo)[1..] == todo[1..];
    } else {
      assert AfterChunk(todo) == todo[1..];
    }
  }

  lemma {:induction false} RowsArePositive(todo: seq<Rect>)
    requires forall i :: 0 <= i < |todo| ==> 0 < todo[i].h
    ensures RowsLeft(todo) >= 0
  {
    if todo != [] { RowsArePositive(todo[1..]); }
  }

  /** Rows left to present. */
  function RowsLeft(todo: seq<Rect>): (n: int)
  {
    if todo == [] then 0 else todo[0].h + RowsLeft(todo[1..])
  }
}
