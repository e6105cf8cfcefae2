/** Clipping and damage tracking of sdk/wm.c, seen from one pixel: where the bounds
    go, and what each call does to that pixel of the two buffers. */
module DamageSpec {
  /** Inclusive bounds; empty when a minimum exceeds its maximum. */
  datatype Box = Box(minX: int, minY: int, maxX: int, maxY: int)

  predicate In(b: Box, x: int, y: int) {
    b.minX <= x <= b.maxX && b.minY <= y <= b.maxY
  }

  /** The screen and what is on the wallpaper. */
  datatype Screen = Screen(width: int, height: int, loaded: bool, background: nat, wallpaper: seq<nat>)

  const ROW: nat := 1024     // pixels per row of the wallpaper buffer

  predicate ScreenOk(s: Screen) {
    && s.width > 0 && s.height > 0
    && (s.height - 1) * ROW + s.width <= |s.wallpaper|
    && forall i :: 0 <= i < |s.wallpaper| ==> s.wallpaper[i] < 0x10000
  }

  predicate OnScreen(s: Screen, x: int, y: int) { 0 <= x < s.width && 0 <= y < s.height }

  function Whole(s: Screen): Box { Box(0, 0, s.width - 1, s.height - 1) }

  /** A rectangle given by corner and size. */
  function RectBox(x: int, y: int, w: int, h: int): Box { Box(x, y, x + w - 1, y + h - 1) }

  // ---------------------------------------------------------------- bounds

  /** `set_clipping_rect` */
  function ClipTo(s: Screen, r: Box): Box {
    Box(if r.minX < 0 then 0 else r.minX, if r.minY < 0 then 0 else r.minY,
        if r.maxX >= s.width then s.width - 1 else r.maxX, if r.maxY >= s.height then s.height - 1 else r.maxY)
  }

  /** `add_dirty_rect` */
  function AddDirty(s: Screen, d: Box, r: Box): Box {
    var c := ClipTo(s, r);
    Box(if r.minX < d.minX then c.minX else d.minX, if r.minY < d.minY then c.minY else d.minY,
        if r.maxX > d.maxX then c.maxX else d.maxX, if r.maxY > d.maxY then c.maxY else d.maxY)
  }

  /** The bounds `swap_buffers` leaves: nothing is dirty. */
  function Clean(s: Screen): Box { Box(s.width, s.height, 0, 0) }

  /** Dirty and clip bounds never let a write leave the buffer. */
  predicate Safe(s: Screen, b: Box) {
    b.minX >= 0 && b.minY >= 0 && b.maxX < s.width && b.maxY < s.height
  }

  /** The C code addresses a pixel as `y * width + x`: on screen that is in the buffer,
      and different pixels have different addresses. */
  lemma RowMajor(s: Screen, x: int, y: int, u: int, v: int)
    requires OnScreen(s, x, y) && OnScreen(s, u, v)
    ensures 0 <= y * s.width + x < s.height * s.width
    ensures y * s.width + x == v * s.width + u <==> x == u && y == v
  {
    RowsApart(y, s.height, s.width);
    if y < v { RowsApart(y, v, s.width); }
    if v < y { RowsApart(v, y, s.width); }
  }

  lemma RowsApart(a: nat, b: nat, w: nat)
    requires a < b
    ensures a * w >= 0 && a * w + w <= b * w
  {
    var d := b - a;
    assert b * w == a * w + d * w;
    assert d * w == (d - 1) * w + w && (d - 1) * w >= 0;
  }

  // ---------------------------------------------------------------- drawing

  datatype Cmd =
    | Clip(x: int, y: int, w: int, h: int)
    | ResetClip
    | Rect(x: int, y: int, w: int, h: int, color: nat)
    | Pixel(x: int, y: int, color: nat)
    | Wallpaper

  /** RGB565 to the 32-bit colour `draw_wallpaper` stores. */
  function Expand(c: nat): nat
    requires c < 0x10000
  {
    var r, g, b := c / 256 / 8 * 8, c / 8 / 4 % 64 * 4, c % 32 * 8;
    r * 0x10000 + g * 0x100 + b
  }

  function NextClip(s: Screen, clip: Box, cmd: Cmd): Box {
    match cmd
    case Clip(x, y, w, h) => ClipTo(s, RectBox(x, y, w, h))
    case ResetClip => Whole(s)
    case _ => clip
  }

  /** What a command makes of colour `c` at an on-screen pixel. */
  function Paint(s: Screen, cmd: Cmd, clip: Box, dirty: Box, x: int, y: int, c: nat): nat
    requires ScreenOk(s) && OnScreen(s, x, y)
  {
    match cmd
    case Rect(rx, ry, w, h, color) =>
      if In(RectBox(rx, ry, w, h), x, y) && In(clip, x, y) && In(dirty, x, y) then color else c
    case Pixel(px, py, color) =>
      if x == px && y == py && In(clip, x, y) && In(dirty, x, y) then color else c
    case Wallpaper =>
      if s.loaded then (if In(dirty, x, y) then Expand(s.wallpaper[y * ROW + x]) else c)
      else if In(RectBox(0, 0, 1024, 768), x, y) && In(clip, x, y) && In(dirty, x, y) then s.background else c
    case _ => c
  }

  function PaintAll(s: Screen, cmds: seq<Cmd>, clip: Box, dirty: Box, x: int, y: int, c: nat): nat
    requires ScreenOk(s) && OnScreen(s, x, y)
    decreases |cmds|
  {
    if cmds == [] then c
    else PaintAll(s, cmds[1..], NextClip(s, clip, cmds[0]), dirty, x, y, Paint(s, cmds[0], clip, dirty, x, y, c))
  }

  function ClipAfter(s: Screen, cmds: seq<Cmd>, clip: Box): Box
    decreases |cmds|
  {
    if cmds == [] then clip else ClipAfter(s, cmds[1..], NextClip(s, clip, cmds[0]))
  }
}

/** Damage tracking is exact: a partial copy shows what a full redraw would show. */
module DamageProofs {
  import opened DamageSpec

  lemma BoundsStaySafe(s: Screen, d: Box, r: Box)
    requires ScreenOk(s)
    ensures var c := ClipTo(s, r); c.minX >= 0 && c.minY >= 0 && c.maxX < s.width && c.maxY < s.height
    ensures Safe(s, d) ==> Safe(s, AddDirty(s, d, r))
    ensures Safe(s, Clean(s)) && Safe(s, Whole(s))
  {
  }

  /** The dirty box only grows, and covers the on-screen part of what was added. */
  lemma AddDirtyCovers(s: Screen, d: Box, r: Box, x: int, y: int)
    requires Safe(s, d) && OnScreen(s, x, y)
    ensures In(d, x, y) ==> In(AddDirty(s, d, r), x, y)
    ensures In(r, x, y) ==> In(AddDirty(s, d, r), x, y)
  {
  }

  function AddAll(s: Screen, d: Box, rs: seq<Box>): Box
    decreases |rs|
  {
    if rs == [] then d else AddAll(s, AddDirty(s, d, rs[0]), rs[1..])
  }

  /** Whatever was added since the last swap is covered, in any order and number. */
  lemma {:induction false} AddedSinceSwapCovered(s: Screen, d: Box, rs: seq<Box>, x: int, y: int)
    requires ScreenOk(s) && Safe(s, d) && OnScreen(s, x, y)
    ensures Safe(s, AddAll(s, d, rs))
    ensures In(d, x, y) || (exists i :: 0 <= i < |rs| && In(rs[i], x, y)) ==> In(AddAll(s, d, rs), x, y)
    decreases |rs|
  {
    if rs != [] {
      BoundsStaySafe(s, d, rs[0]);
      AddDirtyCovers(s, d, rs[0], x, y);
      AddedSinceSwapCovered(s, AddDirty(s, d, rs[0]), rs[1..], x, y);
      if exists i :: 1 <= i < |rs| && In(rs[i], x, y) {
        var i :| 1 <= i < |rs| && In(rs[i], x, y);
        assert rs[1..][i - 1] == rs[i];
      }
    }
  }

  /** Drawing inside the damage is drawing in full; outside it nothing changes. */
  lemma {:induction false} PaintInsideDamage(s: Screen, cmds: seq<Cmd>, clip: Box, dirty: Box, x: int, y: int, c: nat)
    requires ScreenOk(s) && OnScreen(s, x, y)
    ensures PaintAll(s, cmds, clip, dirty, x, y, c) ==
      if In(dirty, x, y) then PaintAll(s, cmds, clip, Whole(s), x, y, c) else c
    decreases |cmds|
  {
    if cmds != [] {
      PaintInsideDamage(s, cmds[1..], NextClip(s, clip, cmds[0]), dirty, x, y, Paint(s, cmds[0], clip, dirty, x, y, c));
    }
  }

  // ---------------------------------------------------------------- one pixel over a run

  /** One pixel of `framebuffer` and `back_buffer`. */
  datatype Pair = Pair(front: nat, back: nat)

  datatype State = State(clip: Box, dirty: Box, pixel: Pair)

  datatype Event = Draw(cmd: Cmd) | Damage(x: int, y: int, w: int, h: int) | DamageAll | Swap

  function Step(s: Screen, st: State, e: Event, x: int, y: int): State
    requires ScreenOk(s) && OnScreen(s, x, y)
  {
    match e
    case Draw(cmd) =>
      State(NextClip(s, st.clip, cmd), st.dirty,
            Pair(st.pixel.front, Paint(s, cmd, st.clip, st.dirty, x, y, st.pixel.back)))
    case Damage(rx, ry, w, h) => st.(dirty := AddDirty(s, st.dirty, RectBox(rx, ry, w, h)))
    case DamageAll => st.(dirty := Whole(s))
    case Swap =>
      if st.dirty.minX > st.dirty.maxX || st.dirty.minY > st.dirty.maxY then st
      else st.(dirty := Clean(s),
               pixel := if In(st.dirty, x, y) then Pair(st.pixel.back, st.pixel.back) else st.pixel)
  }

  /** The buffers differ only inside the damage. */
  ghost predicate Inv(s: Screen, st: State, x: int, y: int) {
    Safe(s, st.dirty) && (st.pixel.front == st.pixel.back || In(st.dirty, x, y))
  }

  function Run(s: Screen, st: State, es: seq<Event>, x: int, y: int): State
    requires ScreenOk(s) && OnScreen(s, x, y)
    decreases |es|
  {
    if es == [] then st else Run(s, Step(s, st, es[0], x, y), es[1..], x, y)
  }

  lemma {:induction false} RunKeepsDamage(s: Screen, st: State, es: seq<Event>, x: int, y: int)
    requires ScreenOk(s) && OnScreen(s, x, y) && Inv(s, st, x, y)
    ensures Inv(s, Run(s, st, es, x, y), x, y)
    decreases |es|
  {
    if es != [] {
      if es[0].Damage? {
        var r := RectBox(es[0].x, es[0].y, es[0].w, es[0].h);
        BoundsStaySafe(s, st.dirty, r);
        AddDirtyCovers(s, st.dirty, r, x, y);
      }
      RunKeepsDamage(s, Step(s, st, es[0], x, y), es[1..], x, y);
    }
  }

  /** From the first marked screen on, over any mix of events, every swap makes the two
      buffers equal at every pixel. */
  lemma SwapShowsBackBuffer(s: Screen, clip: Box, front: nat, back: nat, es: seq<Event>, x: int, y: int)
    requires ScreenOk(s) && OnScreen(s, x, y)
    ensures var st := Step(s, Run(s, State(clip, Whole(s), Pair(front, back)), es, x, y), Swap, x, y);
      st.pixel.front == st.pixel.back
  {
    RunKeepsDamage(s, State(clip, Whole(s), Pair(front, back)), es, x, y);
  }

  function Draws(cmds: seq<Cmd>): (es: seq<Event>)
    ensures |es| == |cmds|
  {
    if cmds == [] then [] else [Draw(cmds[0])] + Draws(cmds[1..])
  }

  lemma {:induction false} RunDraws(s: Screen, st: State, cmds: seq<Cmd>, x: int, y: int)
    requires ScreenOk(s) && OnScreen(s, x, y)
    ensures Run(s, st, Draws(cmds), x, y) ==
      State(ClipAfter(s, cmds, st.clip), st.dirty,
            Pair(st.pixel.front, PaintAll(s, cmds, st.clip, st.dirty, x, y, st.pixel.back)))
    decreases |cmds|
  {
    if cmds != [] {
      assert Draws(cmds)[1..] == Draws(cmds[1..]);
      RunDraws(s, Step(s, st, Draw(cmds[0]), x, y), cmds[1..], x, y);
    }
  }

  /** A frame drawn and swapped under damage `st.dirty`, next to the same frame drawn
      with the whole screen marked: the pixel comes out the same exactly when it lies in
      the damage or the full redraw would not have changed it. */
  lemma PartialEqualsFullIff(s: Screen, st: State, cmds: seq<Cmd>, x: int, y: int)
    requires ScreenOk(s) && OnScreen(s, x, y) && Inv(s, st, x, y)
    ensures var full := st.(dirty := Whole(s));
      var partial := Step(s, Run(s, st, Draws(cmds), x, y), Swap, x, y);
      var complete := Step(s, Run(s, full, Draws(cmds), x, y), Swap, x, y);
      partial.pixel.front == complete.pixel.front <==>
        In(st.dirty, x, y) || PaintAll(s, cmds, st.clip, Whole(s), x, y, st.pixel.back) == st.pixel.front
  {
    hide Run, PaintAll;
    var full := st.(dirty := Whole(s));
    RunDraws(s, st, cmds, x, y);
    RunDraws(s, full, cmds, x, y);
    PaintInsideDamage(s, cmds, st.clip, st.dirty, x, y, st.pixel.back);
  }

  // ---------------------------------------------------------------- exactly which pixels

  /** A clip rectangle lets through the pixels on the screen that lie in it, and no other. */
  lemma ClipLetsThrough(s: Screen, clip: Box, x: int, y: int, w: int, h: int, px: int, py: int)
    requires ScreenOk(s)
    ensures In(NextClip(s, clip, Clip(x, y, w, h)), px, py) <==>
      0 <= px < s.width && 0 <= py < s.height && x <= px < x + w && y <= py < y + h
    ensures In(NextClip(s, clip, ResetClip), px, py) <==> 0 <= px < s.width && 0 <= py < s.height
  {
  }

  /** The damage is no larger than it must be: what was damaged and the on-screen part of
      the new rectangle lie in no smaller box. */
  lemma AddDirtyLeast(s: Screen, d: Box, x: int, y: int, w: int, h: int, b: Box)
    requires ScreenOk(s) && Safe(s, d) && (d == Clean(s) || (d.minX <= d.maxX && d.minY <= d.maxY))
    requires w > 0 && h > 0 && x < s.width && x + w > 0 && y < s.height && y + h > 0
    requires forall px, py :: OnScreen(s, px, py) && (In(d, px, py) || In(RectBox(x, y, w, h), px, py)) ==>
                                In(b, px, py)
    ensures forall px, py :: In(AddDirty(s, d, RectBox(x, y, w, h)), px, py) ==> In(b, px, py)
  {
    var r := RectBox(x, y, w, h);
    var c := ClipTo(s, r);
    assert OnScreen(s, c.minX, c.minY) && In(r, c.minX, c.minY);
    assert OnScreen(s, c.maxX, c.maxY) && In(r, c.maxX, c.maxY);
    if d != Clean(s) {
      assert OnScreen(s, d.minX, d.minY) && In(d, d.minX, d.minY);
      assert OnScreen(s, d.maxX, d.maxY) && In(d, d.maxX, d.maxY);
    }
  }

  /** A swap leaves no damage; marking the screen damages every pixel. */
  lemma SwapLeavesNoDamage(s: Screen, st: State, x: int, y: int)
    requires ScreenOk(s) && OnScreen(s, x, y) && Safe(s, st.dirty)
    ensures !In(Step(s, st, Swap, x, y).dirty, x, y)
    ensures In(Step(s, st, DamageAll, x, y).dirty, x, y)
  {
  }

  lemma {:induction false} PaintConcat(s: Screen, a: seq<Cmd>, b: seq<Cmd>, clip: Box, dirty: Box, x: int, y: int,
                                       c: nat)
    requires ScreenOk(s) && OnScreen(s, x, y)
    ensures PaintAll(s, a + b, clip, dirty, x, y, c) ==
      PaintAll(s, b, ClipAfter(s, a, clip), dirty, x, y, PaintAll(s, a, clip, dirty, x, y, c))
    decreases |a|
  {
    if a == [] {
      assert a + b == b;
    } else {
      assert (a + b)[1..] == a[1..] + b;
      PaintConcat(s, a[1..], b, NextClip(s, clip, a[0]), dirty, x, y, Paint(s, a[0], clip, dirty, x, y, c));
    }
  }

  /** `n` pixels from (x, y) on to the right, one by one. */
  function RowOf(x: int, y: int, n: nat, color: nat): seq<Cmd> {
    if n == 0 then [] else RowOf(x, y, n - 1, color) + [Pixel(x + n - 1, y, color)]
  }

  /** `h` such rows. */
  function PixelsOf(x: int, y: int, w: nat, h: nat, color: nat): seq<Cmd> {
    if h == 0 then [] else PixelsOf(x, y, w, h - 1, color) + RowOf(x, y + h - 1, w, color)
  }

  lemma {:induction false} RowShows(s: Screen, rx: int, ry: int, n: nat, color: nat, clip: Box, dirty: Box,
                                    x: int, y: int, c: nat)
    requires ScreenOk(s) && OnScreen(s, x, y)
    ensures ClipAfter(s, RowOf(rx, ry, n, color), clip) == clip
    ensures PaintAll(s, RowOf(rx, ry, n, color), clip, dirty, x, y, c) ==
      if y == ry && rx <= x < rx + n && In(clip, x, y) && In(dirty, x, y) then color else c
    decreases n
  {
    if n > 0 {
      RowShows(s, rx, ry, n - 1, color, clip, dirty, x, y, c);
      var last := [Pixel(rx + n - 1, ry, color)];
      PaintConcat(s, RowOf(rx, ry, n - 1, color), last, clip, dirty, x, y, c);
      ClipConcat(s, RowOf(rx, ry, n - 1, color), last, clip);
      assert last[1..] == [];
    }
  }

  lemma {:induction false} ClipConcat(s: Screen, a: seq<Cmd>, b: seq<Cmd>, clip: Box)
    ensures ClipAfter(s, a + b, clip) == ClipAfter(s, b, ClipAfter(s, a, clip))
    decreases |a|
  {
    if a == [] {
      assert a + b == b;
    } else {
      assert (a + b)[1..] == a[1..] + b;
      ClipConcat(s, a[1..], b, NextClip(s, clip, a[0]));
    }
  }

  /** Filling a rectangle is setting its pixels one by one, each of which shows exactly
      inside clip and damage. */
  lemma {:induction false} RectIsPixels(s: Screen, rx: int, ry: int, w: nat, h: nat, color: nat, clip: Box, dirty: Box,
                                        x: int, y: int, c: nat)
    requires ScreenOk(s) && OnScreen(s, x, y)
    ensures Paint(s, Rect(rx, ry, w, h, color), clip, dirty, x, y, c) ==
      PaintAll(s, PixelsOf(rx, ry, w, h, color), clip, dirty, x, y, c)
    ensures ClipAfter(s, PixelsOf(rx, ry, w, h, color), clip) == clip
    ensures In(clip, x, y) && In(dirty, x, y) ==> Paint(s, Pixel(x, y, color), clip, dirty, x, y, c) == color
    decreases h
  {
    if h > 0 {
      RectIsPixels(s, rx, ry, w, h - 1, color, clip, dirty, x, y, c);
      var before, last := PixelsOf(rx, ry, w, h - 1, color), RowOf(rx, ry + h - 1, w, color);
      PaintConcat(s, before, last, clip, dirty, x, y, c);
      ClipConcat(s, before, last, clip);
      RowShows(s, rx, ry + h - 1, w, color, clip, dirty, x, y, PaintAll(s, before, clip, dirty, x, y, c));
    }
  }

  // ---------------------------------------------------------------- the wallpaper

  /** One pixel of a picture with five bits of red, six of green and five of blue. */
  datatype Rgb = Rgb(r: nat, g: nat, b: nat)

  predicate RgbOk(p: Rgb) { p.r < 32 && p.g < 64 && p.b < 32 }

  /** RGB565: red in the high bits. */
  function Pack(p: Rgb): (c: nat)
    requires RgbOk(p)
    ensures c < 0x10000
  {
    p.r * 0x800 + p.g * 0x20 + p.b
  }

  lemma ExpandPacked(p: Rgb)
    requires RgbOk(p)
    ensures Expand(Pack(p)) == p.r * 8 * 0x10000 + p.g * 4 * 0x100 + p.b * 8
  {
    var c := Pack(p);
    var high := 64 * p.r + p.g;
    assert c == 32 * high + p.b && c / 32 == high && c % 32 == p.b;
    Halves(c);
    assert high / 64 == p.r && high % 64 == p.g;
  }

  lemma Halves(c: nat)
    ensures c / 8 / 4 == c / 32 && c / 256 / 8 == c / 32 / 64
  {
  }

  /** The wallpaper shows the picture at every damaged pixel, whatever the clip rectangle;
      without a picture it is the background within 1024 by 768. */
  lemma WallpaperShows(s: Screen, picture: (int, int) -> Rgb, clip: Box, dirty: Box, x: int, y: int, c: nat)
    requires ScreenOk(s) && OnScreen(s, x, y) && RgbOk(picture(x, y))
    requires s.wallpaper[1024 * y + x] == Pack(picture(x, y))
    ensures var p, shown := picture(x, y), Paint(s, Wallpaper, clip, dirty, x, y, c);
      && (!In(dirty, x, y) ==> shown == c)
      && (s.loaded && In(dirty, x, y) ==> shown == p.r * 0x80000 + p.g * 0x400 + p.b * 8)
      && (!s.loaded && In(dirty, x, y) ==> shown == if In(clip, x, y) && x < 1024 && y < 768 then s.background else c)
  {
    hide Expand, Pack;
    ExpandPacked(picture(x, y));
  }
}
