/** The drawing engine of sdk/wm.c on two pixel buffers. */
module Compositor {
  import opened DamageSpec
  import opened DamageProofs

  function MaxOf(a: int, b: int): int { if a > b then a else b }
  function MinOf(a: int, b: int): int { if a < b then a else b }

  class Display {
    const s: Screen
    const back: array2<nat>          // back_buffer, row y, column x
    const front: array2<nat>         // framebuffer
    var clip: Box
    var dirty: Box

    ghost predicate Valid()
      reads this
    {
      && ScreenOk(s) && back != front
      && back.Length0 == front.Length0 == s.height && back.Length1 == front.Length1 == s.width
      && Safe(s, dirty)
    }

    /** The pixels of the two buffers differ only inside the damage. */
    ghost predicate Synced()
      reads this, back, front
      requires Valid()
    {
      forall y, x :: 0 <= y < s.height && 0 <= x < s.width && !In(dirty, x, y) ==> front[y, x] == back[y, x]
    }

    /** `_start`: buffers of unknown contents, all of the screen marked. */
    constructor (s: Screen, back: array2<nat>, front: array2<nat>)
      requires ScreenOk(s) && back != front
      requires back.Length0 == front.Length0 == s.height && back.Length1 == front.Length1 == s.width
      ensures Valid() && Synced() && this.s == s && this.back == back && this.front == front
    {
      this.s := s;
      this.back := back;
      this.front := front;
      clip := Whole(s);
      dirty := Whole(s);
    }

    method SetClippingRect(x: int, y: int, w: int, h: int)
      requires Valid()
      modifies this`clip
      ensures clip == NextClip(s, old(clip), Clip(x, y, w, h))
    {
      var minX := if x < 0 then 0 else x;
      var minY := if y < 0 then 0 else y;
      var maxX := if x + w - 1 >= s.width then s.width - 1 else x + w - 1;
      var maxY := if y + h - 1 >= s.height then s.height - 1 else y + h - 1;
      clip := Box(minX, minY, maxX, maxY);
    }

    method ResetClippingRect()
      requires Valid()
      modifies this`clip
      ensures clip == NextClip(s, old(clip), ResetClip)
    {
      clip := Box(0, 0, s.width - 1, s.height - 1);
    }

    method AddDirtyRect(x: int, y: int, w: int, h: int)
      requires Valid()
      modifies this`dirty
      ensures Valid() && dirty == AddDirty(s, old(dirty), RectBox(x, y, w, h))
      ensures old(Synced()) ==> Synced()
    {
      if x < dirty.minX { dirty := dirty.(minX := if x < 0 then 0 else x); }
      if y < dirty.minY { dirty := dirty.(minY := if y < 0 then 0 else y); }
      if x + w - 1 > dirty.maxX { dirty := dirty.(maxX := if x + w - 1 >= s.width then s.width - 1 else x + w - 1); }
      if y + h - 1 > dirty.maxY { dirty := dirty.(maxY := if y + h - 1 >= s.height then s.height - 1 else y + h - 1); }
      forall i, j | 0 <= i < s.height && 0 <= j < s.width
        ensures In(old(dirty), j, i) ==> In(dirty, j, i)
      {
        AddDirtyCovers(s, old(dirty), RectBox(x, y, w, h), j, i);
      }
    }

    method MarkScreenDirty()
      requires Valid()
      modifies this`dirty
      ensures Valid() && dirty == Whole(s) && Synced()
    {
      dirty := Box(0, 0, s.width - 1, s.height - 1);
    }

    /** Every on-screen pixel of the back buffer is what the command makes of it. */
    twostate predicate Painted(cmd: Cmd)
      reads this, back
      requires old(Valid()) && Valid()
    {
      forall y, x :: 0 <= y < s.height && 0 <= x < s.width ==>
        back[y, x] == Paint(s, cmd, old(clip), dirty, x, y, old(back[y, x]))
    }

    method PutPixel(x: int, y: int, color: nat)
      requires Valid()
      modifies back
      ensures Painted(Pixel(x, y, color))
      ensures old(Synced()) ==> Synced()
    {
      if x < clip.minX || x > clip.maxX || y < clip.minY || y > clip.maxY { return; }
      if x < dirty.minX || x > dirty.maxX || y < dirty.minY || y > dirty.maxY { return; }
      back[y, x] := color;
    }

    method DrawRect(x: int, y: int, width: int, height: int, color: nat)
      requires Valid()
      modifies back
      ensures Painted(Rect(x, y, width, height, color))
      ensures old(Synced()) ==> Synced()
    {
      var startX := MaxOf(MaxOf(x, clip.minX), dirty.minX);
      var startY := MaxOf(MaxOf(y, clip.minY), dirty.minY);
      var endX := MinOf(MinOf(x + width - 1, clip.maxX), dirty.maxX);
      var endY := MinOf(MinOf(y + height - 1, clip.maxY), dirty.maxY);
      if startX > endX || startY > endY { return; }
      var i := startY;
      while i <= endY
        invariant startY <= i <= endY + 1
        invariant forall v, u :: 0 <= v < s.height && 0 <= u < s.width ==>
          back[v, u] == if startY <= v < i && startX <= u <= endX then color else old(back[v, u])
      {
        var j := startX;
        while j <= endX
          invariant startX <= j <= endX + 1
          invariant forall v, u :: 0 <= v < s.height && 0 <= u < s.width ==>
            back[v, u] == if startX <= u <= endX && (startY <= v < i || (v == i && u < j)) then color
                else old(back[v, u])
        {
          back[i, j] := color;
          j := j + 1;
        }
        i := i + 1;
      }
    }

    method DrawWallpaper()
      requires Valid()
      modifies back
      ensures Painted(Wallpaper)
      ensures old(Synced()) ==> Synced()
    {
      if !s.loaded {
        DrawRect(0, 0, 1024, 768, s.background);
        return;
      }
      var startX := if dirty.minX > 0 then dirty.minX else 0;
      var startY := if dirty.minY > 0 then dirty.minY else 0;
      var endX := if dirty.maxX < s.width then dirty.maxX else s.width - 1;
      var endY := if dirty.maxY < s.height then dirty.maxY else s.height - 1;
      if startX > endX || startY > endY { return; }
      var i := startY;
      while i <= endY
        invariant startY <= i <= endY + 1
        invariant forall v, u :: 0 <= v < s.height && 0 <= u < s.width ==>
          back[v, u] == if startY <= v < i && startX <= u <= endX then Expand(s.wallpaper[v * ROW + u])
              else old(back[v, u])
      {
        var j := startX;
        while j <= endX
          invariant startX <= j <= endX + 1
          invariant forall v, u :: 0 <= v < s.height && 0 <= u < s.width ==>
            back[v, u] == if startX <= u <= endX && (startY <= v < i || (v == i && u < j))
                          then Expand(s.wallpaper[v * ROW + u]) else old(back[v, u])
        {
          back[i, j] := Expand(s.wallpaper[i * 1024 + j]);
          j := j + 1;
        }
        i := i + 1;
      }
    }

    /** Copies the damage; afterwards the frame buffer equals the back buffer everywhere. */
    method SwapBuffers()
      requires Valid() && Synced()
      modifies this`dirty, front
      ensures Valid() && Synced()
      ensures forall y, x :: 0 <= y < s.height && 0 <= x < s.width ==> front[y, x] == back[y, x]
      ensures dirty == if old(dirty).minX > old(dirty).maxX || old(dirty).minY > old(dirty).maxY
                       then old(dirty) else Clean(s)
    {
      var sMinX := if dirty.minX < 0 then 0 else dirty.minX;
      var sMinY := if dirty.minY < 0 then 0 else dirty.minY;
      var sMaxX := if dirty.maxX >= s.width then s.width - 1 else dirty.maxX;
      var sMaxY := if dirty.maxY >= s.height then s.height - 1 else dirty.maxY;
      if sMinX > sMaxX || sMinY > sMaxY { return; }
      var y := sMinY;
      while y <= sMaxY
        invariant sMinY <= y <= sMaxY + 1
        invariant forall v, u :: 0 <= v < s.height && 0 <= u < s.width ==>
          front[v, u] == if sMinY <= v < y && sMinX <= u <= sMaxX then back[v, u] else old(front[v, u])
      {
        var x := sMinX;
        while x <= sMaxX
          invariant sMinX <= x <= sMaxX + 1
          invariant forall v, u :: 0 <= v < s.height && 0 <= u < s.width ==>
            front[v, u] == if sMinX <= u <= sMaxX && (sMinY <= v < y || (v == y && u < x))
                           then back[v, u] else old(front[v, u])
        {
          front[y, x] := back[y, x];
          x := x + 1;
        }
        y := y + 1;
      }
      dirty := Box(s.width, s.height, 0, 0);
    }
  }
}
