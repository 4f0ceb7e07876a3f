/** The per-frame pass of x11_blocker_source_render, as values.

    Every live entry is visited once per frame.  An entry whose do_unmap is 0
    is hidden and re-armed with unmap_frames; otherwise, if it is mapped, an
    overlay rectangle padded by 50 units on every side is drawn over it.
    Nothing decrements do_unmap. */
module Render {
  import opened Table

  /** `static const int buffer`: the padding around a window, in pixels. */
  const Pad: int := 50

  /** The four arguments obs_source_draw receives after the texture. */
  datatype Rect = Rect(x: int, y: int, width: Uint32, height: Uint32)

  /** `unsigned int` addition: wraps modulo 2^32. */
  function AddWrap(a: Uint32, b: nat): (r: Uint32)
    ensures a as int + b < 0x1_0000_0000 ==> r as int == a as int + b
  {
    ((a as int + b) % 0x1_0000_0000) as Uint32
  }

  /** (x - buffer, y - buffer, width + buffer * 2, height + buffer * 2). */
  function Padded(w: Window): (r: Rect)
    ensures r.x == w.x - Pad && r.y == w.y - Pad
    ensures r.width as int == (w.width as int + 2 * Pad) % 0x1_0000_0000
    ensures r.height as int == (w.height as int + 2 * Pad) % 0x1_0000_0000
  {
    Rect(w.x - Pad, w.y - Pad, AddWrap(w.width, 2 * Pad), AddWrap(w.height, 2 * Pad))
  }

  /** The render loop draws this entry: it is armed and mapped. */
  predicate Drawable(w: Window)
  {
    w.doUnmap != 0 && w.mapped
  }

  /** What the render loop does to one entry. */
  function Tick(w: Window): (r: Window)
    ensures r.doUnmap != 0
    ensures w.doUnmap != 0 ==> r == w
    ensures w.doUnmap == 0 ==> !r.mapped && r.doUnmap == UnmapFrames &&
                               r.(mapped := w.mapped, doUnmap := 0) == w
  {
    if w.doUnmap == 0 then w.(mapped := false, doUnmap := UnmapFrames) else w
  }

  /** The window array after one render pass over the live prefix [0, count). */
  function RenderTable(ws: seq<Window>, count: nat): (r: seq<Window>)
    requires count <= |ws|
    ensures |r| == |ws|
    ensures forall k :: 0 <= k < count ==> r[k].doUnmap != 0
    ensures r[count..] == ws[count..]
  {
    seq(|ws|, k requires 0 <= k < |ws| => if k < count then Tick(ws[k]) else ws[k])
  }

  /** The rectangles one render pass draws over the first `n` entries, in
      index order. */
  function Drawn(ws: seq<Window>, n: nat): (r: seq<Rect>)
    requires n <= |ws|
    ensures |r| <= n
    ensures forall q :: q in r ==> exists k :: 0 <= k < n && Drawable(ws[k]) && q == Padded(ws[k])
  {
    if n == 0 then []
    else Drawn(ws, n - 1) + (if Drawable(ws[n - 1]) then [Padded(ws[n - 1])] else [])
  }

  /** `n` consecutive render passes with no event in between. */
  function Frames(ws: seq<Window>, count: nat, n: nat): (r: seq<Window>)
    requires count <= |ws|
    ensures |r| == |ws|
    ensures r[count..] == ws[count..]
    ensures n > 0 ==> forall k :: 0 <= k < count ==> r[k].doUnmap != 0
  {
    if n == 0 then ws else RenderTable(Frames(ws, count, n - 1), count)
  }

  /** Every drawable live entry is drawn, and nothing else is. */
  lemma {:induction false} DrawnExactly(ws: seq<Window>, n: nat, q: Rect)
    requires n <= |ws|
    ensures q in Drawn(ws, n) <==> exists k :: 0 <= k < n && Drawable(ws[k]) && q == Padded(ws[k])
  {
    if n > 0 {
      DrawnExactly(ws, n - 1, q);
      if exists k :: 0 <= k < n && Drawable(ws[k]) && q == Padded(ws[k]) {
        var k :| 0 <= k < n && Drawable(ws[k]) && q == Padded(ws[k]);
        if k < n - 1 {
          assert q in Drawn(ws, n - 1);
        }
      }
    }
  }

  /** When width + 100 and height + 100 do not wrap, the drawn rectangle
      covers the window with 50 units to spare on each side. */
  lemma PaddedCovers(w: Window)
    requires w.width as int + 2 * Pad < 0x1_0000_0000 && w.height as int + 2 * Pad < 0x1_0000_0000
    ensures var q := Padded(w);
            q.x == w.x - Pad && q.y == w.y - Pad &&
            q.x + q.width as int == w.x + w.width as int + Pad &&
            q.y + q.height as int == w.y + w.height as int + Pad
  {
  }

  /** After one frame every live entry is armed (do_unmap != 0).  An entry
      that was at 0 is hidden and re-armed with unmap_frames, all its other
      fields kept; the other entries and the slots past the count are
      untouched. */
  lemma RenderArmsAll(ws: seq<Window>, count: nat)
    requires count <= |ws|
    ensures var r := RenderTable(ws, count);
            (forall k :: 0 <= k < count ==> r[k].doUnmap != 0) &&
            (forall k :: 0 <= k < count && ws[k].doUnmap == 0 ==>
               r[k] == ws[k].(mapped := false, doUnmap := UnmapFrames)) &&
            (forall k :: 0 <= k < count && ws[k].doUnmap != 0 ==> r[k] == ws[k]) &&
            (forall k :: count <= k < |ws| ==> r[k] == ws[k])
  {
  }

  /** A second frame changes nothing: the pass settles after one frame. */
  lemma RenderSettles(ws: seq<Window>, count: nat)
    requires count <= |ws|
    ensures RenderTable(RenderTable(ws, count), count) == RenderTable(ws, count)
  {
  }

  /** An entry that is armed is left exactly as it is by any number of frames. */
  lemma {:induction false} ArmedStaysPut(ws: seq<Window>, count: nat, n: nat, k: nat)
    requires count <= |ws| && k < |ws| && ws[k].doUnmap != 0
    ensures Frames(ws, count, n)[k] == ws[k]
  {
    if n > 0 {
      ArmedStaysPut(ws, count, n - 1, k);
    }
  }
}
