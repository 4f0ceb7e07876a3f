/** Two places where x11-blocker.c does not do what its design describes,
    each stated as written and next to a corrected definition.

    1. remove_window compacts the array but never decrements window_count,
       so a destroyed window is never really gone: the last live entry is
       either kept (when it is the one removed) or duplicated.
    2. The render pass never counts do_unmap down: once an entry has been
       through one frame its do_unmap is non-zero for good, so an unmap
       never hides the overlay of a window that is mapped again. */
module Findings {
  import opened Table
  import opened Events
  import opened Render

  // ---------------------------------------------------------------------------
  // 1. remove_window

  /** Removing the last live entry copies nothing: the table is unchanged
      and the destroyed window is still tracked. */
  lemma RemoveLastKeepsIt(s: Tracker, h: Handle)
    requires s.Valid() && s.count > 0 && Find(s.windows, s.count, h) == s.count - 1
    ensures AfterRemove(s, h) == s && Tracked(AfterRemove(s, h), h)
  {
  }

  /** Removing any other live entry leaves the last live entry twice in the
      live prefix, so handles are no longer unique. */
  lemma RemoveDuplicatesLast(s: Tracker, h: Handle)
    requires s.Valid() && 0 <= Find(s.windows, s.count, h) < s.count - 1
    ensures var r := AfterRemove(s, h);
            r.count == s.count && r.windows[s.count - 2] == r.windows[s.count - 1] == s.windows[s.count - 1] &&
            !Unique(r)
  {
  }

  /** remove_window as intended: the same compaction, and window_count goes
      down by one. */
  function AfterRemoveFixed(s: Tracker, h: Handle): (r: Tracker)
    requires s.Valid()
    ensures r.Valid() && r.blocked == s.blocked
  {
    var ind := Find(s.windows, s.count, h);
    if ind == -1 then s
    else s.(windows := Shifted(s.windows, s.count, ind), count := s.count - 1)
  }

  /** The corrected removal drops exactly the entry for `h` from the live
      entries, keeps the others in order and keeps handles unique, so the
      window is no longer tracked. */
  lemma RemoveFixedRemoves(s: Tracker, h: Handle)
    requires s.Valid() && Unique(s)
    ensures var r := AfterRemoveFixed(s, h);
            var ind := Find(s.windows, s.count, h);
            Unique(r) && !Tracked(r, h) &&
            (ind == -1 ==> r == s) &&
            (ind >= 0 ==> r.count == s.count - 1 &&
                          r.windows[..r.count] == s.windows[..ind] + s.windows[ind + 1..s.count])
  {
    var r := AfterRemoveFixed(s, h);
    var ind := Find(s.windows, s.count, h);
    if ind >= 0 {
      RemoveShifts(s, h);
      assert r.windows[..r.count] == s.windows[..ind] + s.windows[ind + 1..s.count];
      forall k | 0 <= k < r.count
        ensures r.windows[k].handle != h
      {
        if k >= ind {
          assert r.windows[k] == s.windows[k + 1];
        }
      }
      forall i, j | 0 <= i < j < r.count
        ensures r.windows[i].handle != r.windows[j].handle
      {
        var i' := if i < ind then i else i + 1;
        var j' := if j < ind then j else j + 1;
        assert r.windows[i] == s.windows[i'] && r.windows[j] == s.windows[j'];
      }
    }
  }

  // ---------------------------------------------------------------------------
  // 2. the render pass and do_unmap

  /** As written: unmapping a mapped window arms do_unmap, and from then on
      no number of frames hides it; it is drawn over in every one of them. */
  lemma UnmapNeverHides(s: Tracker, h: Handle, n: nat)
    requires s.Valid()
    requires var ind := Find(s.windows, s.count, h); ind >= 0 && s.windows[ind].mapped
    ensures var t := AfterUnmap(s, h);
            var ind := Find(s.windows, s.count, h);
            var ws := Frames(t.windows, t.count, n);
            ws[ind].mapped && Padded(ws[ind]) in Drawn(ws, t.count)
  {
    var t := AfterUnmap(s, h);
    var ind := Find(s.windows, s.count, h);
    ArmedStaysPut(t.windows, t.count, n, ind);
    var ws := Frames(t.windows, t.count, n);
    DrawnExactly(ws, t.count, Padded(ws[ind]));
  }

  /** As written: a newly admitted window gets do_unmap 0, so the very
      next frame hides it, it is not drawn in that frame, and no number of
      later frames shows it again; only another map-like event for it does. */
  lemma NewWindowHidden(s: Tracker, h: Handle, name: string, geometry: Option<Geometry>, n: nat)
    requires s.Valid() && IsBlocked(s.blocked, name)
    requires !Tracked(s, h) && s.count < MaxWindows
    ensures var r := AfterMap(s, h, Some(name), geometry);
            r.windows[s.count].handle == h && r.windows[s.count].mapped &&
            !Drawable(r.windows[s.count]) &&
            (n > 0 ==> !Frames(r.windows, r.count, n)[s.count].mapped)
  {
    var r := AfterMap(s, h, Some(name), geometry);
    if n > 0 {
      var ws := RenderTable(r.windows, r.count);
      assert ws[s.count] == r.windows[s.count].(mapped := false, doUnmap := UnmapFrames);
      FramesSplit(r.windows, r.count, n);
      ArmedStaysPut(ws, r.count, n - 1, s.count);
    }
  }

  /** `n` frames are one frame followed by n - 1 more. */
  lemma {:induction false} FramesSplit(ws: seq<Window>, count: nat, n: nat)
    requires count <= |ws| && n > 0
    ensures Frames(ws, count, n) == Frames(RenderTable(ws, count), count, n - 1)
  {
    if n > 1 {
      FramesSplit(ws, count, n - 1);
    }
  }

  /** One frame as intended: a pending hide counts down, and the entry is
      hidden on the frame where the count reaches 0.  do_unmap 0 means no
      hide is pending. */
  function TickFixed(w: Window): (r: Window)
    ensures r.(mapped := w.mapped, doUnmap := w.doUnmap) == w
    ensures r.mapped ==> w.mapped
    ensures w.doUnmap <= 0 ==> r == w
    ensures w.doUnmap > 0 ==> r.doUnmap == w.doUnmap - 1
    ensures w.doUnmap == 1 ==> !r.mapped
    ensures w.doUnmap > 1 ==> r.mapped == w.mapped
  {
    if w.doUnmap > 0 then w.(doUnmap := w.doUnmap - 1, mapped := w.mapped && w.doUnmap > 1) else w
  }

  /** One corrected frame over the live prefix [0, count). */
  function RenderTableFixed(ws: seq<Window>, count: nat): (r: seq<Window>)
    requires count <= |ws|
    ensures |r| == |ws|
    ensures r[count..] == ws[count..]
    ensures forall k :: 0 <= k < count && r[k].mapped ==> ws[k].mapped
  {
    seq(|ws|, k requires 0 <= k < |ws| => if k < count then TickFixed(ws[k]) else ws[k])
  }

  /** `n` corrected frames with no event in between: they never map an
      entry and never touch a slot past the count. */
  function FramesFixed(ws: seq<Window>, count: nat, n: nat): (r: seq<Window>)
    requires count <= |ws|
    ensures |r| == |ws|
    ensures r[count..] == ws[count..]
    ensures forall k :: 0 <= k < count && r[k].mapped ==> ws[k].mapped
  {
    if n == 0 then ws else RenderTableFixed(FramesFixed(ws, count, n - 1), count)
  }

  /** After n corrected frames a live entry with do_unmap = d >= 0 has counted
      down to max(d - n, 0) and is still mapped only if it was and either no
      hide was pending or fewer than d frames have passed. */
  lemma {:induction false} CountsDown(ws: seq<Window>, count: nat, n: nat, k: nat)
    requires count <= |ws| && k < count && ws[k].doUnmap >= 0
    ensures var d := ws[k].doUnmap;
            FramesFixed(ws, count, n)[k] ==
              ws[k].(doUnmap := if d > n then d - n else 0,
                     mapped := ws[k].mapped && (d == 0 || n < d))
  {
    if n > 0 {
      CountsDown(ws, count, n - 1, k);
    }
  }

  /** The intended debounce: after an unmap, a mapped window stays drawn for
      the next UnmapFrames - 1 frames and is hidden from frame UnmapFrames on. */
  lemma DebounceHides(s: Tracker, h: Handle, n: nat)
    requires s.Valid()
    requires var ind := Find(s.windows, s.count, h); ind >= 0 && s.windows[ind].mapped
    ensures var t := AfterUnmap(s, h);
            var ind := Find(s.windows, s.count, h);
            FramesFixed(t.windows, t.count, n)[ind].mapped <==> n < UnmapFrames
  {
    var t := AfterUnmap(s, h);
    CountsDown(t.windows, t.count, n, Find(s.windows, s.count, h));
  }

  // ---------------------------------------------------------------------------
  // A concrete run: block-list ["skype"], window 7 at (100, 200), 300 x 150.

  const Skype := MapNotify(7, Some("skype"), Some(Geometry(100, 200, 300, 150)))

  /** As written: the first frame after the map draws nothing and hides
      window 7; after map and unmap, four frames later it is still mapped,
      and after its destroy event it is still in the table. */
  lemma SkypeAsWritten()
    ensures var s1 := Step(Initial(["skype"]), Skype);
            var s2 := Step(s1, UnmapNotify(7));
            var s3 := Step(s2, DestroyNotify(7));
            s1.count == 1 && s1.windows[0].handle == 7 && s1.windows[0].mapped &&
            s1.windows[0].x == 100 && s1.windows[0].width == 300 &&
            Drawn(s1.windows, s1.count) == [] && !RenderTable(s1.windows, s1.count)[0].mapped &&
            s2.windows[0].doUnmap == UnmapFrames &&
            Frames(s2.windows, s2.count, 4)[0].mapped &&
            s3.count == 1 && Tracked(s3, 7)
  {
    var s0 := Initial(["skype"]);
    assert IsBlocked(s0.blocked, "skype") by { assert s0.blocked[0] == "skype"; }
    var s1 := Step(s0, Skype);
    assert Find(s0.windows, 0, 7) == -1;
    assert s1.windows[0].handle == 7;
    assert Find(s1.windows, s1.count, 7) == 0;
    var s2 := Step(s1, UnmapNotify(7));
    ArmedStaysPut(s2.windows, s2.count, 4, 0);
    assert Find(s2.windows, s2.count, 7) == 0;
    RemoveLastKeepsIt(s2, 7);
  }

  /** Corrected: the same events and frames hide window 7 on the fourth frame
      and its destroy event empties the table. */
  lemma SkypeFixed()
    ensures var s1 := Step(Initial(["skype"]), Skype);
            var s2 := Step(s1, UnmapNotify(7));
            FramesFixed(s2.windows, s2.count, 3)[0].mapped &&
            !FramesFixed(s2.windows, s2.count, 4)[0].mapped &&
            AfterRemoveFixed(s2, 7).count == 0
  {
    var s0 := Initial(["skype"]);
    assert IsBlocked(s0.blocked, "skype") by { assert s0.blocked[0] == "skype"; }
    var s1 := Step(s0, Skype);
    assert Find(s0.windows, 0, 7) == -1;
    assert s1.windows[0].handle == 7;
    assert Find(s1.windows, s1.count, 7) == 0;
    DebounceHides(s1, 7, 3);
    DebounceHides(s1, 7, 4);
  }
}
