/** struct x11_blocker_source and the functions that update it in place.

    The object owns the fixed array of MaxWindows window records, the
    window_count, the block-list and the image path.  Each method does what
    its C counterpart does to these fields, step by step, and is proved to
    leave the object in the state that the matching function of module Table,
    Events or Render computes from the old state. */
module Blocker {
  import opened Table
  import opened Events
  import opened Render

  class BlockerSource {
    var windows: array<Window>
    var windowCount: nat
    var blockedWindows: seq<string>
    /** The image path setting; the properties dialog starts in its directory. */
    var file: string

    ghost predicate Valid()
      reads this
    {
      windows.Length == MaxWindows && windowCount <= MaxWindows
    }

    /** The tracker state this object holds. */
    function State(): (s: Tracker)
      reads this, windows
      ensures Valid() ==> s.Valid()
    {
      Tracker(windows[..], windowCount, blockedWindows)
    }

    /** x11_blocker_source_create: a zeroed object, window_count 0, then the
        settings applied as by x11_blocker_source_update. */
    constructor (fileSetting: string, settings: seq<string>)
      ensures Valid() && fresh(windows)
      ensures State() == Initial(settings) && file == fileSetting
    {
      windows := new Window[MaxWindows](_ => Zero);
      windowCount := 0;
      blockedWindows := [];
      file := "";
      new;
      assert windows[..] == seq(MaxWindows, _ => Zero);
      Update(fileSetting, settings);
    }

    /** add_blocked_window: append a copy of `name` to the block-list. */
    method AddBlockedWindow(name: string)
      modifies this`blockedWindows
      ensures blockedWindows == old(blockedWindows) + [name]
    {
      blockedWindows := blockedWindows + [name];
    }

    /** x11_blocker_source_update: store the image path, empty the block-list
        and push every string of the settings array, in order.  The window
        table is not touched, so windows tracked before stay tracked. */
    method Update(fileSetting: string, settings: seq<string>)
      requires Valid()
      modifies this
      ensures Valid() && windows == old(windows)
      ensures State() == old(State()).(blocked := settings) && file == fileSetting
    {
      file := fileSetting;
      blockedWindows := [];
      for i := 0 to |settings|
        invariant blockedWindows == settings[..i]
        invariant windows == old(windows) && windowCount == old(windowCount) && file == fileSetting
      {
        AddBlockedWindow(settings[i]);
      }
    }

    /** find_window: linear scan of the live entries. */
    method FindWindow(h: Handle) returns (ind: int)
      requires Valid()
      ensures ind == Find(windows[..], windowCount, h)
    {
      var i := 0;
      while i < windowCount
        invariant 0 <= i <= windowCount
        invariant forall j :: 0 <= j < i ==> windows[j].handle != h
      {
        if windows[i].handle == h {
          return i;
        }
        i := i + 1;
      }
      return -1;
    }

    /** is_blocked_window: linear scan of the block-list with strcmp. */
    method IsBlockedWindow(name: string) returns (b: bool)
      ensures b == IsBlocked(blockedWindows, name)
    {
      for i := 0 to |blockedWindows|
        invariant forall j :: 0 <= j < i ==> blockedWindows[j] != name
      {
        if name == blockedWindows[i] {
          return true;
        }
      }
      return false;
    }

    /** update_window(ctx, d, &windows[slot], 1): set is_mapped, then
        XGetGeometry writes position and size (nothing when it fails). */
    method UpdateWindow(slot: nat, geometry: Option<Geometry>)
      requires Valid() && slot < MaxWindows
      modifies windows
      ensures windows[..] == old(windows[..])[slot := Refresh(old(windows[slot]), geometry)]
    {
      var w := windows[slot].(mapped := true);
      match geometry {
        case None =>
        case Some(g) => w := w.(x := g.x, y := g.y, width := g.width, height := g.height);
      }
      windows[slot] := w;
    }

    /** map_window. */
    method MapWindow(h: Handle, hint: Option<string>, geometry: Option<Geometry>)
      requires Valid()
      modifies this`windowCount, windows
      ensures Valid() && State() == AfterMap(old(State()), h, hint, geometry)
    {
      if hint.None? {
        return;
      }
      var listed := IsBlockedWindow(hint.value);
      if !listed {
        return;
      }
      var ind := FindWindow(h);
      var isNew := ind < 0;
      if isNew && windowCount == MaxWindows {
        return;
      }
      var slot: nat;
      if isNew {
        slot := windowCount;
        windowCount := windowCount + 1;
      } else {
        slot := ind;
      }
      var w := windows[slot];
      if isNew {
        w := w.(doUnmap := 0, name := Truncate(hint.value));
      }
      windows[slot] := w.(handle := h);
      UpdateWindow(slot, geometry);
    }

    /** unmap_window. */
    method UnmapWindow(h: Handle)
      requires Valid()
      modifies windows
      ensures Valid() && State() == AfterUnmap(old(State()), h)
    {
      var ind := FindWindow(h);
      if ind == -1 {
        return;
      }
      windows[ind] := windows[ind].(doUnmap := UnmapFrames);
    }

    /** remove_window: find the entry, then the memmove; window_count stays
        as it is. */
    method RemoveWindow(h: Handle)
      requires Valid()
      modifies windows
      ensures Valid() && State() == AfterRemove(old(State()), h)
    {
      var ind := FindWindow(h);
      if ind == -1 {
        return;
      }
      ShiftDown(ind);
    }

    /** The memmove of remove_window: entry k + 1 is copied into entry k for
        k = ind .. window_count - 2. */
    method ShiftDown(ind: nat)
      requires Valid() && ind < windowCount
      modifies windows
      ensures windows[..] == Shifted(old(windows[..]), windowCount, ind)
    {
      var k := ind;
      while k < windowCount - 1
        invariant ind <= k < windowCount
        invariant forall j :: 0 <= j < ind ==> windows[j] == old(windows[j])
        invariant forall j :: ind <= j < k ==> windows[j] == old(windows[j + 1])
        invariant forall j :: k <= j < MaxWindows ==> windows[j] == old(windows[j])
      {
        windows[k] := windows[k + 1];
        k := k + 1;
      }
      ShiftedByCopies(old(windows[..]), windowCount, ind, windows[..]);
    }

    /** One pass of the switch in x11_blocker_listen. */
    method HandleEvent(e: Event)
      requires Valid()
      modifies this`windowCount, windows
      ensures Valid() && State() == Step(old(State()), e)
    {
      match e {
        case DestroyNotify(h) => RemoveWindow(h);
        case UnmapNotify(h) => UnmapWindow(h);
        case MapNotify(h, hint, geometry) => MapWindow(h, hint, geometry);
        case ConfigureNotify(h, hint, geometry) => MapWindow(h, hint, geometry);
        case VisibilityNotify(h, hint, geometry) => MapWindow(h, hint, geometry);
        case OtherEvent =>
      }
    }

    /** The loop of x11_blocker_listen over the events delivered so far. */
    method Listen(events: seq<Event>)
      requires Valid()
      modifies this`windowCount, windows
      ensures Valid() && State() == Run(old(State()), events)
    {
      for i := 0 to |events|
        invariant Valid()
        invariant Run(old(State()), events) == Run(State(), events[i..])
      {
        assert events[i..][1..] == events[i + 1..];
        HandleEvent(events[i]);
      }
    }

    /** x11_blocker_source_render: without a texture nothing happens;
        otherwise each live entry is hidden and re-armed when do_unmap is 0,
        or drawn over when it is mapped.  The rectangles are returned in
        drawing order instead of being passed to obs_source_draw. */
    method Render(hasTexture: bool) returns (rects: seq<Rect>)
      requires Valid()
      modifies windows
      ensures Valid()
      ensures hasTexture ==> windows[..] == RenderTable(old(windows[..]), windowCount) &&
                             rects == Drawn(old(windows[..]), windowCount)
      ensures !hasTexture ==> windows[..] == old(windows[..]) && rects == []
    {
      rects := [];
      if !hasTexture {
        return;
      }
      for i := 0 to windowCount
        invariant forall k :: 0 <= k < i ==> windows[k] == Tick(old(windows[k]))
        invariant forall k :: i <= k < MaxWindows ==> windows[k] == old(windows[k])
        invariant rects == Drawn(old(windows[..]), i)
      {
        var w := windows[i];
        if w.doUnmap == 0 {
          windows[i] := w.(mapped := false, doUnmap := UnmapFrames);
        } else if w.mapped {
          rects := rects + [Padded(w)];
        }
      }
      assert windows[..] == RenderTable(old(windows[..]), windowCount);
    }
  }
}
